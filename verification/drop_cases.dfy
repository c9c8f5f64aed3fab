/** `handleDragEnd` (src/pages/Board.tsx:233-353) case by case, on a valid
    board: which branch a drop takes, and what the board then shows. */
module DropCases {
  import opened Records
  import opened Seqs
  import opened CardOrder
  import opened Drag
  import opened DragProofs

  /** No list carries the id of a card of a valid board. */
  lemma NotAList(cards: seq<Card>, lists: seq<List>, c: Card)
    requires ValidBoard(cards, lists) && c in cards
    ensures FindList(lists, c.id) == None
  {
  }

  /** A card of list `l` is shown in `l`, so `findIndex` finds it there. */
  lemma ShownIndex(cards: seq<Card>, c: Card)
    requires c in cards
    ensures 0 <= IndexOfId(CardsForList(cards, c.listId), c.id)
  {
    CardsForListMembers(cards, c.listId, c);
  }

  /** Without a drop zone, or for a card the board does not hold, nothing
      happens; nor when the card is dropped on itself. */
  lemma DropIgnored(cards: seq<Card>, lists: seq<List>, activeId: Id, over: Option<Id>)
    requires ValidBoard(cards, lists)
    requires || over.None?
             || FindCard(cards, activeId).None?
             || over == Some(activeId)
    ensures DragEnd(cards, lists, activeId, over) == DropOutcome(cards, [])
  {
    if over.Some? && FindCard(cards, activeId).Some? {
      NotAList(cards, lists, FindCard(cards, activeId).value);
    }
  }

  /** A drop on another card of the same list takes the reorder branch with
      both indices in range. */
  lemma DropOnSameListCard(cards: seq<Card>, lists: seq<List>, active: Card, over: Card)
    requires ValidBoard(cards, lists) && active in cards && over in cards
    requires over.listId == active.listId && over.id != active.id
    ensures
      var listCards := CardsForList(cards, active.listId);
      var from := IndexOfId(listCards, active.id);
      var to := IndexOfId(listCards, over.id);
      && 0 <= from < |listCards| && 0 <= to < |listCards|
      && DragEnd(cards, lists, active.id, Some(over.id)) == Reorder(cards, active.listId, listCards, from, to)
  {
    FindUnique(cards, active);
    ShownIndex(cards, over);
    PlanOnSameListCard(cards, lists, active, over);
    var p := Plan(cards, lists, active, over.id);
    PerformReorderOnly(cards, active, p);
  }

  /** A plan that only reorders runs the reorder branch alone. */
  lemma PerformReorderOnly(cards: seq<Card>, active: Card, p: DropPlan)
    requires p.reorder && !p.insert && 0 <= p.from < |p.listCards|
    ensures Perform(cards, active, p) == Reorder(cards, p.target, p.listCards, p.from, p.overIndex)
  {
  }

  lemma PlanOnSameListCard(cards: seq<Card>, lists: seq<List>, active: Card, over: Card)
    requires ValidBoard(cards, lists) && active in cards && over in cards
    requires over.listId == active.listId && over.id != active.id
    ensures
      var listCards := CardsForList(cards, active.listId);
      var from := IndexOfId(listCards, active.id);
      var to := IndexOfId(listCards, over.id);
      && 0 <= from
      && Plan(cards, lists, active, over.id) == DropPlan(active.listId, listCards, from, to, true, 0, false)
  {
    FindUnique(cards, over);
    NotAList(cards, lists, over);
    ShownIndex(cards, active);
  }

  /** A list that does not hold the dragged card shows the same cards as the
      dragged card's siblings-to-be. */
  lemma SiblingsOfOtherList(cards: seq<Card>, active: Card, t: Id)
    requires UniqueIds(cards) && active in cards && t != active.listId
    ensures Siblings(cards, active, t) == CardsForList(cards, t)
  {
    OnlyActive(cards, active);
    FilterEquiv(cards, InListExcept(t, active.id), InList(t));
  }

  /** A plan that only inserts runs the insertion branch on the array as it was. */
  lemma PerformInsertOnly(cards: seq<Card>, active: Card, p: DropPlan)
    requires !p.reorder && p.insert
    ensures Perform(cards, active, p) == Insert(cards, cards, active, p.target, p.at)
  {
    var i := Insert(cards, cards, active, p.target, p.at);
    NilAppend(i.log);
  }

  lemma PlanOnOtherListCard(cards: seq<Card>, lists: seq<List>, active: Card, over: Card)
    requires ValidBoard(cards, lists) && active in cards && over in cards
    requires over.listId != active.listId
    ensures
      var listCards := CardsForList(cards, over.listId);
      var at := IndexOfId(listCards, over.id);
      Plan(cards, lists, active, over.id) == DropPlan(over.listId, listCards, -1, at, false, at, true)
  {
    FindUnique(cards, over);
    NotAList(cards, lists, over);
    NotShownElsewhere(cards, active, over.listId);
  }

  /** Another list does not show the dragged card. */
  lemma NotShownElsewhere(cards: seq<Card>, active: Card, t: Id)
    requires UniqueIds(cards) && active in cards && t != active.listId
    ensures IndexOfId(CardsForList(cards, t), active.id) == -1
  {
    OnlyActive(cards, active);
    var shown := CardsForList(cards, t);
    forall i | 0 <= i < |shown|
      ensures shown[i].id != active.id
    {
      assert shown[i] in cards;
    }
  }

  /** A drop on a card of another list inserts the dragged card at that card's
      index, shifting it and the cards after it down by one. */
  lemma DropOnOtherListCard(cards: seq<Card>, lists: seq<List>, active: Card, over: Card)
    requires ValidBoard(cards, lists) && active in cards && over in cards
    requires over.listId != active.listId
    ensures
      var at := IndexOfId(CardsForList(cards, over.listId), over.id);
      && 0 <= at < |Siblings(cards, active, over.listId)|
      && DragEnd(cards, lists, active.id, Some(over.id)) == Insert(cards, cards, active, over.listId, at)
  {
    FindUnique(cards, active);
    ShownIndex(cards, over);
    SiblingsOfOtherList(cards, active, over.listId);
    PlanOnOtherListCard(cards, lists, active, over);
    PerformInsertOnly(cards, active, Plan(cards, lists, active, over.id));
  }

  /** Removing the dragged card from a sorted list leaves as many cards as its
      siblings. */
  lemma SiblingCount(cards: seq<Card>, active: Card, t: Id)
    ensures |Filter(CardsForList(cards, t), NotId(active.id))| == |Siblings(cards, active, t)|
  {
    var shown := CardsForList(cards, t);
    FilterCountAll(shown, NotId(active.id));
    FilterCountAll(cards, InList(t));
    FilterCountAll(cards, InListExcept(t, active.id));
    assert multiset(Filter(shown, NotId(active.id))) == multiset(Filter(cards, InListExcept(t, active.id)));
    calc {
      |Filter(shown, NotId(active.id))|;
      |multiset(Filter(shown, NotId(active.id)))|;
      |multiset(Filter(cards, InListExcept(t, active.id)))|;
      |multiset(Siblings(cards, active, t))|;
    }
  }

  lemma PlanOnList(cards: seq<Card>, lists: seq<List>, active: Card, l: List)
    requires ValidBoard(cards, lists) && active in cards && l in lists
    ensures Plan(cards, lists, active, l.id).at == |Siblings(cards, active, l.id)|
    ensures Plan(cards, lists, active, l.id).target == l.id
    ensures !Plan(cards, lists, active, l.id).reorder && Plan(cards, lists, active, l.id).insert
  {
    var k :| 0 <= k < |lists| && lists[k] == l;
    assert FindCard(cards, l.id) == None;
    SiblingCount(cards, active, l.id);
  }

  /** A drop on a list (its empty area) appends the dragged card at the end of
      that list, its own list included. */
  lemma DropOnList(cards: seq<Card>, lists: seq<List>, active: Card, l: List)
    requires ValidBoard(cards, lists) && active in cards && l in lists
    ensures DragEnd(cards, lists, active.id, Some(l.id))
      == Insert(cards, cards, active, l.id, |Siblings(cards, active, l.id)|)
  {
    FindUnique(cards, active);
    PlanOnList(cards, lists, active, l);
    PerformInsertOnly(cards, active, Plan(cards, lists, active, l.id));
  }

  /** A drop on an id that is neither a list nor a card puts the dragged card
      at the top of its own list. */
  lemma DropOnUnknown(cards: seq<Card>, lists: seq<List>, active: Card, overId: Id)
    requires ValidBoard(cards, lists) && active in cards
    requires FindList(lists, overId).None? && FindCard(cards, overId).None?
    ensures DragEnd(cards, lists, active.id, Some(overId)) == Insert(cards, cards, active, active.listId, 0)
  {
    FindUnique(cards, active);
    var i := Insert(cards, cards, active, active.listId, 0);
    NilAppend(i.log);
  }

  // ---------------------------------------------------------------------------
  // What each kind of drop shows

  /** Dropping a card on another card of its own list: the list is shown in
      `arrayMove` order, renumbered densely, with the dragged card at the index
      the other card had; every other list is unchanged; no card is lost or
      duplicated, none changes content or list (whichever card counts as the
      dragged one); every card of the list gets its
      new position written, in the new order. */
  lemma DropOnSameListCardEffect(cards: seq<Card>, lists: seq<List>, active: Card, over: Card)
    requires ValidBoard(cards, lists) && active in cards && over in cards
    requires over.listId == active.listId && over.id != active.id
    ensures
      var l := active.listId;
      var r := DragEnd(cards, lists, active.id, Some(over.id));
      && ShowsAt(r.cards, l, IndexOfId(CardsForList(cards, l), over.id), active.id)
      && OthersUnchanged(cards, r.cards, l, l)
      && (forall a :: KeepsCards(cards, r.cards, a))
      && r.log == PositionUpdates(CardsForList(r.cards, l))
  {
    var l := active.listId;
    var listCards := CardsForList(cards, l);
    DropOnSameListCard(cards, lists, active, over);
    ReorderEffect(cards, l, IndexOfId(listCards, active.id), IndexOfId(listCards, over.id));
  }

  /** Dropping a card on a card of another list: the target list shows the
      dragged card at the index of the card it was dropped on and that card
      right after it, renumbered densely; the source list is renumbered densely
      without it; every other list is unchanged; no card is lost or duplicated,
      and only the dragged card changes list. The first write moves it. */
  lemma DropOnOtherListCardEffect(cards: seq<Card>, lists: seq<List>, active: Card, over: Card)
    requires ValidBoard(cards, lists) && active in cards && over in cards
    requires over.listId != active.listId
    ensures
      var t := over.listId;
      var at := IndexOfId(CardsForList(cards, t), over.id);
      var r := DragEnd(cards, lists, active.id, Some(over.id));
      var before := CardsForList(cards, t);
      && ShowsAt(r.cards, t, at, active.id)
      && NextIs(r.cards, t, at, over.id)
      && CardsForList(r.cards, t) == Renumber(Take(before, at) + [Placed(active, t, at)] + Drop(before, at))
      && Dense(CardsForList(r.cards, active.listId))
      && CardsForList(r.cards, active.listId) == Renumber(Filter(CardsForList(cards, active.listId), NotId(active.id)))
      && OthersUnchanged(cards, r.cards, t, active.listId)
      && KeepsCards(cards, r.cards, active.id)
      && |r.log| > 0 && r.log[0] == MoveToList(active.id, t, at)
  {
    DropOnOtherListCard(cards, lists, active, over);
    InsertBeforeCard(cards, active, over);
    SiblingsOfOtherList(cards, active, over.listId);
    SiblingsShown(cards, active, active.listId);
  }

  /** The cards a list keeps around the dragged card are the ones it shows,
      without the dragged card, in the order it shows them. */
  lemma SiblingsShown(cards: seq<Card>, active: Card, t: Id)
    ensures Siblings(cards, active, t) == Filter(CardsForList(cards, t), NotId(active.id))
  {
    FilterFilter(cards, InList(t), NotId(active.id), InListExcept(t, active.id));
    SortFilter(Filter(cards, InList(t)), NotId(active.id));
  }

  /** The writes of a drop on a card of another list, in issue order: the
      dragged card's new list and position, then the position of every other
      card of the target list in its new order, then the position of every
      card left in the source list in its new order. */
  lemma DropOnOtherListCardLog(cards: seq<Card>, lists: seq<List>, active: Card, over: Card)
    requires ValidBoard(cards, lists) && active in cards && over in cards
    requires over.listId != active.listId
    ensures
      var t := over.listId;
      var at := IndexOfId(CardsForList(cards, t), over.id);
      var r := DragEnd(cards, lists, active.id, Some(over.id));
      r.log == [MoveToList(active.id, t, at)]
        + PositionUpdates(Filter(CardsForList(r.cards, t), NotId(active.id)))
        + PositionUpdates(CardsForList(r.cards, active.listId))
  {
    var t := over.listId;
    var at := IndexOfId(CardsForList(cards, t), over.id);
    DropOnOtherListCard(cards, lists, active, over);
    AcrossShowsLists(cards, active, t, at);
  }

  /** The insertion a drop on a card of another list performs. */
  lemma InsertBeforeCard(cards: seq<Card>, active: Card, over: Card)
    requires UniqueIds(cards) && active in cards && over in cards
    requires over.listId != active.listId
    ensures
      var t := over.listId;
      var at := IndexOfId(CardsForList(cards, t), over.id);
      var r := Insert(cards, cards, active, t, at);
      && ShowsAt(r.cards, t, at, active.id)
      && NextIs(r.cards, t, at, over.id)
      && CardsForList(r.cards, t) == Spliced(cards, active, t, at)
      && Dense(CardsForList(r.cards, active.listId))
      && CardsForList(r.cards, active.listId) == Remaining(cards, active)
      && OthersUnchanged(cards, r.cards, t, active.listId)
      && KeepsCards(cards, r.cards, active.id)
      && |r.log| > 0 && r.log[0] == MoveToList(active.id, t, at)
  {
    var t := over.listId;
    var at := IndexOfId(CardsForList(cards, t), over.id);
    ShownIndex(cards, over);
    SiblingsOfOtherList(cards, active, t);
    InsertAcrossEffect(cards, active, t, at);
  }

  /** Dropping a card on a list: the card becomes the last card of that list,
      which is renumbered densely; if it came from another list, that list is
      renumbered densely without it; every other list is unchanged; no card is
      lost or duplicated. The writes are the move, then the target list's other
      cards, then the old list's cards. */
  lemma DropOnListEffect(cards: seq<Card>, lists: seq<List>, active: Card, l: List)
    requires ValidBoard(cards, lists) && active in cards && l in lists
    ensures
      var r := DragEnd(cards, lists, active.id, Some(l.id));
      var last := |CardsForList(r.cards, l.id)| - 1;
      var kept := Filter(CardsForList(cards, l.id), NotId(active.id));
      && ShowsAt(r.cards, l.id, last, active.id)
      && CardsForList(r.cards, l.id) == Renumber(kept + [Placed(active, l.id, |kept|)])
      && Dense(CardsForList(r.cards, active.listId))
      && (l.id != active.listId ==>
            CardsForList(r.cards, active.listId) == Renumber(Filter(CardsForList(cards, active.listId), NotId(active.id))))
      && OthersUnchanged(cards, r.cards, l.id, active.listId)
      && KeepsCards(cards, r.cards, active.id)
      && r.log == [MoveToList(active.id, l.id, last)]
           + PositionUpdates(Filter(CardsForList(r.cards, l.id), NotId(active.id)))
           + (if l.id != active.listId then PositionUpdates(CardsForList(r.cards, active.listId)) else [])
  {
    DropOnList(cards, lists, active, l);
    AppendShows(cards, active, l.id);
    AppendLog(cards, active, l.id);
  }

  /** What appending the dragged card to list `t` shows. */
  lemma AppendShows(cards: seq<Card>, active: Card, t: Id)
    requires UniqueIds(cards) && active in cards
    ensures
      var r := Insert(cards, cards, active, t, |Siblings(cards, active, t)|);
      var last := |CardsForList(r.cards, t)| - 1;
      var kept := Filter(CardsForList(cards, t), NotId(active.id));
      && ShowsAt(r.cards, t, last, active.id)
      && CardsForList(r.cards, t) == Renumber(kept + [Placed(active, t, |kept|)])
      && Dense(CardsForList(r.cards, active.listId))
      && (t != active.listId ==>
            CardsForList(r.cards, active.listId) == Renumber(Filter(CardsForList(cards, active.listId), NotId(active.id))))
      && OthersUnchanged(cards, r.cards, t, active.listId)
      && KeepsCards(cards, r.cards, active.id)
  {
    var at := |Siblings(cards, active, t)|;
    AppendedLast(cards, active, t);
    SplicedEnd(cards, active, t);
    if t != active.listId {
      InsertAcrossEffect(cards, active, t, at);
      SiblingsShown(cards, active, active.listId);
    } else {
      InsertWithinEffect(cards, active, at);
    }
  }

  /** The writes of appending the dragged card to list `t`. */
  lemma AppendLog(cards: seq<Card>, active: Card, t: Id)
    requires UniqueIds(cards) && active in cards
    ensures
      var r := Insert(cards, cards, active, t, |Siblings(cards, active, t)|);
      var last := |CardsForList(r.cards, t)| - 1;
      r.log == [MoveToList(active.id, t, last)]
           + PositionUpdates(Filter(CardsForList(r.cards, t), NotId(active.id)))
           + (if t != active.listId then PositionUpdates(CardsForList(r.cards, active.listId)) else [])
  {
    var at := |Siblings(cards, active, t)|;
    AppendedLast(cards, active, t);
    if t != active.listId {
      AcrossShowsLists(cards, active, t, at);
      InsertLogAcross(cards, active, t, at);
    } else {
      WithinShowsList(cards, active, at);
      InsertLogWithin(cards, active, at);
    }
  }

  /** The writes of an insertion into another list. */
  lemma InsertLogAcross(cards: seq<Card>, active: Card, t: Id, at: int)
    requires t != active.listId
    ensures Insert(cards, cards, active, t, at).log
      == [MoveToList(active.id, t, at)] + PositionUpdates(Filter(Spliced(cards, active, t, at), NotId(active.id)))
         + PositionUpdates(Remaining(cards, active))
  {
  }

  /** The writes of an insertion into the dragged card's own list. */
  lemma InsertLogWithin(cards: seq<Card>, active: Card, at: int)
    ensures Insert(cards, cards, active, active.listId, at).log
      == [MoveToList(active.id, active.listId, at)]
         + PositionUpdates(Filter(Spliced(cards, active, active.listId, at), NotId(active.id)))
  {
    AppendNil(PositionUpdates(Filter(Spliced(cards, active, active.listId, at), NotId(active.id))));
  }

  /** Appending to a list puts the dragged card behind the cards the list
      keeps, in their order. */
  lemma SplicedEnd(cards: seq<Card>, active: Card, t: Id)
    ensures var kept := Filter(CardsForList(cards, t), NotId(active.id));
      Spliced(cards, active, t, |Siblings(cards, active, t)|) == Renumber(kept + [Placed(active, t, |kept|)])
  {
    var s := Siblings(cards, active, t);
    SiblingsShown(cards, active, t);
    assert Take(s, |s|) == s && Drop(s, |s|) == [];
    AppendNil(s + [Placed(active, t, |s|)]);
  }

  /** Appending to a list leaves the dragged card last. */
  lemma AppendedLast(cards: seq<Card>, active: Card, t: Id)
    requires UniqueIds(cards) && active in cards
    ensures |CardsForList(Insert(cards, cards, active, t, |Siblings(cards, active, t)|).cards, t)| - 1
      == |Siblings(cards, active, t)|
  {
    var at := |Siblings(cards, active, t)|;
    SplicedLayout(cards, active, t, at);
    if t != active.listId {
      AcrossShowsLists(cards, active, t, at);
    } else {
      WithinShowsList(cards, active, at);
    }
  }

  /** Dropping a card on an unknown id moves it to the top of its own list,
      ahead of the list's other cards in their order, renumbered densely; every
      other list is unchanged. The writes are the move, then the list's other
      cards. */
  lemma DropOnUnknownEffect(cards: seq<Card>, lists: seq<List>, active: Card, overId: Id)
    requires ValidBoard(cards, lists) && active in cards
    requires FindList(lists, overId).None? && FindCard(cards, overId).None?
    ensures
      var r := DragEnd(cards, lists, active.id, Some(overId));
      var kept := Filter(CardsForList(cards, active.listId), NotId(active.id));
      && ShowsAt(r.cards, active.listId, 0, active.id)
      && CardsForList(r.cards, active.listId) == Renumber([Placed(active, active.listId, 0)] + kept)
      && OthersUnchanged(cards, r.cards, active.listId, active.listId)
      && KeepsCards(cards, r.cards, active.id)
      && r.log == [MoveToList(active.id, active.listId, 0)]
           + PositionUpdates(Filter(CardsForList(r.cards, active.listId), NotId(active.id)))
  {
    DropOnUnknown(cards, lists, active, overId);
    TopShows(cards, active);
  }

  /** What inserting the dragged card at the top of its own list shows and writes. */
  lemma TopShows(cards: seq<Card>, active: Card)
    requires UniqueIds(cards) && active in cards
    ensures
      var r := Insert(cards, cards, active, active.listId, 0);
      var kept := Filter(CardsForList(cards, active.listId), NotId(active.id));
      && ShowsAt(r.cards, active.listId, 0, active.id)
      && CardsForList(r.cards, active.listId) == Renumber([Placed(active, active.listId, 0)] + kept)
      && OthersUnchanged(cards, r.cards, active.listId, active.listId)
      && KeepsCards(cards, r.cards, active.id)
      && r.log == [MoveToList(active.id, active.listId, 0)]
           + PositionUpdates(Filter(CardsForList(r.cards, active.listId), NotId(active.id)))
  {
    InsertWithinEffect(cards, active, 0);
    SplicedFront(cards, active, active.listId);
    InsertLogWithin(cards, active, 0);
  }

  /** Inserting at the top puts the dragged card ahead of the cards the list
      keeps, in their order. */
  lemma SplicedFront(cards: seq<Card>, active: Card, t: Id)
    ensures var kept := Filter(CardsForList(cards, t), NotId(active.id));
      Spliced(cards, active, t, 0) == Renumber([Placed(active, t, 0)] + kept)
  {
    var s := Siblings(cards, active, t);
    SiblingsShown(cards, active, t);
    assert Take(s, 0) == [] && Drop(s, 0) == s;
    NilAppend([Placed(active, t, 0)]);
  }

  // ---------------------------------------------------------------------------
  // What every drop preserves

  /** Each list is either shown exactly as before or renumbered densely. */
  ghost predicate ListsTidy(before: seq<Card>, after: seq<Card>) {
    forall m :: CardsForList(after, m) == CardsForList(before, m) || Dense(CardsForList(after, m))
  }

  lemma {:induction false} UniqueBag(s: seq<Card>, x: Id)
    requires UniqueIds(s)
    ensures IdBag(s)[x] <= 1
    decreases |s|
  {
    if |s| > 0 {
      UniqueBag(s[1..], x);
      assert s == [s[0]] + s[1..];
      IdsConcat([s[0]], s[1..]);
      if s[0].id == x {
        assert x !in Ids(s[1..]);
      }
    }
  }

  lemma {:induction false} RepeatedBag(s: seq<Card>, i: nat, j: nat)
    requires i < j < |s| && s[i].id == s[j].id
    ensures IdBag(s)[s[i].id] >= 2
    decreases |s|
  {
    assert s == [s[0]] + s[1..];
    IdsConcat([s[0]], s[1..]);
    if i == 0 {
      assert Ids(s[1..])[j - 1] == s[i].id;
      assert s[i].id in multiset(Ids(s[1..]));
    } else {
      RepeatedBag(s[1..], i - 1, j - 1);
    }
  }

  /** Cards with the ids of a valid board still form a valid board. */
  lemma ValidByBag(cards: seq<Card>, after: seq<Card>, lists: seq<List>)
    requires ValidBoard(cards, lists) && IdBag(after) == IdBag(cards)
    ensures ValidBoard(after, lists)
  {
    forall i, j | 0 <= i < j < |after|
      ensures after[i].id != after[j].id
    {
      if after[i].id == after[j].id {
        RepeatedBag(after, i, j);
        UniqueBag(cards, after[i].id);
      }
    }
    forall i | 0 <= i < |after|
      ensures exists k :: 0 <= k < |cards| && cards[k].id == after[i].id
    {
      assert Ids(after)[i] in IdBag(cards);
      var k :| 0 <= k < |cards| && Ids(cards)[k] == after[i].id;
    }
  }

  lemma UnchangedTidy(cards: seq<Card>)
    ensures ListsTidy(cards, cards)
  {
  }

  /** A drop keeps every card, changes no content, and leaves each list either
      as it was or renumbered densely. */
  ghost predicate Preserved(before: seq<Card>, after: seq<Card>, a: Id) {
    KeepsCards(before, after, a) && ListsTidy(before, after)
  }

  lemma TidyFromParts(before: seq<Card>, after: seq<Card>, t: Id, s: Id)
    requires OthersUnchanged(before, after, t, s)
    requires Dense(CardsForList(after, t)) && Dense(CardsForList(after, s))
    ensures ListsTidy(before, after)
  {
  }

  lemma IgnoredPreserved(cards: seq<Card>, lists: seq<List>, activeId: Id, over: Option<Id>)
    requires ValidBoard(cards, lists)
    requires over.None? || FindCard(cards, activeId).None? || over == Some(activeId)
    ensures Preserved(cards, DragEnd(cards, lists, activeId, over).cards, activeId)
  {
    DropIgnored(cards, lists, activeId, over);
    AllRepositionedIn(cards, cards, activeId);
  }

  lemma OnListPreserved(cards: seq<Card>, lists: seq<List>, active: Card, l: List)
    requires ValidBoard(cards, lists) && active in cards && l in lists
    ensures Preserved(cards, DragEnd(cards, lists, active.id, Some(l.id)).cards, active.id)
  {
    DropOnListEffect(cards, lists, active, l);
    var r := DragEnd(cards, lists, active.id, Some(l.id));
    TidyFromParts(cards, r.cards, l.id, active.listId);
  }

  lemma OnSameListCardPreserved(cards: seq<Card>, lists: seq<List>, active: Card, over: Card)
    requires ValidBoard(cards, lists) && active in cards && over in cards
    requires over.listId == active.listId && over.id != active.id
    ensures Preserved(cards, DragEnd(cards, lists, active.id, Some(over.id)).cards, active.id)
  {
    DropOnSameListCardEffect(cards, lists, active, over);
    var r := DragEnd(cards, lists, active.id, Some(over.id));
    assert KeepsCards(cards, r.cards, active.id);
    TidyFromParts(cards, r.cards, active.listId, active.listId);
  }

  lemma OnOtherListCardPreserved(cards: seq<Card>, lists: seq<List>, active: Card, over: Card)
    requires ValidBoard(cards, lists) && active in cards && over in cards
    requires over.listId != active.listId
    ensures Preserved(cards, DragEnd(cards, lists, active.id, Some(over.id)).cards, active.id)
  {
    DropOnOtherListCardEffect(cards, lists, active, over);
    var r := DragEnd(cards, lists, active.id, Some(over.id));
    TidyFromParts(cards, r.cards, over.listId, active.listId);
  }

  lemma OnUnknownPreserved(cards: seq<Card>, lists: seq<List>, active: Card, overId: Id)
    requires ValidBoard(cards, lists) && active in cards
    requires FindList(lists, overId).None? && FindCard(cards, overId).None?
    ensures Preserved(cards, DragEnd(cards, lists, active.id, Some(overId)).cards, active.id)
  {
    DropOnUnknownEffect(cards, lists, active, overId);
    var r := DragEnd(cards, lists, active.id, Some(overId));
    TidyFromParts(cards, r.cards, active.listId, active.listId);
  }

  /** Whatever is dropped where, on a valid board: no card is lost or
      duplicated, no card changes content, only the dragged card may change
      list, every list is either shown as before or renumbered densely, and
      the board stays valid. */
  lemma DropPreservesBoard(cards: seq<Card>, lists: seq<List>, activeId: Id, over: Option<Id>)
    requires ValidBoard(cards, lists)
    ensures Preserved(cards, DragEnd(cards, lists, activeId, over).cards, activeId)
    ensures ValidBoard(DragEnd(cards, lists, activeId, over).cards, lists)
  {
    if over.None? || FindCard(cards, activeId).None? || over == Some(activeId) {
      IgnoredPreserved(cards, lists, activeId, over);
    } else {
      var active := FindCard(cards, activeId).value;
      var overId := over.value;
      if FindList(lists, overId).Some? {
        OnListPreserved(cards, lists, active, FindList(lists, overId).value);
      } else if FindCard(cards, overId).Some? {
        var o := FindCard(cards, overId).value;
        if o.listId == active.listId {
          OnSameListCardPreserved(cards, lists, active, o);
        } else {
          OnOtherListCardPreserved(cards, lists, active, o);
        }
      } else {
        OnUnknownPreserved(cards, lists, active, overId);
      }
    }
    ValidByBag(cards, DragEnd(cards, lists, activeId, over).cards, lists);
  }
  /** The three cards of a list numbered 0, 1, 2, in that order, on a valid board. */
  predicate ThreeInList(cards: seq<Card>, lists: seq<List>) {
    && ValidBoard(cards, lists) && |cards| == 3
    && cards[0].listId == cards[1].listId == cards[2].listId
    && cards[0].position == 0 && cards[1].position == 1 && cards[2].position == 2
  }

  /** The list shows the three cards as they are, and `findIndex` finds the
      first at 0 and the third at 2. */
  lemma ThreeShown(cards: seq<Card>, lists: seq<List>)
    requires ThreeInList(cards, lists)
    ensures CardsForList(cards, cards[0].listId) == cards
    ensures IndexOfId(cards, cards[0].id) == 0 && IndexOfId(cards, cards[2].id) == 2
  {
    ThreeDisplayed(cards, cards[0].listId);
    ThreeIndices(cards);
  }

  lemma ThreeDisplayed(cards: seq<Card>, l: Id)
    requires |cards| == 3 && cards[0].listId == l && cards[1].listId == l && cards[2].listId == l
    requires cards[0].position == 0 && cards[1].position == 1 && cards[2].position == 2
    ensures CardsForList(cards, l) == cards
  {
    forall i, j | 0 <= i < j < |cards|
      ensures cards[i].position <= cards[j].position
    {
    }
    ShownAsTheyAre(cards, l);
  }

  /** A list whose cards already come in position order shows them as they are. */
  lemma ShownAsTheyAre(cards: seq<Card>, l: Id)
    requires forall i :: 0 <= i < |cards| ==> cards[i].listId == l
    requires SortedByPosition(cards)
    ensures CardsForList(cards, l) == cards
  {
    FilterAll(cards, InList(l));
    SortKeepsSorted(cards);
  }

  lemma ThreeIndices(cards: seq<Card>)
    requires |cards| == 3 && UniqueIds(cards)
    ensures IndexOfId(cards, cards[0].id) == 0 && IndexOfId(cards, cards[2].id) == 2
  {
    var k := IndexOfId(cards, cards[2].id);
    assert cards[0].id != cards[2].id && cards[1].id != cards[2].id;
    assert k != -1;
  }

  /** Dropping the first card on the third takes the reorder branch, moving
      index 0 to index 2. */
  lemma ThreeTakesReorder(cards: seq<Card>, lists: seq<List>)
    requires ThreeInList(cards, lists)
    ensures DragEnd(cards, lists, cards[0].id, Some(cards[2].id))
      == Reorder(cards, cards[0].listId, cards, 0, 2)
  {
    ThreeShown(cards, lists);
    DropOnSameListCard(cards, lists, cards[0], cards[2]);
  }

  /** `arrayMove([A, B, C], 0, 2)` is `[B, C, A]`. */
  lemma MoveFirstToLast<T>(s: seq<T>)
    requires |s| == 3
    ensures ArrayMove(s, 0, 2) == [s[1], s[2], s[0]]
  {
    var moved := ArrayMove(s, 0, 2);
    assert moved[..2] + moved[3..] == s[1..];
    assert moved == moved[..2] + [moved[2]] + moved[3..];
  }

  /** Renumbering three cards numbers them 0, 1, 2 and writes those positions. */
  lemma RenumberThree(a: Card, b: Card, c: Card)
    ensures Renumber([a, b, c]) == [a.(position := 0), b.(position := 1), c.(position := 2)]
    ensures PositionUpdates(Renumber([a, b, c])) == [SetPosition(a.id, 0), SetPosition(b.id, 1), SetPosition(c.id, 2)]
  {
    var shown := Renumber([a, b, c]);
    assert shown == [a.(position := 0), b.(position := 1), c.(position := 2)];
  }

  /** The worked example of the reorder branch: with A, B, C at positions
      0, 1, 2 of one list (and no other card), dropping A on C shows B, C, A
      at positions 0, 1, 2 and writes those three positions in that order. */
  lemma ReorderExample(cards: seq<Card>, lists: seq<List>)
    requires ThreeInList(cards, lists)
    ensures
      var r := DragEnd(cards, lists, cards[0].id, Some(cards[2].id));
      && r.cards == [cards[1].(position := 0), cards[2].(position := 1), cards[0].(position := 2)]
      && r.log == [SetPosition(cards[1].id, 0), SetPosition(cards[2].id, 1), SetPosition(cards[0].id, 2)]
  {
    var l := cards[0].listId;
    ThreeTakesReorder(cards, lists);
    ThreeOneList(cards, lists);
    ReorderWholeBoard(cards, l, 0, 2);
    MoveFirstToLast(cards);
    var moved := Renumber(ArrayMove(cards, 0, 2));
    RenumberThree(cards[1], cards[2], cards[0]);
    assert moved == Renumber([cards[1], cards[2], cards[0]]);
  }

  lemma ThreeOneList(cards: seq<Card>, lists: seq<List>)
    requires ThreeInList(cards, lists)
    ensures forall i :: 0 <= i < |cards| ==> cards[i].listId == cards[0].listId
  {
    forall i | 0 <= i < |cards|
      ensures cards[i].listId == cards[0].listId
    {
      if i == 1 {
      } else if i == 2 {
      }
    }
  }

  /** On a board of one list, the reorder branch leaves only the moved list. */
  lemma ReorderWholeBoard(cards: seq<Card>, l: Id, from: int, to: int)
    requires 0 <= from < |cards|
    requires forall i :: 0 <= i < |cards| ==> cards[i].listId == l
    ensures var moved := Renumber(ArrayMove(cards, from, to));
      Reorder(cards, l, cards, from, to) == DropOutcome(moved, PositionUpdates(moved))
  {
    FilterNone(cards, NotInList(l));
    NilAppend(Renumber(ArrayMove(cards, from, to)));
  }

  // ---------------------------------------------------------------------------
  // A worked example of the insertion branch

  /** Cards A and B at positions 0 and 1 of one list, and X at position 0 of
      another, with no other card. */
  predicate TwoAndOne(cards: seq<Card>, lists: seq<List>) {
    && ValidBoard(cards, lists) && |cards| == 3
    && cards[0].listId == cards[1].listId && cards[2].listId != cards[0].listId
    && cards[0].position == 0 && cards[1].position == 1 && cards[2].position == 0
  }

  /** The worked example of a drop into another list: with A, B in one list and
      X in another, dropping A on X shows A, X at positions 0, 1 in X's list and
      B alone at position 0 in the old list, and writes A's move, then X's new
      position, then B's. */
  lemma InsertExample(cards: seq<Card>, lists: seq<List>)
    requires TwoAndOne(cards, lists)
    ensures
      var a, b, x := cards[0], cards[1], cards[2];
      var r := DragEnd(cards, lists, a.id, Some(x.id));
      && CardsForList(r.cards, x.listId) == [a.(listId := x.listId, position := 0), x.(position := 1)]
      && CardsForList(r.cards, a.listId) == [b.(position := 0)]
      && r.log == [MoveToList(a.id, x.listId, 0), SetPosition(x.id, 1), SetPosition(b.id, 0)]
  {
    ExampleShows(cards, lists);
    ExampleLog(cards, lists);
  }

  lemma ExampleShows(cards: seq<Card>, lists: seq<List>)
    requires TwoAndOne(cards, lists)
    ensures
      var a, b, x := cards[0], cards[1], cards[2];
      var r := DragEnd(cards, lists, a.id, Some(x.id));
      && CardsForList(r.cards, x.listId) == [a.(listId := x.listId, position := 0), x.(position := 1)]
      && CardsForList(r.cards, a.listId) == [b.(position := 0)]
  {
    var a, b, x := cards[0], cards[1], cards[2];
    TwoAndOneShown(cards, lists);
    FirstOfOne(x);
    DropOnOtherListCardEffect(cards, lists, a, x);
    SpliceInFront(a.(listId := x.listId, position := 0), x);
    OtherLeft(a, b);
  }

  lemma ExampleLog(cards: seq<Card>, lists: seq<List>)
    requires TwoAndOne(cards, lists)
    ensures
      var a, b, x := cards[0], cards[1], cards[2];
      var r := DragEnd(cards, lists, a.id, Some(x.id));
      r.log == [MoveToList(a.id, x.listId, 0), SetPosition(x.id, 1), SetPosition(b.id, 0)]
  {
    var a, b, x := cards[0], cards[1], cards[2];
    var r := DragEnd(cards, lists, a.id, Some(x.id));
    var placed, x1, b0 := a.(listId := x.listId, position := 0), x.(position := 1), b.(position := 0);
    TwoAndOneShown(cards, lists);
    FirstOfOne(x);
    ExampleShows(cards, lists);
    DropOnOtherListCardLog(cards, lists, a, x);
    DropFirst(placed, x1);
    OneUpdate(x1);
    OneUpdate(b0);
    assert r.log == [MoveToList(a.id, x.listId, 0)] + [SetPosition(x.id, 1)] + [SetPosition(b.id, 0)];
    ThreeWrites(MoveToList(a.id, x.listId, 0), SetPosition(x.id, 1), SetPosition(b.id, 0));
  }

  lemma ThreeWrites(m: CardUpdate, u: CardUpdate, v: CardUpdate)
    ensures [m] + [u] + [v] == [m, u, v]
  {
  }

  lemma FirstOfOne(x: Card)
    ensures IndexOfId([x], x.id) == 0
  {
  }

  /** Splicing a card in front of a one-card list and renumbering. */
  lemma SpliceInFront(placed: Card, x: Card)
    requires placed.position == 0
    ensures Renumber(Take([x], 0) + [placed] + Drop([x], 0)) == [placed, x.(position := 1)]
  {
    assert Take([x], 0) + [placed] + Drop([x], 0) == [placed, x];
  }

  /** Taking the first of two cards out leaves the second, numbered 0. */
  lemma OtherLeft(a: Card, b: Card)
    requires a.id != b.id
    ensures Renumber(Filter([a, b], NotId(a.id))) == [b.(position := 0)]
  {
    DropFirst(a, b);
  }

  lemma DropFirst(a: Card, b: Card)
    requires a.id != b.id
    ensures Filter([a, b], NotId(a.id)) == [b]
  {
    assert [a, b][1..] == [b];
    assert Filter([b], NotId(a.id)) == [b] by {
      assert [b][1..] == [];
    }
  }

  lemma OneUpdate(c: Card)
    ensures PositionUpdates([c]) == [SetPosition(c.id, c.position)]
  {
  }

  /** In the example, X's list shows X alone and the other shows A, B. */
  lemma TwoAndOneShown(cards: seq<Card>, lists: seq<List>)
    requires TwoAndOne(cards, lists)
    ensures CardsForList(cards, cards[2].listId) == [cards[2]]
    ensures CardsForList(cards, cards[0].listId) == [cards[0], cards[1]]
  {
    var a, b, x := cards[0], cards[1], cards[2];
    assert cards == [a, b] + [x];
    ShownSingle([a, b], [x], x.listId);
    ShownPair([a, b], [x], a.listId);
  }

  lemma ShownSingle(pair: seq<Card>, single: seq<Card>, l: Id)
    requires |pair| == 2 && |single| == 1 && single[0].listId == l
    requires pair[0].listId != l && pair[1].listId != l
    ensures CardsForList(pair + single, l) == single
  {
    var f := Filter(pair + single, InList(l));
    assert f == single by {
      ShownInPart(single, pair, l);
    }
    SortKeepsSorted(single);
  }

  lemma ShownPair(pair: seq<Card>, single: seq<Card>, l: Id)
    requires |pair| == 2 && |single| == 1 && single[0].listId != l
    requires pair[0].listId == l && pair[1].listId == l
    requires pair[0].position <= pair[1].position
    ensures CardsForList(pair + single, l) == pair
  {
    var f := Filter(pair + single, InList(l));
    assert f == pair by {
      ShownInPart(pair, single, l);
    }
    SortKeepsSorted(pair);
  }

  /** When every card of `s` and none of `t` belongs to `l`, the cards of `l`
      in `t + s` and in `s + t` are exactly `s`. */
  lemma ShownInPart(s: seq<Card>, t: seq<Card>, l: Id)
    requires forall i :: 0 <= i < |s| ==> s[i].listId == l
    requires forall i :: 0 <= i < |t| ==> t[i].listId != l
    ensures Filter(t + s, InList(l)) == s && Filter(s + t, InList(l)) == s
  {
    FilterConcat(t, s, InList(l));
    FilterConcat(s, t, InList(l));
    FilterAll(s, InList(l));
    FilterNone(t, InList(l));
    NilAppend(s);
    AppendNil(s);
  }
}
