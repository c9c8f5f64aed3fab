/** How the hover move of `handleDragOver` (src/pages/Board.tsx:204-231)
    interacts with the drop handled by `handleDragEnd` (lines 233-353), and
    what reaches the store.

    dnd-kit calls `onDragOver` while the card is dragged and `onDragEnd` when
    it is released; the latter reads the card array the former already
    changed. Once a hover has put the dragged card into the target list, a
    drop on a card of that list takes the same-list branch, which writes
    positions only: the card's new list is shown but never stored. The
    corrected handler decides on the array as it was when the drag started,
    using the card `handleDragStart` saved (lines 195-201). */
module Hover {
  import opened Records
  import opened Seqs
  import opened CardOrder
  import opened Drag
  import opened DragProofs
  import opened DropCases

  // ---------------------------------------------------------------------------
  // The store

  /** One update applied to one stored row: rows with another id are untouched. */
  function ApplyUpdate(c: Card, u: CardUpdate): (r: Card)
    ensures SameContent(c, r)
    ensures u.cardId != c.id ==> r == c
    ensures u.cardId == c.id ==> r.position == u.position
    ensures r.listId == if u.cardId == c.id && u.MoveToList? then u.listId else c.listId
  {
    if u.cardId != c.id then c
    else
      match u
      case SetPosition(_, p) => c.(position := p)
      case MoveToList(_, l, p) => c.(listId := l, position := p)
  }

  /** The updates applied in issue order to one stored row. */
  function ApplyLog(c: Card, log: seq<CardUpdate>): Card
    decreases |log|
  {
    if |log| == 0 then c else ApplyLog(ApplyUpdate(c, log[0]), log[1..])
  }

  /** The stored rows after the updates of a drop have been written. */
  function Persist(store: seq<Card>, log: seq<CardUpdate>): (r: seq<Card>)
    ensures |r| == |store|
    ensures forall i :: 0 <= i < |store| ==> r[i] == ApplyLog(store[i], log)
  {
    seq(|store|, i requires 0 <= i < |store| => ApplyLog(store[i], log))
  }

  /** A log of position writes leaves every row in its list. */
  lemma {:induction false} PositionsKeepList(c: Card, log: seq<CardUpdate>)
    requires forall k :: 0 <= k < |log| ==> log[k].SetPosition?
    ensures ApplyLog(c, log).listId == c.listId
    decreases |log|
  {
    if |log| > 0 {
      PositionsKeepList(ApplyUpdate(c, log[0]), log[1..]);
    }
  }

  /** After a log that first moves a row and then only writes positions, the
      row is in the list it was moved to. */
  lemma MovedFirst(c: Card, log: seq<CardUpdate>, l: Id, p: int)
    requires |log| > 0 && log[0] == MoveToList(c.id, l, p)
    requires forall k :: 1 <= k < |log| ==> log[k].SetPosition?
    ensures ApplyLog(c, log).listId == l
  {
    PositionsKeepList(ApplyUpdate(c, log[0]), log[1..]);
  }

  /** The list of the card or row with id `a`, if there is one. */
  function ListOf(store: seq<Card>, a: Id): Option<Id> {
    match FindCard(store, a)
    case Some(c) => Some(c.listId)
    case None => None
  }

  lemma ListOfAfterLog(store: seq<Card>, log: seq<CardUpdate>, c: Card)
    requires UniqueIds(store) && c in store
    ensures UniqueIds(Persist(store, log))
    ensures ListOf(Persist(store, log), c.id) == Some(ApplyLog(c, log).listId)
  {
    var k :| 0 <= k < |store| && store[k] == c;
    var r := Persist(store, log);
    forall i | 0 <= i < |store|
      ensures r[i].id == store[i].id
    {
      SameIdAfterLog(store[i], log);
    }
    FindUnique(r, r[k]);
  }

  lemma {:induction false} SameIdAfterLog(c: Card, log: seq<CardUpdate>)
    ensures ApplyLog(c, log).id == c.id
    decreases |log|
  {
    if |log| > 0 {
      SameIdAfterLog(ApplyUpdate(c, log[0]), log[1..]);
    }
  }

  /** Every write of the same-list branch is a position write. */
  lemma ReorderWritesPositions(cards: seq<Card>, l: Id, listCards: seq<Card>, from: int, to: int)
    requires 0 <= from < |listCards|
    ensures forall k :: 0 <= k < |Reorder(cards, l, listCards, from, to).log| ==>
      Reorder(cards, l, listCards, from, to).log[k].SetPosition?
  {
  }

  // ---------------------------------------------------------------------------
  // The hover move

  /** The array with the dragged card put back into the list it started in. */
  function Restore(cards: seq<Card>, started: Card): (r: seq<Card>)
    ensures |r| == |cards|
  {
    MoveToOtherList(cards, started.id, started.listId)
  }

  /** The hover changes at most the dragged card, and only its list. */
  lemma HoverOnlyActive(cards: seq<Card>, lists: seq<List>, active: Card, overId: Id)
    requires UniqueIds(cards) && active in cards
    ensures var r := DragOver(cards, lists, active.id, Some(overId));
      forall i :: 0 <= i < |cards| ==> r[i] == cards[i] || (cards[i] == active && r[i] == active.(listId := r[i].listId))
  {
    OnlyActive(cards, active);
  }

  /** Undoing the hover from the drag-start card gives back the array. */
  lemma HoverRestored(cards: seq<Card>, lists: seq<List>, active: Card, overId: Id)
    requires UniqueIds(cards) && active in cards
    ensures Restore(DragOver(cards, lists, active.id, Some(overId)), active) == cards
  {
    var r := DragOver(cards, lists, active.id, Some(overId));
    HoverOnlyActive(cards, lists, active, overId);
    OnlyActive(cards, active);
    MoveBack(cards, r, active);
  }

  /** Moving the dragged card back into its list undoes any change of its list
      alone. */
  lemma MoveBack(cards: seq<Card>, r: seq<Card>, active: Card)
    requires |r| == |cards|
    requires forall i :: 0 <= i < |cards| && cards[i].id == active.id ==> cards[i] == active
    requires forall i :: 0 <= i < |cards| ==> r[i] == cards[i] || (cards[i] == active && r[i] == active.(listId := r[i].listId))
    ensures MoveToOtherList(r, active.id, active.listId) == cards
  {
    var back := MoveToOtherList(r, active.id, active.listId);
    forall i | 0 <= i < |cards|
      ensures back[i] == cards[i]
    {
    }
  }

  lemma HoverValid(cards: seq<Card>, lists: seq<List>, active: Card, overId: Id)
    requires ValidBoard(cards, lists) && active in cards
    ensures ValidBoard(DragOver(cards, lists, active.id, Some(overId)), lists)
  {
    var r := DragOver(cards, lists, active.id, Some(overId));
    assert forall i :: 0 <= i < |r| ==> r[i].id == cards[i].id;
  }

  lemma HoverMoves(cards: seq<Card>, lists: seq<List>, active: Card, overId: Id)
    requires UniqueIds(cards) && active in cards
    ensures
      var r := DragOver(cards, lists, active.id, Some(overId));
      var t := HoverTarget(cards, lists, overId);
      if t.Some? && t.value != "" && t.value != active.listId
      then active.(listId := t.value) in r && active !in r
      else r == cards
  {
    var r := DragOver(cards, lists, active.id, Some(overId));
    var t := HoverTarget(cards, lists, overId);
    FindUnique(cards, active);
    if t.Some? && t.value != "" && t.value != active.listId {
      var k :| 0 <= k < |cards| && cards[k] == active;
      assert r[k] == active.(listId := t.value);
      HoverOnlyActive(cards, lists, active, overId);
      forall i | 0 <= i < |r|
        ensures r[i] != active
      {
      }
    }
  }

  /** Hovering over a list, or a card of a list, other than the dragged card's
      own (on a valid board) moves exactly that card into that list and
      changes nothing else; the board stays valid, and undoing the move from
      the drag-start card gives back the array. */
  lemma HoverEffect(cards: seq<Card>, lists: seq<List>, active: Card, overId: Id)
    requires ValidBoard(cards, lists) && active in cards
    ensures
      var r := DragOver(cards, lists, active.id, Some(overId));
      var t := HoverTarget(cards, lists, overId);
      && (if t.Some? && t.value != "" && t.value != active.listId
          then active.(listId := t.value) in r && active !in r
          else r == cards)
      && (forall i :: 0 <= i < |cards| ==> r[i] == cards[i] || (cards[i] == active && r[i] == active.(listId := r[i].listId)))
      && ValidBoard(r, lists)
      && Restore(r, active) == cards
  {
    HoverMoves(cards, lists, active, overId);
    HoverOnlyActive(cards, lists, active, overId);
    HoverValid(cards, lists, active, overId);
    HoverRestored(cards, lists, active, overId);
  }

  // ---------------------------------------------------------------------------
  // Hover, then drop: the code as written

  /** As written: after the hover has moved the card into another list, a drop
      on a card of that list shows the card there but writes positions only,
      so the store keeps the card in the list it came from. */
  lemma HoverThenDropLosesMove(cards: seq<Card>, lists: seq<List>, active: Card, over: Card)
    requires ValidBoard(cards, lists) && active in cards && over in cards
    requires over.listId != active.listId && over.listId != ""
    ensures
      var hovered := DragOver(cards, lists, active.id, Some(over.id));
      var r := DragEnd(hovered, lists, active.id, Some(over.id));
      && ListOf(r.cards, active.id) == Some(over.listId)
      && (forall k :: 0 <= k < |r.log| ==> r.log[k].SetPosition?)
      && ListOf(Persist(cards, r.log), active.id) == Some(active.listId)
  {
    var t := over.listId;
    var hovered := DragOver(cards, lists, active.id, Some(over.id));
    var moved := active.(listId := t);
    FindUnique(cards, over);
    NotAList(cards, lists, over);
    HoverEffect(cards, lists, active, over.id);
    assert over in hovered by {
      var j :| 0 <= j < |cards| && cards[j] == over;
      assert hovered[j] == over;
    }
    DropOnSameListCard(hovered, lists, moved, over);
    var listCards := CardsForList(hovered, t);
    var from := IndexOfId(listCards, moved.id);
    var to := IndexOfId(listCards, over.id);
    var r := DragEnd(hovered, lists, active.id, Some(over.id));
    ReorderWritesPositions(hovered, t, listCards, from, to);
    ReorderEffect(hovered, t, from, to);
    HoverThenDropShown(hovered, lists, moved, over);
    ListOfAfterLog(cards, r.log, active);
    PositionsKeepList(active, r.log);
  }

  /** The smallest board that shows it: card `a` (list `s`, position 0) is
      hovered over card `x` (list `t`, position 0) and dropped on it. The
      board shows `a` in list `t`; the store still has it in list `s`. */
  lemma HoverThenDropExample()
    ensures
      var a := Card("a", "s", "A", None, 0, "");
      var b := Card("b", "s", "B", None, 1, "");
      var x := Card("x", "t", "X", None, 0, "");
      var cards := [a, b, x];
      var lists := [List("s", "board", "S", 0, ""), List("t", "board", "T", 1, "")];
      var r := DragEnd(DragOver(cards, lists, "a", Some("x")), lists, "a", Some("x"));
      && ListOf(r.cards, "a") == Some("t")
      && ListOf(Persist(cards, r.log), "a") == Some("s")
  {
    var a := Card("a", "s", "A", None, 0, "");
    var b := Card("b", "s", "B", None, 1, "");
    var x := Card("x", "t", "X", None, 0, "");
    var cards := [a, b, x];
    var lists := [List("s", "board", "S", 0, ""), List("t", "board", "T", 1, "")];
    assert cards[0] == a && cards[2] == x;
    HoverThenDropLosesMove(cards, lists, a, x);
  }

  /** The dragged card, hovered into the list of `over`, is shown there after
      the drop on `over`. */
  lemma HoverThenDropShown(hovered: seq<Card>, lists: seq<List>, moved: Card, over: Card)
    requires ValidBoard(hovered, lists) && moved in hovered && over in hovered
    requires over.listId == moved.listId && over.id != moved.id
    ensures ListOf(DragEnd(hovered, lists, moved.id, Some(over.id)).cards, moved.id) == Some(moved.listId)
  {
    var t := moved.listId;
    DropPreservesBoard(hovered, lists, moved.id, Some(over.id));
    DropOnSameListCardEffect(hovered, lists, moved, over);
    var r := DragEnd(hovered, lists, moved.id, Some(over.id));
    var shown := CardsForList(r.cards, t);
    var at := IndexOfId(CardsForList(hovered, t), over.id);
    assert shown[at].id == moved.id && shown[at].listId == t;
    FindUnique(r.cards, shown[at]);
  }

  // ---------------------------------------------------------------------------
  // Without a hover, and with the correction

  lemma ShownListOf(after: seq<Card>, l: Id, at: int, id: Id)
    requires UniqueIds(after) && ShowsAt(after, l, at, id)
    ensures ListOf(after, id) == Some(l)
  {
    var c := CardsForList(after, l)[at];
    FindUnique(after, c);
  }

  lemma EmptyLogKeeps(store: seq<Card>)
    ensures Persist(store, []) == store
  {
  }

  /** After an insertion, the store holds the dragged card in the target list. */
  lemma InsertStoresList(cards: seq<Card>, active: Card, t: Id, at: int)
    requires UniqueIds(cards) && active in cards
    ensures ListOf(Persist(cards, Insert(cards, cards, active, t, at).log), active.id) == Some(t)
  {
    var log := Insert(cards, cards, active, t, at).log;
    InsertLogHead(cards, cards, active, t, at);
    MovedFirst(active, log, t, at);
    ListOfAfterLog(cards, log, active);
  }

  lemma AgreeOnList(cards: seq<Card>, lists: seq<List>, active: Card, l: List)
    requires ValidBoard(cards, lists) && active in cards && l in lists
    ensures var r := DragEnd(cards, lists, active.id, Some(l.id));
      ListOf(Persist(cards, r.log), active.id) == ListOf(r.cards, active.id) == Some(l.id)
  {
    var r := DragEnd(cards, lists, active.id, Some(l.id));
    DropOnList(cards, lists, active, l);
    InsertStoresList(cards, active, l.id, |Siblings(cards, active, l.id)|);
    DropOnListEffect(cards, lists, active, l);
    DropPreservesBoard(cards, lists, active.id, Some(l.id));
    ShownListOf(r.cards, l.id, |CardsForList(r.cards, l.id)| - 1, active.id);
  }

  lemma AgreeOnOtherListCard(cards: seq<Card>, lists: seq<List>, active: Card, over: Card)
    requires ValidBoard(cards, lists) && active in cards && over in cards
    requires over.listId != active.listId
    ensures var r := DragEnd(cards, lists, active.id, Some(over.id));
      ListOf(Persist(cards, r.log), active.id) == ListOf(r.cards, active.id) == Some(over.listId)
  {
    var r := DragEnd(cards, lists, active.id, Some(over.id));
    var at := IndexOfId(CardsForList(cards, over.listId), over.id);
    DropOnOtherListCard(cards, lists, active, over);
    InsertStoresList(cards, active, over.listId, at);
    DropOnOtherListCardEffect(cards, lists, active, over);
    DropPreservesBoard(cards, lists, active.id, Some(over.id));
    ShownListOf(r.cards, over.listId, at, active.id);
  }

  lemma AgreeOnSameListCard(cards: seq<Card>, lists: seq<List>, active: Card, over: Card)
    requires ValidBoard(cards, lists) && active in cards && over in cards
    requires over.listId == active.listId && over.id != active.id
    ensures var r := DragEnd(cards, lists, active.id, Some(over.id));
      ListOf(Persist(cards, r.log), active.id) == ListOf(r.cards, active.id) == Some(active.listId)
  {
    var r := DragEnd(cards, lists, active.id, Some(over.id));
    var listCards := CardsForList(cards, active.listId);
    DropOnSameListCard(cards, lists, active, over);
    ReorderWritesPositions(cards, active.listId, listCards, IndexOfId(listCards, active.id), IndexOfId(listCards, over.id));
    PositionsKeepList(active, r.log);
    ListOfAfterLog(cards, r.log, active);
    DropOnSameListCardEffect(cards, lists, active, over);
    DropPreservesBoard(cards, lists, active.id, Some(over.id));
    ShownListOf(r.cards, active.listId, IndexOfId(listCards, over.id), active.id);
  }

  lemma AgreeOnUnknown(cards: seq<Card>, lists: seq<List>, active: Card, overId: Id)
    requires ValidBoard(cards, lists) && active in cards
    requires FindList(lists, overId).None? && FindCard(cards, overId).None?
    ensures var r := DragEnd(cards, lists, active.id, Some(overId));
      ListOf(Persist(cards, r.log), active.id) == ListOf(r.cards, active.id) == Some(active.listId)
  {
    var r := DragEnd(cards, lists, active.id, Some(overId));
    DropOnUnknown(cards, lists, active, overId);
    InsertStoresList(cards, active, active.listId, 0);
    DropOnUnknownEffect(cards, lists, active, overId);
    DropPreservesBoard(cards, lists, active.id, Some(overId));
    ShownListOf(r.cards, active.listId, 0, active.id);
  }

  /** Dropping on the array the store holds (no hover in between), the store
      ends up with the dragged card in the list the board shows it in. */
  lemma DropStoresShownList(cards: seq<Card>, lists: seq<List>, activeId: Id, over: Option<Id>)
    requires ValidBoard(cards, lists)
    ensures var r := DragEnd(cards, lists, activeId, over);
      ListOf(Persist(cards, r.log), activeId) == ListOf(r.cards, activeId)
  {
    if over.None? || FindCard(cards, activeId).None? || over == Some(activeId) {
      DropIgnored(cards, lists, activeId, over);
      EmptyLogKeeps(cards);
    } else {
      var active := FindCard(cards, activeId).value;
      var overId := over.value;
      if FindList(lists, overId).Some? {
        AgreeOnList(cards, lists, active, FindList(lists, overId).value);
      } else if FindCard(cards, overId).Some? {
        var o := FindCard(cards, overId).value;
        if o.listId == active.listId {
          AgreeOnSameListCard(cards, lists, active, o);
        } else {
          AgreeOnOtherListCard(cards, lists, active, o);
        }
      } else {
        AgreeOnUnknown(cards, lists, active, overId);
      }
    }
  }

  /** The corrected `handleDragEnd`: it decides on the array with the dragged
      card put back where `handleDragStart` found it, so that the hover move
      shown during the drag does not change the outcome. Without a saved card
      (or for another card) it is the handler as written. */
  function DragEndFromStart(cards: seq<Card>, lists: seq<List>, started: Option<Card>, activeId: Id, over: Option<Id>): (r: DropOutcome)
    ensures over.None? ==> r.log == []
    ensures forall k :: 0 <= k < |r.log| && r.log[k].MoveToList? ==> r.log[k].cardId == activeId
  {
    match started
    case Some(c) =>
      if c.id == activeId then DragEnd(Restore(cards, c), lists, activeId, over)
      else DragEnd(cards, lists, activeId, over)
    case None => DragEnd(cards, lists, activeId, over)
  }

  /** With the correction, whatever the card hovered over before it was dropped,
      the drop does what it does without a hover, and the store ends up with
      the dragged card in the list the board shows it in. */
  lemma FixedDropStoresShownList(cards: seq<Card>, lists: seq<List>, active: Card, hoverOver: Id, over: Option<Id>)
    requires ValidBoard(cards, lists) && active in cards
    ensures
      var hovered := DragOver(cards, lists, active.id, Some(hoverOver));
      var r := DragEndFromStart(hovered, lists, Some(active), active.id, over);
      && r == DragEnd(cards, lists, active.id, over)
      && ListOf(Persist(cards, r.log), active.id) == ListOf(r.cards, active.id)
  {
    HoverRestored(cards, lists, active, hoverOver);
    DropStoresShownList(cards, lists, active.id, over);
  }
}
