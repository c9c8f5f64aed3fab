/** The board page's state and the handlers that edit it (src/pages/Board.tsx):
    the title, list and card operations and the drag handlers wired to the
    drag-and-drop context. Each remote call becomes a `Request` the handler
    issues plus the reply it is given; the page state after the handler is the
    result. */
module BoardOps {
  import opened Records
  import opened Seqs
  import opened Text
  import opened CardOrder
  import opened Drag
  import opened DragProofs
  import opened DropCases
  import opened Hover

  /** The React state of the board page. `titleDraft` is the title input's value. */
  datatype Page = Page(
    board: Option<Board>,
    lists: seq<List>,
    cards: seq<Card>,
    activeCard: Option<Card>,
    selectedCard: Option<Card>,
    editingTitle: bool,
    titleDraft: string)

  /** A field of a JavaScript update object: left out, present with the value
      `undefined`, `null`, or a string. */
  datatype Field = Absent | Undefined | Null | Value(text: string)

  /** The `updates` object of `handleUpdateCard`: `{ title?, description? }`. */
  datatype CardPatch = CardPatch(title: Option<string>, description: Field)

  /** A write sent to the store. */
  datatype Request =
    | UpdateBoardTitle(boardId: Id, title: string)
    | InsertList(boardId: Id, title: string, position: int)
    | UpdateListTitle(listId: Id, title: string)
    | DeleteListRow(listId: Id)
    | InsertCard(listId: Id, title: string, position: int)
    | UpdateCardRow(cardId: Id, patch: CardPatch)
    | DeleteCardRow(cardId: Id)

  datatype Step = Step(page: Page, requests: seq<Request>)

  /** A key press in a text field, with the state of the Shift key. */
  datatype Key = Key(name: string, shift: bool)

  // ---------------------------------------------------------------------------
  // The board title (lines 106-112 and 373-396)

  /** `handleBoardTitleSave`: the trimmed draft is written when it is not blank,
      the untrimmed draft differs from the current title and a board is loaded;
      the input closes in every case. */
  function SaveBoardTitle(p: Page): (r: Step)
    ensures r.page == p.(board := r.page.board, editingTitle := false)
    ensures |r.requests| <= 1
    ensures |r.requests| == 1 <==>
      p.board.Some? && Trim(p.titleDraft) != "" && p.titleDraft != p.board.value.title
    ensures |r.requests| == 1 ==>
      && r.requests[0] == UpdateBoardTitle(p.board.value.id, Trim(p.titleDraft))
      && r.page.board == Some(p.board.value.(title := Trim(p.titleDraft)))
    ensures |r.requests| == 0 ==> r.page.board == p.board
  {
    if Trim(p.titleDraft) != "" && p.board.Some? && p.titleDraft != p.board.value.title then
      var b := p.board.value;
      Step(p.(board := Some(b.(title := Trim(p.titleDraft))), editingTitle := false),
        [UpdateBoardTitle(b.id, Trim(p.titleDraft))])
    else Step(p.(editingTitle := false), [])
  }

  /** Saving again with the same draft leaves the board as the first save left
      it (it may send the same title once more when the draft had surrounding
      white space). */
  lemma SaveBoardTitleStable(p: Page)
    ensures var once := SaveBoardTitle(p).page;
      SaveBoardTitle(once).page == once
  {
    var once := SaveBoardTitle(p).page;
    if p.board.Some? && Trim(p.titleDraft) != "" && p.titleDraft != p.board.value.title {
      TrimIdempotent(p.titleDraft);
    }
  }

  /** The title input's key handler: Enter saves; Escape resets the draft to the
      board's title and closes the input; other keys change nothing. The input
      only exists while a board is loaded. */
  function BoardTitleKey(p: Page, key: Key): (r: Step)
    requires p.board.Some?
    ensures key.name == "Enter" ==> r == SaveBoardTitle(p)
    ensures key.name == "Escape" ==>
      r == Step(p.(titleDraft := p.board.value.title, editingTitle := false), [])
    ensures key.name != "Enter" && key.name != "Escape" ==> r == Step(p, [])
  {
    if key.name == "Enter" then SaveBoardTitle(p)
    else if key.name == "Escape" then Step(p.(titleDraft := p.board.value.title, editingTitle := false), [])
    else Step(p, [])
  }

  /** After Escape a save (the input losing focus) writes nothing. */
  lemma EscapeThenSaveWritesNothing(p: Page, key: Key)
    requires p.board.Some? && key.name == "Escape"
    ensures SaveBoardTitle(BoardTitleKey(p, key).page).requests == []
  {
  }

  // ---------------------------------------------------------------------------
  // Lists (lines 115-151)

  /** List positions are 0..n-1 in order. */
  predicate DenseLists(ls: seq<List>) {
    forall i :: 0 <= i < |ls| ==> ls[i].position == i
  }

  /** `handleAddList`: without a board id in the route nothing happens;
      otherwise a list is inserted at position `lists.length`, and the row the
      store returns is appended unless the insert failed. */
  function AddList(p: Page, routeId: Option<Id>, title: string, reply: Reply<List>): (r: Step)
    ensures routeId.None? || routeId.value == "" ==> r == Step(p, [])
    ensures routeId.Some? && routeId.value != "" ==>
      r.requests == [InsertList(routeId.value, title, |p.lists|)]
    ensures r.page == p.(lists := r.page.lists)
    ensures r.page.lists ==
      if routeId.Some? && routeId.value != "" && !reply.failed && reply.data.Some?
      then p.lists + [reply.data.value] else p.lists
  {
    if routeId.None? || routeId.value == "" then Step(p, [])
    else
      var req := [InsertList(routeId.value, title, |p.lists|)];
      if reply.failed then Step(p, req)
      else if reply.data.Some? then Step(p.(lists := p.lists + [reply.data.value]), req)
      else Step(p, req)
  }

  /** "Position is the current count": when the store returns the row it was
      asked to insert, dense list positions stay dense. */
  lemma AddListKeepsDense(p: Page, boardId: Id, title: string, row: List)
    requires DenseLists(p.lists) && boardId != ""
    requires row.position == |p.lists|
    ensures DenseLists(AddList(p, Some(boardId), title, Reply(false, Some(row))).page.lists)
  {
  }

  /** `handleRenameList`: on success the list with that id takes the new title. */
  function RenameList(p: Page, listId: Id, title: string, failed: bool): (r: Step)
    ensures r.requests == [UpdateListTitle(listId, title)]
    ensures r.page == p.(lists := r.page.lists)
    ensures |r.page.lists| == |p.lists|
    ensures forall i :: 0 <= i < |p.lists| ==>
      r.page.lists[i] == if !failed && p.lists[i].id == listId then p.lists[i].(title := title) else p.lists[i]
  {
    if failed then Step(p, [UpdateListTitle(listId, title)])
    else
      var ls := seq(|p.lists|, i requires 0 <= i < |p.lists| =>
        if p.lists[i].id == listId then p.lists[i].(title := title) else p.lists[i]);
      Step(p.(lists := ls), [UpdateListTitle(listId, title)])
  }

  /** Renaming keeps the order and positions of the lists. */
  lemma RenameKeepsLayout(p: Page, listId: Id, title: string, failed: bool)
    ensures var ls := RenameList(p, listId, title, failed).page.lists;
      forall i :: 0 <= i < |ls| ==> ls[i].id == p.lists[i].id && ls[i].position == p.lists[i].position
  {
  }

  /** `handleDeleteList`: on success the list and every card in it are dropped;
      nothing is renumbered. */
  function DeleteList(p: Page, listId: Id, failed: bool): (r: Step)
    ensures r.requests == [DeleteListRow(listId)]
    ensures failed ==> r.page == p
    ensures !failed ==> r.page == p.(
      lists := Filter(p.lists, (l: List) => l.id != listId),
      cards := Filter(p.cards, NotInList(listId)))
  {
    if failed then Step(p, [DeleteListRow(listId)])
    else Step(p.(lists := Filter(p.lists, (l: List) => l.id != listId),
                 cards := Filter(p.cards, NotInList(listId))), [DeleteListRow(listId)])
  }

  /** After a delete no list carries the id and no card sits in it, while every
      other list shows exactly the cards, positions and order it showed. */
  lemma DeleteListEffect(p: Page, listId: Id)
    ensures var q := DeleteList(p, listId, false).page;
      && (forall i :: 0 <= i < |q.lists| ==> q.lists[i].id != listId)
      && (forall i :: 0 <= i < |p.lists| && p.lists[i].id != listId ==> p.lists[i] in q.lists)
      && CardsForList(q.cards, listId) == []
      && forall m :: m != listId ==> CardsForList(q.cards, m) == CardsForList(p.cards, m)
  {
    var q := DeleteList(p, listId, false).page;
    forall m | m != listId
      ensures CardsForList(q.cards, m) == CardsForList(p.cards, m)
    {
      AppendNil(q.cards);
      OtherListKept(p.cards, NotInList(listId), [], m);
    }
  }

  // ---------------------------------------------------------------------------
  // Cards (lines 154-193)

  /** `handleAddCard`: the card is inserted at position "number of cards the
      list shows", and the returned row is appended unless the insert failed. */
  function AddCard(p: Page, listId: Id, title: string, reply: Reply<Card>): (r: Step)
    ensures r.requests == [InsertCard(listId, title, |CardsForList(p.cards, listId)|)]
    ensures r.page == p.(cards := r.page.cards)
    ensures r.page.cards ==
      if !reply.failed && reply.data.Some? then p.cards + [reply.data.value] else p.cards
  {
    var req := [InsertCard(listId, title, |CardsForList(p.cards, listId)|)];
    if reply.failed then Step(p, req)
    else if reply.data.Some? then Step(p.(cards := p.cards + [reply.data.value]), req)
    else Step(p, req)
  }

  /** When the list's cards are numbered 0..n-1 and the store returns the row it
      was asked to insert, the new card shows last and the numbering stays
      dense. */
  lemma AddCardAppends(p: Page, listId: Id, title: string, row: Card)
    requires Dense(CardsForList(p.cards, listId))
    requires row.listId == listId && row.position == |CardsForList(p.cards, listId)|
    ensures var q := AddCard(p, listId, title, Reply(false, Some(row))).page;
      && CardsForList(q.cards, listId) == CardsForList(p.cards, listId) + [row]
      && Dense(CardsForList(q.cards, listId))
  {
    var shown := CardsForList(p.cards, listId);
    assert AddCard(p, listId, title, Reply(false, Some(row))).page.cards == p.cards + [row];
    assert CardsForList(p.cards + [row], listId) == shown + [row] by {
      BelowCount(p.cards, listId);
      AppendShown(p.cards, row, listId);
    }
    DenseAppend(shown, row);
  }

  /** Adding a card to one list leaves every other list as it was. */
  lemma AddCardKeepsOthers(p: Page, listId: Id, title: string, reply: Reply<Card>, m: Id)
    requires reply.data.Some? ==> reply.data.value.listId == listId
    requires m != listId
    ensures CardsForList(AddCard(p, listId, title, reply).page.cards, m) == CardsForList(p.cards, m)
  {
    if !reply.failed && reply.data.Some? {
      AppendOther(p.cards, reply.data.value, m);
    }
  }

  /** In a list numbered 0..n-1 every card's position is below n. */
  lemma BelowCount(cards: seq<Card>, l: Id)
    requires Dense(CardsForList(cards, l))
    ensures forall i :: 0 <= i < |cards| && cards[i].listId == l ==>
      cards[i].position < |CardsForList(cards, l)|
  {
    var shown := CardsForList(cards, l);
    forall i | 0 <= i < |cards| && cards[i].listId == l
      ensures cards[i].position < |shown|
    {
      CardsForListMembers(cards, l, cards[i]);
      var k :| 0 <= k < |shown| && shown[k] == cards[i];
    }
  }

  /** `{ ...c, ...updates }`: a field present in the patch overwrites the card's,
      also when its value is `undefined` (the card then has no description). */
  function Spread(c: Card, u: CardPatch): (r: Card)
    ensures r.id == c.id && r.listId == c.listId && r.position == c.position && r.createdAt == c.createdAt
    ensures r.title == if u.title.Some? then u.title.value else c.title
    ensures u.description.Absent? ==> r.description == c.description
    ensures u.description.Value? ==> r.description == Some(u.description.text)
    ensures u.description.Undefined? || u.description.Null? ==> r.description.None?
  {
    c.(title := if u.title.Some? then u.title.value else c.title,
       description := match u.description
         case Absent => c.description
         case Value(s) => Some(s)
         case _ => None)
  }

  /** `handleUpdateCard`: on success the card with that id, and the open card
      when it is that one, take the patch. */
  function UpdateCard(p: Page, cardId: Id, u: CardPatch, failed: bool): (r: Step)
    ensures r.requests == [UpdateCardRow(cardId, u)]
    ensures failed ==> r.page == p
    ensures !failed ==> r.page == p.(cards := r.page.cards, selectedCard := r.page.selectedCard)
    ensures |r.page.cards| == |p.cards|
    ensures !failed ==> forall i :: 0 <= i < |p.cards| ==>
      r.page.cards[i] == if p.cards[i].id == cardId then Spread(p.cards[i], u) else p.cards[i]
    ensures !failed ==> r.page.selectedCard == PatchSelected(p.selectedCard, cardId, u)
  {
    if failed then Step(p, [UpdateCardRow(cardId, u)])
    else
      var cs := seq(|p.cards|, i requires 0 <= i < |p.cards| =>
        if p.cards[i].id == cardId then Spread(p.cards[i], u) else p.cards[i]);
      Step(p.(cards := cs, selectedCard := PatchSelected(p.selectedCard, cardId, u)), [UpdateCardRow(cardId, u)])
  }

  /** The open card after `handleUpdateCard`: patched when it is the updated one. */
  function PatchSelected(selected: Option<Card>, cardId: Id, u: CardPatch): (r: Option<Card>)
    ensures r.None? <==> selected.None?
    ensures r.Some? ==> r.value == if selected.value.id == cardId then Spread(selected.value, u) else selected.value
  {
    match selected
    case Some(s) => if s.id == cardId then Some(Spread(s, u)) else selected
    case None => None
  }

  /** An update never moves a card: every card keeps its id, list and position. */
  lemma UpdateCardKeepsPlace(p: Page, cardId: Id, u: CardPatch, failed: bool)
    ensures var cs := UpdateCard(p, cardId, u, failed).page.cards;
      forall i :: 0 <= i < |cs| ==>
        cs[i].id == p.cards[i].id && cs[i].listId == p.cards[i].listId && cs[i].position == p.cards[i].position
  {
  }

  /** `handleDeleteCard`: on success the card is dropped and the modal closes. */
  function DeleteCard(p: Page, cardId: Id, failed: bool): (r: Step)
    ensures r.requests == [DeleteCardRow(cardId)]
    ensures failed ==> r.page == p
    ensures !failed ==> r.page == p.(cards := Filter(p.cards, NotId(cardId)), selectedCard := None)
  {
    if failed then Step(p, [DeleteCardRow(cardId)])
    else Step(p.(cards := Filter(p.cards, NotId(cardId)), selectedCard := None), [DeleteCardRow(cardId)])
  }

  /** Every list shows what it showed minus the deleted card: the cards after it
      keep their positions, so a gap is left. */
  lemma DeleteCardShows(p: Page, cardId: Id, l: Id)
    ensures CardsForList(DeleteCard(p, cardId, false).page.cards, l) ==
      Filter(CardsForList(p.cards, l), NotId(cardId))
  {
    var cs := Filter(p.cards, NotId(cardId));
    var both := (c: Card) => c.listId == l && c.id != cardId;
    FilterFilter(p.cards, NotId(cardId), InList(l), both);
    FilterFilter(p.cards, InList(l), NotId(cardId), both);
    SortFilter(Filter(p.cards, InList(l)), NotId(cardId));
  }

  /** Deleting the first card of a list numbered 0..n-1 with n > 1 leaves a list
      whose numbering no longer starts at 0. */
  lemma DeleteCardLeavesGap(p: Page, l: Id)
    requires UniqueIds(p.cards)
    requires Dense(CardsForList(p.cards, l)) && |CardsForList(p.cards, l)| > 1
    ensures var shown := CardsForList(p.cards, l);
      var after := CardsForList(DeleteCard(p, shown[0].id, false).page.cards, l);
      |after| > 0 && after[0].position == 1 && !Dense(after)
  {
    var shown := CardsForList(p.cards, l);
    var a := shown[0].id;
    DeleteCardShows(p, a, l);
    assert shown[1].id != a by {
      DistinctShown(p.cards, l, 0, 1);
    }
    FilterHead(shown, NotId(a));
    FilterHead(shown[1..], NotId(a));
    assert shown[1..][0] == shown[1];
  }

  /** Two places of a list shown from cards with unique ids hold different ids. */
  lemma DistinctShown(cards: seq<Card>, l: Id, i: int, j: int)
    requires UniqueIds(cards)
    requires Dense(CardsForList(cards, l))
    requires 0 <= i < j < |CardsForList(cards, l)|
    ensures CardsForList(cards, l)[i].id != CardsForList(cards, l)[j].id
  {
    var shown := CardsForList(cards, l);
    assert shown[i] != shown[j] by {
      assert shown[i].position == i && shown[j].position == j;
    }
    assert shown[i] in cards && shown[j] in cards;
    var a :| 0 <= a < |cards| && cards[a] == shown[i];
    var b :| 0 <= b < |cards| && cards[b] == shown[j];
    assert a != b;
  }

  // ---------------------------------------------------------------------------
  // Dragging (lines 196-353)

  datatype DragStep = DragStep(page: Page, log: seq<CardUpdate>)

  /** `handleDragStart`: the card under the pointer becomes the active card. */
  function DragStart(p: Page, activeId: Id): (r: Page)
    ensures r == p.(activeCard := r.activeCard)
    ensures r.activeCard == if FindCard(p.cards, activeId).Some? then FindCard(p.cards, activeId) else p.activeCard
  {
    match FindCard(p.cards, activeId)
    case Some(c) => p.(activeCard := Some(c))
    case None => p
  }

  /** `handleDragOver` on the page. */
  function HandleDragOver(p: Page, activeId: Id, over: Option<Id>): (r: Page)
    ensures r == p.(cards := DragOver(p.cards, p.lists, activeId, over))
  {
    p.(cards := DragOver(p.cards, p.lists, activeId, over))
  }

  /** `handleDragEnd` on the page: the drop is decided on the cards as the page
      holds them when the card is released, after any hover move, and the
      active card is cleared in every case. */
  function HandleDragEnd(p: Page, activeId: Id, over: Option<Id>): (r: DragStep)
    ensures r.page.activeCard.None?
    ensures r.page == p.(cards := r.page.cards, activeCard := None)
  {
    var o := DragEnd(p.cards, p.lists, activeId, over);
    DragStep(p.(cards := o.cards, activeCard := None), o.log)
  }

  /** A drag with no hover move in between leaves a valid board, keeps every
      card, and the store ends up holding the dragged card in the list the
      page shows it in. */
  lemma DragWithoutHover(p: Page, activeId: Id, over: Option<Id>)
    requires ValidBoard(p.cards, p.lists)
    ensures var r := HandleDragEnd(DragStart(p, activeId), activeId, over);
      && r.page.activeCard.None?
      && ValidBoard(r.page.cards, p.lists)
      && Preserved(p.cards, r.page.cards, activeId)
      && ListOf(Persist(p.cards, r.log), activeId) == ListOf(r.page.cards, activeId)
  {
    DropPreservesBoard(p.cards, p.lists, activeId, over);
    DropStoresShownList(p.cards, p.lists, activeId, over);
  }

  /** A whole drag as written — start, a hover over a card of another list, and
      the drop on that card — leaves a valid board that shows the dragged card
      in the new list, but writes positions only, so the store keeps the card
      in the list it came from. */
  lemma DragSession(p: Page, active: Card, over: Card)
    requires ValidBoard(p.cards, p.lists) && active in p.cards && over in p.cards
    requires over.listId != active.listId && over.listId != ""
    ensures
      var started := DragStart(p, active.id);
      var hovered := HandleDragOver(started, active.id, Some(over.id));
      var r := HandleDragEnd(hovered, active.id, Some(over.id));
      && r.page.activeCard.None?
      && ValidBoard(r.page.cards, p.lists)
      && ListOf(r.page.cards, active.id) == Some(over.listId)
      && (forall k :: 0 <= k < |r.log| ==> r.log[k].SetPosition?)
      && ListOf(Persist(p.cards, r.log), active.id) == Some(active.listId)
  {
    var hovered := DragOver(p.cards, p.lists, active.id, Some(over.id));
    HoverThenDropLosesMove(p.cards, p.lists, active, over);
    HoverValid(p.cards, p.lists, active, over.id);
    DropPreservesBoard(hovered, p.lists, active.id, Some(over.id));
  }

  /** Dropping outside every target, or onto the dragged card itself, right
      after the drag started writes nothing and leaves the cards alone. */
  lemma DropNowhere(p: Page, active: Card, over: Option<Id>)
    requires ValidBoard(p.cards, p.lists) && active in p.cards
    requires over.None? || over == Some(active.id)
    ensures var r := HandleDragEnd(DragStart(p, active.id), active.id, over);
      r.log == [] && r.page.cards == p.cards && r.page.activeCard.None?
  {
    DropIgnored(p.cards, p.lists, active.id, over);
  }

  /** Released outside every target after a hover into another list, the page
      keeps showing the card in that list while nothing is written: the store
      still has it in the list it came from. */
  lemma DropNowhereKeepsHover(p: Page, active: Card, over: Card)
    requires ValidBoard(p.cards, p.lists) && active in p.cards && over in p.cards
    requires over.listId != active.listId && over.listId != ""
    ensures
      var hovered := HandleDragOver(DragStart(p, active.id), active.id, Some(over.id));
      var r := HandleDragEnd(hovered, active.id, None);
      && r.log == []
      && ListOf(r.page.cards, active.id) == Some(over.listId)
      && ListOf(Persist(p.cards, r.log), active.id) == Some(active.listId)
  {
    var hovered := DragOver(p.cards, p.lists, active.id, Some(over.id));
    FindUnique(p.cards, over);
    NotAList(p.cards, p.lists, over);
    HoverEffect(p.cards, p.lists, active, over.id);
    FindUnique(hovered, active.(listId := over.listId));
    FindUnique(p.cards, active);
    EmptyLogKeeps(p.cards);
  }

  // ---------------------------------------------------------------------------
  // The corrected drop

  /** `handleDragEnd` with the correction of `Hover.DragEndFromStart`: the drop
      is decided on the cards as they were when the drag started. */
  function FixedHandleDragEnd(p: Page, activeId: Id, over: Option<Id>): (r: DragStep)
    ensures r.page.activeCard.None?
    ensures r.page == p.(cards := r.page.cards, activeCard := None)
  {
    var o := DragEndFromStart(p.cards, p.lists, p.activeCard, activeId, over);
    DragStep(p.(cards := o.cards, activeCard := None), o.log)
  }

  /** With the correction, a whole drag on a valid board — start, one hover,
      drop — ends with the drop computed from the cards as they were before the
      drag, the active card cleared, the board still valid, the cards only
      rearranged, and the store holding the dragged card in the list the page
      shows it in. */
  lemma FixedDragSession(p: Page, active: Card, hoverOver: Id, over: Option<Id>)
    requires ValidBoard(p.cards, p.lists) && active in p.cards
    ensures
      var started := DragStart(p, active.id);
      var hovered := HandleDragOver(started, active.id, Some(hoverOver));
      var r := FixedHandleDragEnd(hovered, active.id, over);
      && r.page.activeCard.None?
      && r.page.cards == DragEnd(p.cards, p.lists, active.id, over).cards
      && r.log == DragEnd(p.cards, p.lists, active.id, over).log
      && ValidBoard(r.page.cards, p.lists)
      && Preserved(p.cards, r.page.cards, active.id)
      && ListOf(Persist(p.cards, r.log), active.id) == ListOf(r.page.cards, active.id)
  {
    FindUnique(p.cards, active);
    FixedDropStoresShownList(p.cards, p.lists, active, hoverOver, over);
    DropPreservesBoard(p.cards, p.lists, active.id, over);
  }
}
