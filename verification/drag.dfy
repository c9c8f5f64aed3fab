/** The drag-and-drop handlers of the board view (src/pages/Board.tsx:204-353),
    as pure functions from the card array they are given to the new card array
    and the ordered list of persistence calls they issue.

    `handleDragEnd` is modelled literally for every input, including the cases
    that only arise when ids collide (its two branches can then both run).
    The properties proved about it (see DragProofs) assume `ValidBoard`:
    card ids are unique and no card id is also a list id, as holds for the
    store's primary keys. */
module Drag {
  import opened Records
  import opened Seqs
  import opened CardOrder

  /** A persistence call: `update({ position })` or `update({ list_id, position })`
      on the card with the given id. */
  datatype CardUpdate =
    | SetPosition(cardId: Id, position: int)
    | MoveToList(cardId: Id, listId: Id, position: int)

  /** The card array after a drop, and the updates issued, in issue order. */
  datatype DropOutcome = DropOutcome(cards: seq<Card>, log: seq<CardUpdate>)

  /** Card ids are unique, and no card id is a list id. */
  predicate ValidBoard(cards: seq<Card>, lists: seq<List>) {
    && UniqueIds(cards)
    && forall i, k :: 0 <= i < |cards| && 0 <= k < |lists| ==> cards[i].id != lists[k].id
  }

  /** One `update({ position })` per card, in the order of `s`. */
  function PositionUpdates(s: seq<Card>): seq<CardUpdate> {
    seq(|s|, i requires 0 <= i < |s| => SetPosition(s[i].id, s[i].position))
  }

  // ---------------------------------------------------------------------------
  // handleDragOver (src/pages/Board.tsx:204-231)

  /** The list a hover points at: a list id wins over a card id; anything else
      points nowhere. */
  function HoverTarget(cards: seq<Card>, lists: seq<List>, overId: Id): Option<Id> {
    match FindList(lists, overId)
    case Some(l) => Some(l.id)
    case None =>
      match FindCard(cards, overId)
      case Some(c) => Some(c.listId)
      case None => None
  }

  /** Every card carrying id `a` is put into list `t`; nothing else changes. */
  function MoveToOtherList(cards: seq<Card>, a: Id, t: Id): (r: seq<Card>)
    ensures |r| == |cards|
    ensures forall i :: 0 <= i < |cards| ==>
      r[i] == if cards[i].id == a then cards[i].(listId := t) else cards[i]
  {
    seq(|cards|, i requires 0 <= i < |cards| =>
      if cards[i].id == a then cards[i].(listId := t) else cards[i])
  }

  /** The optimistic hover move: when the pointer is over a list, or a card of a
      list, other than the dragged card's own (and that list id is a non-empty
      string), the dragged card's `listId` becomes that list. */
  function DragOver(cards: seq<Card>, lists: seq<List>, activeId: Id, over: Option<Id>): (r: seq<Card>)
    ensures |r| == |cards|
    ensures forall i :: 0 <= i < |cards| ==>
      SameContent(cards[i], r[i]) && r[i].position == cards[i].position
    ensures forall i :: 0 <= i < |cards| && cards[i].id != activeId ==> r[i] == cards[i]
    ensures over.None? ==> r == cards
  {
    if over.None? then cards
    else
      match FindCard(cards, activeId)
      case None => cards
      case Some(active) =>
        match HoverTarget(cards, lists, over.value)
        case Some(t) => if t != "" && t != active.listId then MoveToOtherList(cards, activeId, t) else cards
        case None => cards
  }

  // ---------------------------------------------------------------------------
  // handleDragEnd (src/pages/Board.tsx:233-353)

  /** The list a drop lands in: a list id wins over a card's list; otherwise the
      dragged card stays in its own list. */
  function DropTarget(cards: seq<Card>, lists: seq<List>, active: Card, overId: Id): Id {
    match FindList(lists, overId)
    case Some(l) => l.id
    case None =>
      match FindCard(cards, overId)
      case Some(c) => c.listId
      case None => active.listId
  }

  /** The same-list branch (lines 266-286): `arrayMove(listCards, from, to)`,
      renumbered; the list's cards replace all cards of `target`, and every one
      of them gets a position update in the new order. */
  function Reorder(cards: seq<Card>, target: Id, listCards: seq<Card>, from: int, to: int): (r: DropOutcome)
    requires 0 <= from < |listCards|
    ensures |r.log| == |listCards|
    ensures forall k :: 0 <= k < |r.log| ==> r.log[k].SetPosition?
    ensures forall k :: 0 <= k < |r.log| ==> r.log[k] == SetPosition(ArrayMove(listCards, from, to)[k].id, k)
    ensures |r.cards| == |Filter(cards, NotInList(target))| + |listCards|
  {
    var moved := Renumber(ArrayMove(listCards, from, to));
    DropOutcome(Filter(cards, NotInList(target)) + moved, PositionUpdates(moved))
  }

  /** The insertion branch (lines 297-351): the dragged card is spliced into the
      target list's other cards at `at`, the target list is renumbered, and for a
      cross-list move the source list without the card is renumbered too. `prev`
      is the array the state updaters run on, `cards` the one the handler read.
      Updates: the dragged card's list and position first, then its new
      siblings, then the old list. */
  function Insert(prev: seq<Card>, cards: seq<Card>, active: Card, target: Id, at: int): (r: DropOutcome)
    ensures |r.log| > 0 && r.log[0] == MoveToList(active.id, target, at)
    ensures forall k :: 1 <= k < |r.log| ==> r.log[k].SetPosition?
    ensures forall k :: 0 <= k < |r.log| && r.log[k].MoveToList? ==> r.log[k].cardId == active.id
  {
    var a := active.id;
    var source := active.listId;
    var siblings := SortByPosition(Filter(cards, InListExcept(target, a)));
    var updated := Renumber(Take(siblings, at) + [active.(listId := target, position := at)] + Drop(siblings, at));
    var afterTarget := Filter(prev, NotInListExcept(target, a)) + updated;
    var oldList := Renumber(SortByPosition(Filter(cards, InListExcept(source, a))));
    var crossed := target != source;
    DropOutcome(
      if crossed then Filter(afterTarget, OutsideSource(source, a)) + oldList else afterTarget,
      InsertLog(a, target, at, updated, if crossed then oldList else []))
  }

  /** The writes of an insertion (lines 333-351): the dragged card's list and
      position, then the positions of its new siblings, then those of the old
      list's cards. Only the first write can change a list. */
  function InsertLog(a: Id, target: Id, at: int, updated: seq<Card>, oldList: seq<Card>): (log: seq<CardUpdate>)
    ensures |log| > 0 && log[0] == MoveToList(a, target, at)
    ensures forall k :: 1 <= k < |log| ==> log[k].SetPosition?
    ensures forall k :: 0 <= k < |log| && log[k].MoveToList? ==> log[k].cardId == a
  {
    var u := PositionUpdates(Filter(updated, NotId(a)));
    var v := PositionUpdates(oldList);
    TailPositions(MoveToList(a, target, at), u, v);
    [MoveToList(a, target, at)] + u + v
  }

  /** A write followed by position writes only. */
  lemma TailPositions(m: CardUpdate, u: seq<CardUpdate>, v: seq<CardUpdate>)
    requires forall k :: 0 <= k < |u| ==> u[k].SetPosition?
    requires forall k :: 0 <= k < |v| ==> v[k].SetPosition?
    ensures forall k :: 1 <= k < |[m] + u + v| ==> ([m] + u + v)[k].SetPosition?
  {
    var log := [m] + u + v;
    forall k | 1 <= k < |log|
      ensures log[k].SetPosition?
    {
      if k <= |u| {
        assert log[k] == u[k - 1];
      } else {
        assert log[k] == v[k - 1 - |u|];
      }
    }
  }

  /** What `handleDragEnd` decides before touching any state (lines 241-295):
      the target list and its sorted cards, the dragged card's index there, the
      index of the card dropped on, whether the reorder branch runs, the
      insertion index, and whether the insertion branch runs. */
  datatype DropPlan = DropPlan(
    target: Id,
    listCards: seq<Card>,
    from: int,
    overIndex: int,
    reorder: bool,
    at: int,
    insert: bool)

  function Plan(cards: seq<Card>, lists: seq<List>, active: Card, overId: Id): (r: DropPlan)
    ensures r.reorder ==> 0 <= r.from < |r.listCards|
  {
    var overList := FindList(lists, overId);
    var overCard := FindCard(cards, overId);
    var target := DropTarget(cards, lists, active, overId);
    var listCards := CardsForList(cards, target);
    var onOtherCard := overCard.Some? && overCard.value.id != active.id;
    var from := IndexOfId(listCards, active.id);
    var overIndex := if overCard.Some? then IndexOfId(listCards, overCard.value.id) else -1;
    var at :=
      if onOtherCard then (if from != -1 then 0 else overIndex)
      else if overList.Some? then |Filter(listCards, NotId(active.id))|
      else 0;
    DropPlan(target, listCards, from, overIndex, onOtherCard && from != -1, at,
      target != active.listId || overCard.None?)
  }

  /** Runs the branches a plan selects, in source order: the reorder branch
      first, then the insertion branch on the array the first one left. */
  function Perform(cards: seq<Card>, active: Card, p: DropPlan): (r: DropOutcome)
    requires p.reorder ==> 0 <= p.from < |p.listCards|
    ensures !p.reorder && !p.insert ==> r == DropOutcome(cards, [])
    ensures forall k :: 0 <= k < |r.log| && r.log[k].MoveToList? ==> r.log[k].cardId == active.id
  {
    var first := ReorderStep(cards, p);
    if p.insert then
      var second := Insert(first.cards, cards, active, p.target, p.at);
      MovesOnly(first.log, second.log, active.id);
      DropOutcome(second.cards, first.log + second.log)
    else first
  }

  /** The reorder branch if the plan selects it, otherwise nothing. */
  function ReorderStep(cards: seq<Card>, p: DropPlan): (r: DropOutcome)
    requires p.reorder ==> 0 <= p.from < |p.listCards|
    ensures !p.reorder ==> r == DropOutcome(cards, [])
    ensures forall k :: 0 <= k < |r.log| ==> r.log[k].SetPosition?
  {
    if p.reorder then Reorder(cards, p.target, p.listCards, p.from, p.overIndex)
    else DropOutcome(cards, [])
  }

  /** Two logs that change no list but the one of `a` append to such a log. */
  lemma MovesOnly(u: seq<CardUpdate>, v: seq<CardUpdate>, a: Id)
    requires forall k :: 0 <= k < |u| && u[k].MoveToList? ==> u[k].cardId == a
    requires forall k :: 0 <= k < |v| && v[k].MoveToList? ==> v[k].cardId == a
    ensures forall k :: 0 <= k < |u + v| && (u + v)[k].MoveToList? ==> (u + v)[k].cardId == a
  {
    forall k | 0 <= k < |u + v| && (u + v)[k].MoveToList?
      ensures (u + v)[k].cardId == a
    {
      if k >= |u| {
        assert (u + v)[k] == v[k - |u|];
      }
    }
  }

  /** `handleDragEnd` for the drag of card `activeId` released over `over`
      (`None` when released outside every drop zone). */
  function DragEnd(cards: seq<Card>, lists: seq<List>, activeId: Id, over: Option<Id>): (r: DropOutcome)
    ensures over.None? || FindCard(cards, activeId).None? ==> r == DropOutcome(cards, [])
    ensures forall k :: 0 <= k < |r.log| && r.log[k].MoveToList? ==> r.log[k].cardId == activeId
  {
    if over.None? then DropOutcome(cards, [])
    else
      match FindCard(cards, activeId)
      case None => DropOutcome(cards, [])
      case Some(active) => Perform(cards, active, Plan(cards, lists, active, over.value))
  }
}
