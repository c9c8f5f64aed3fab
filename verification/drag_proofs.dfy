/** What a drop does to the board (src/pages/Board.tsx:233-353), proved about
    the `Drag` model for boards whose ids are unique (`ValidBoard`). */
module DragProofs {
  import opened Records
  import opened Seqs
  import opened CardOrder
  import opened Drag

  // ---------------------------------------------------------------------------
  // Vocabulary

  /** The ids of `s`, counted with multiplicity. */
  function IdBag(s: seq<Card>): multiset<Id> {
    multiset(Ids(s))
  }

  /** `x` is the card of `cards` with the same id, with at most its position
      changed, and its list too if it is the dragged card `a`. */
  predicate Repositioned(cards: seq<Card>, x: Card, a: Id) {
    && FindCard(cards, x.id).Some?
    && SameContent(FindCard(cards, x.id).value, x)
    && (x.id != a ==> FindCard(cards, x.id).value.listId == x.listId)
  }

  predicate AllRepositioned(cards: seq<Card>, s: seq<Card>, a: Id) {
    forall i :: 0 <= i < |s| ==> Repositioned(cards, s[i], a)
  }

  /** No card is lost or duplicated, and none changes anything but its
      position (and, for the dragged card `a`, its list). */
  predicate KeepsCards(before: seq<Card>, after: seq<Card>, a: Id) {
    IdBag(after) == IdBag(before) && AllRepositioned(before, after, a)
  }

  /** Every list other than `t` and `s` shows the same cards, in the same order. */
  ghost predicate OthersUnchanged(before: seq<Card>, after: seq<Card>, t: Id, s: Id) {
    forall m :: m != t && m != s ==> CardsForList(after, m) == CardsForList(before, m)
  }

  /** List `l` is shown renumbered densely, with card `id` at index `at`. */
  predicate ShowsAt(after: seq<Card>, l: Id, at: int, id: Id) {
    && Dense(CardsForList(after, l))
    && 0 <= at < |CardsForList(after, l)|
    && CardsForList(after, l)[at].id == id
  }

  /** In list `l`, the card after index `at` is card `id`. */
  predicate NextIs(after: seq<Card>, l: Id, at: int, id: Id) {
    0 <= at + 1 < |CardsForList(after, l)| && CardsForList(after, l)[at + 1].id == id
  }

  // ---------------------------------------------------------------------------
  // Bookkeeping lemmas

  lemma IdBagConcat(s: seq<Card>, t: seq<Card>)
    ensures IdBag(s + t) == IdBag(s) + IdBag(t)
  {
    IdsConcat(s, t);
  }

  lemma IdBagSplice(s: seq<Card>, k: int, x: Card)
    ensures IdBag(Take(s, k) + [x] + Drop(s, k)) == IdBag(s) + multiset{x.id}
  {
    var a := Take(s, k);
    var b := Drop(s, k);
    TakeDrop(s, k);
    IdBagConcat(a + [x], b);
    IdBagConcat(a, [x]);
    IdBagConcat(a, b);
    assert Ids([x]) == [x.id];
  }

  lemma AllRepositionedIn(cards: seq<Card>, s: seq<Card>, a: Id)
    requires UniqueIds(cards)
    requires forall i :: 0 <= i < |s| ==> s[i] in cards
    ensures AllRepositioned(cards, s, a)
  {
    forall i | 0 <= i < |s|
      ensures Repositioned(cards, s[i], a)
    {
      FindUnique(cards, s[i]);
    }
  }

  lemma AllRepositionedConcat(cards: seq<Card>, s: seq<Card>, t: seq<Card>, a: Id)
    requires AllRepositioned(cards, s, a) && AllRepositioned(cards, t, a)
    ensures AllRepositioned(cards, s + t, a)
  {
    forall i | 0 <= i < |s + t|
      ensures Repositioned(cards, (s + t)[i], a)
    {
      if i < |s| {
        assert (s + t)[i] == s[i];
      } else {
        assert (s + t)[i] == t[i - |s|];
      }
    }
  }

  lemma AllRepositionedRenumber(cards: seq<Card>, s: seq<Card>, a: Id)
    requires AllRepositioned(cards, s, a)
    ensures AllRepositioned(cards, Renumber(s), a)
  {
    var r := Renumber(s);
    forall i | 0 <= i < |r|
      ensures Repositioned(cards, r[i], a)
    {
      assert Ids(r)[i] == Ids(s)[i];
    }
  }

  /** The cards of `cards` that satisfy `p`, sorted, are all cards of `cards`. */
  lemma SortedFilterIn(cards: seq<Card>, p: Card -> bool)
    ensures forall i :: 0 <= i < |SortByPosition(Filter(cards, p))| ==>
      SortByPosition(Filter(cards, p))[i] in cards && p(SortByPosition(Filter(cards, p))[i])
  {
  }

  /** A dense sequence whose cards all sit in list `l`, preceded and followed by
      cards of other lists, is what `getCardsForList(l)` shows. */
  lemma ShownList(rest: seq<Card>, block: seq<Card>, tail: seq<Card>, l: Id)
    requires forall i :: 0 <= i < |rest| ==> rest[i].listId != l
    requires forall i :: 0 <= i < |tail| ==> tail[i].listId != l
    requires forall i :: 0 <= i < |block| ==> block[i].listId == l
    requires Dense(block)
    ensures CardsForList(rest + block + tail, l) == block
  {
    FilterConcat(rest + block, tail, InList(l));
    FilterConcat(rest, block, InList(l));
    FilterNone(rest, InList(l));
    FilterNone(tail, InList(l));
    FilterAll(block, InList(l));
    DenseIsSorted(block);
    SortKeepsSorted(block);
    assert Filter(rest + block + tail, InList(l)) == block;
  }

  // ---------------------------------------------------------------------------
  // The same-list branch

  /** The cards `arrayMove` returns are the list's own cards. */
  lemma ArrangedInList(cards: seq<Card>, l: Id, from: int, to: int)
    requires 0 <= from < |CardsForList(cards, l)|
    ensures var arranged := ArrayMove(CardsForList(cards, l), from, to);
      forall i :: 0 <= i < |arranged| ==> arranged[i] in cards && arranged[i].listId == l
  {
    var listCards := CardsForList(cards, l);
    RearrangedInList(cards, l, listCards, ArrayMove(listCards, from, to));
  }

  /** A rearrangement of cards of list `l` taken from `cards` is one too. */
  lemma RearrangedInList(cards: seq<Card>, l: Id, s: seq<Card>, r: seq<Card>)
    requires multiset(r) == multiset(s)
    requires forall j :: 0 <= j < |s| ==> s[j] in cards && s[j].listId == l
    ensures forall i :: 0 <= i < |r| ==> r[i] in cards && r[i].listId == l
  {
    forall i | 0 <= i < |r|
      ensures r[i] in cards && r[i].listId == l
    {
      assert r[i] in multiset(s);
      var j :| 0 <= j < |s| && s[j] == r[i];
    }
  }

  /** Keeping the cards of `cards` that satisfy `p` and appending cards of
      other lists leaves list `m` as it was, when `p` keeps all of `m`. */
  lemma OtherListKept(cards: seq<Card>, p: Card -> bool, block: seq<Card>, m: Id)
    requires forall i :: 0 <= i < |cards| && cards[i].listId == m ==> p(cards[i])
    requires forall i :: 0 <= i < |block| ==> block[i].listId != m
    ensures CardsForList(Filter(cards, p) + block, m) == CardsForList(cards, m)
  {
    FilterConcat(Filter(cards, p), block, InList(m));
    FilterNone(block, InList(m));
    FilterFilter(cards, p, InList(m), InList(m));
    assert Filter(Filter(cards, p) + block, InList(m)) == Filter(cards, InList(m));
  }

  lemma ReorderShowsList(cards: seq<Card>, l: Id, from: int, to: int)
    requires 0 <= from < |CardsForList(cards, l)|
    ensures
      var moved := Renumber(ArrayMove(CardsForList(cards, l), from, to));
      CardsForList(Filter(cards, NotInList(l)) + moved, l) == moved
  {
    var moved := Renumber(ArrayMove(CardsForList(cards, l), from, to));
    var rest := Filter(cards, NotInList(l));
    MovedInList(cards, l, from, to);
    AppendNil(rest + moved);
    ShownList(rest, moved, [], l);
  }

  /** The renumbered cards all sit in list `l`. */
  lemma MovedInList(cards: seq<Card>, l: Id, from: int, to: int)
    requires 0 <= from < |CardsForList(cards, l)|
    ensures var moved := Renumber(ArrayMove(CardsForList(cards, l), from, to));
      forall i :: 0 <= i < |moved| ==> moved[i].listId == l
  {
    var arranged := ArrayMove(CardsForList(cards, l), from, to);
    ArrangedInList(cards, l, from, to);
    assert forall i :: 0 <= i < |arranged| ==> Renumber(arranged)[i].listId == arranged[i].listId;
  }

  lemma ReorderKeepsOthers(cards: seq<Card>, l: Id, from: int, to: int)
    requires 0 <= from < |CardsForList(cards, l)|
    ensures
      var moved := Renumber(ArrayMove(CardsForList(cards, l), from, to));
      forall m :: m != l ==> CardsForList(Filter(cards, NotInList(l)) + moved, m) == CardsForList(cards, m)
  {
    var moved := Renumber(ArrayMove(CardsForList(cards, l), from, to));
    MovedInList(cards, l, from, to);
    forall m | m != l
      ensures CardsForList(Filter(cards, NotInList(l)) + moved, m) == CardsForList(cards, m)
    {
      OtherListKept(cards, NotInList(l), moved, m);
    }
  }

  /** Splitting the cards by one list keeps every card. */
  lemma SplitByList(cards: seq<Card>, l: Id)
    ensures IdBag(cards) == IdBag(Filter(cards, NotInList(l))) + IdBag(Filter(cards, InList(l)))
  {
    var rest := Filter(cards, NotInList(l));
    var inList := Filter(cards, InList(l));
    FilterCountAll(cards, NotInList(l));
    FilterCountAll(cards, InList(l));
    assert multiset(cards) == multiset(rest + inList);
    IdsMultiset(cards, rest + inList);
    IdBagConcat(rest, inList);
  }

  lemma ReorderIds(cards: seq<Card>, l: Id, from: int, to: int)
    requires 0 <= from < |CardsForList(cards, l)|
    ensures IdBag(Reorder(cards, l, CardsForList(cards, l), from, to).cards) == IdBag(cards)
  {
    var listCards := CardsForList(cards, l);
    var arranged := ArrayMove(listCards, from, to);
    var rest := Filter(cards, NotInList(l));
    SplitByList(cards, l);
    IdsMultiset(arranged, listCards);
    IdsMultiset(listCards, Filter(cards, InList(l)));
    IdBagConcat(rest, Renumber(arranged));
  }

  /** No card of a reordered board changes list: whichever card counts as the
      dragged one, every card is repositioned. */
  lemma ReorderContent(cards: seq<Card>, l: Id, from: int, to: int)
    requires UniqueIds(cards)
    requires 0 <= from < |CardsForList(cards, l)|
    ensures forall a :: AllRepositioned(cards, Reorder(cards, l, CardsForList(cards, l), from, to).cards, a)
  {
    var arranged := ArrayMove(CardsForList(cards, l), from, to);
    var rest := Filter(cards, NotInList(l));
    ArrangedInList(cards, l, from, to);
    forall a
      ensures AllRepositioned(cards, rest + Renumber(arranged), a)
    {
      AllRepositionedIn(cards, rest, a);
      AllRepositionedIn(cards, arranged, a);
      AllRepositionedRenumber(cards, arranged, a);
      AllRepositionedConcat(cards, rest, Renumber(arranged), a);
    }
  }

  /** Dropping a card on another card of its own list shows that list in
      `arrayMove` order, renumbered 0..n-1, with the dragged card at the index
      the target card had; leaves every other list as it was; keeps the set of
      card ids; changes no card's content or list; and writes the new position
      of every card of the list, in the new order. */
  lemma ReorderEffect(cards: seq<Card>, l: Id, from: int, to: int)
    requires UniqueIds(cards)
    requires 0 <= from < |CardsForList(cards, l)| && 0 <= to < |CardsForList(cards, l)|
    ensures
      var listCards := CardsForList(cards, l);
      var moved := Renumber(ArrayMove(listCards, from, to));
      var r := Reorder(cards, l, listCards, from, to);
      && CardsForList(r.cards, l) == moved
      && Dense(moved)
      && moved[to].id == listCards[from].id
      && OthersUnchanged(cards, r.cards, l, l)
      && (forall a :: KeepsCards(cards, r.cards, a))
      && r.log == PositionUpdates(moved)
  {
    var listCards := CardsForList(cards, l);
    var arranged := ArrayMove(listCards, from, to);
    assert Ids(Renumber(arranged))[to] == Ids(arranged)[to];
    ReorderShowsList(cards, l, from, to);
    ReorderKeepsOthers(cards, l, from, to);
    ReorderIds(cards, l, from, to);
    ReorderContent(cards, l, from, to);
  }

  // ---------------------------------------------------------------------------
  // The insertion branch

  /** The target list's other cards, sorted (lines 299-301). */
  function Siblings(cards: seq<Card>, active: Card, t: Id): (r: seq<Card>)
    ensures multiset(r) == multiset(Filter(cards, InListExcept(t, active.id)))
    ensures forall i :: 0 <= i < |r| ==> r[i] in cards && r[i].listId == t && r[i].id != active.id
  {
    SortedFilterIn(cards, InListExcept(t, active.id));
    SortByPosition(Filter(cards, InListExcept(t, active.id)))
  }

  /** The card as it is spliced into list `t` at `at`. */
  function Placed(active: Card, t: Id, at: int): Card {
    active.(listId := t, position := at)
  }

  /** The target list after the insertion, renumbered (lines 304-308). */
  function Spliced(cards: seq<Card>, active: Card, t: Id, at: int): seq<Card> {
    var siblings := Siblings(cards, active, t);
    Renumber(Take(siblings, at) + [Placed(active, t, at)] + Drop(siblings, at))
  }

  /** The source list without the dragged card, renumbered (lines 319-322). */
  function Remaining(cards: seq<Card>, active: Card): seq<Card> {
    Renumber(SortByPosition(Filter(cards, InListExcept(active.listId, active.id))))
  }

  /** With unique ids, the dragged card is the only card carrying its id. */
  lemma OnlyActive(cards: seq<Card>, active: Card)
    requires UniqueIds(cards) && active in cards
    ensures forall x: Card :: x.id == active.id ==> multiset(cards)[x] == if x == active then 1 else 0
    ensures forall i :: 0 <= i < |cards| && cards[i].id == active.id ==> cards[i] == active
  {
    FindUnique(cards, active);
    FilterCountAll(cards, HasId(active.id));
  }

  /** Splicing `x` into `s` at `k` puts it at index `k` when `k` is in range,
      and keeps every other element. */
  lemma SpliceParts<T>(s: seq<T>, k: int, x: T)
    ensures var r := Take(s, k) + [x] + Drop(s, k);
      && |r| == |s| + 1
      && (forall i :: 0 <= i < |r| ==> r[i] == x || r[i] in s)
      && (0 <= k <= |s| ==> r[k] == x)
  {
    TakeDrop(s, k);
    var r := Take(s, k) + [x] + Drop(s, k);
    forall i | 0 <= i < |r|
      ensures r[i] == x || r[i] in s
    {
      if i < |Take(s, k)| {
        assert r[i] == s[i];
      } else if i > |Take(s, k)| {
        assert r[i] == s[i - 1];
      }
    }
  }

  lemma SpliceNext<T>(s: seq<T>, k: int, x: T)
    requires 0 <= k < |s|
    ensures (Take(s, k) + [x] + Drop(s, k))[k + 1] == s[k]
  {
    assert |Take(s, k)| == k;
    assert Drop(s, k)[0] == s[k];
  }

  lemma SplicedLayout(cards: seq<Card>, active: Card, t: Id, at: int)
    ensures var updated := Spliced(cards, active, t, at);
      && Dense(updated)
      && |updated| == |Siblings(cards, active, t)| + 1
      && (forall i :: 0 <= i < |updated| ==> updated[i].listId == t)
  {
    var siblings := Siblings(cards, active, t);
    SpliceParts(siblings, at, Placed(active, t, at));
  }

  lemma SplicedAt(cards: seq<Card>, active: Card, t: Id, at: int)
    requires 0 <= at <= |Siblings(cards, active, t)|
    ensures Spliced(cards, active, t, at)[at].id == active.id
  {
    var siblings := Siblings(cards, active, t);
    var spliced := Take(siblings, at) + [Placed(active, t, at)] + Drop(siblings, at);
    SpliceParts(siblings, at, Placed(active, t, at));
    assert Ids(Spliced(cards, active, t, at))[at] == Ids(spliced)[at];
  }

  /** The card that was at `at` follows the inserted card. */
  lemma SplicedAfter(cards: seq<Card>, active: Card, t: Id, at: int)
    requires 0 <= at < |Siblings(cards, active, t)|
    ensures Spliced(cards, active, t, at)[at + 1].id == Siblings(cards, active, t)[at].id
  {
    var siblings := Siblings(cards, active, t);
    SpliceNext(siblings, at, Placed(active, t, at));
    var spliced := Take(siblings, at) + [Placed(active, t, at)] + Drop(siblings, at);
    assert Ids(Spliced(cards, active, t, at))[at + 1] == Ids(spliced)[at + 1];
  }

  lemma SplicedContent(cards: seq<Card>, active: Card, t: Id, at: int)
    requires UniqueIds(cards) && active in cards
    ensures AllRepositioned(cards, Spliced(cards, active, t, at), active.id)
  {
    var siblings := Siblings(cards, active, t);
    var moved := Placed(active, t, at);
    FindUnique(cards, active);
    AllRepositionedIn(cards, siblings, active.id);
    SpliceRepositioned(cards, siblings, at, moved, active.id);
  }

  /** Splicing a repositioned card among repositioned cards, and renumbering,
      keeps every card repositioned. */
  lemma SpliceRepositioned(cards: seq<Card>, s: seq<Card>, k: int, x: Card, a: Id)
    requires AllRepositioned(cards, s, a) && Repositioned(cards, x, a)
    ensures AllRepositioned(cards, Renumber(Take(s, k) + [x] + Drop(s, k)), a)
  {
    var r := Take(s, k) + [x] + Drop(s, k);
    SpliceParts(s, k, x);
    forall i | 0 <= i < |r|
      ensures Repositioned(cards, r[i], a)
    {
      if r[i] != x {
        var j :| 0 <= j < |s| && s[j] == r[i];
      }
    }
    AllRepositionedRenumber(cards, r, a);
  }

  lemma SplicedIds(cards: seq<Card>, active: Card, t: Id, at: int)
    ensures IdBag(Spliced(cards, active, t, at)) == IdBag(Filter(cards, InListExcept(t, active.id))) + multiset{active.id}
  {
    var siblings := Siblings(cards, active, t);
    var spliced := Take(siblings, at) + [Placed(active, t, at)] + Drop(siblings, at);
    IdBagSplice(siblings, at, Placed(active, t, at));
    IdsMultiset(siblings, Filter(cards, InListExcept(t, active.id)));
    assert Ids(Spliced(cards, active, t, at)) == Ids(spliced);
  }

  lemma RemainingFacts(cards: seq<Card>, active: Card)
    requires UniqueIds(cards) && active in cards
    ensures var rest := Remaining(cards, active);
      && Dense(rest)
      && (forall i :: 0 <= i < |rest| ==> rest[i].listId == active.listId && rest[i].id != active.id)
      && AllRepositioned(cards, rest, active.id)
      && IdBag(rest) == IdBag(Filter(cards, InListExcept(active.listId, active.id)))
  {
    var src := Filter(cards, InListExcept(active.listId, active.id));
    var sorted := SortByPosition(src);
    SortedFilterIn(cards, InListExcept(active.listId, active.id));
    RenumberedSiblings(cards, sorted, src, active.listId, active.id);
  }

  /** Renumbering a rearrangement of the cards of list `l` other than `a`
      keeps them in `l`, apart from `a`, and where `handleDragEnd` writes them. */
  lemma RenumberedSiblings(cards: seq<Card>, sorted: seq<Card>, src: seq<Card>, l: Id, a: Id)
    requires UniqueIds(cards)
    requires multiset(sorted) == multiset(src)
    requires forall i :: 0 <= i < |sorted| ==> sorted[i] in cards && InListExcept(l, a)(sorted[i])
    ensures var rest := Renumber(sorted);
      && Dense(rest)
      && (forall i :: 0 <= i < |rest| ==> rest[i].listId == l && rest[i].id != a)
      && AllRepositioned(cards, rest, a)
      && IdBag(rest) == IdBag(src)
  {
    AllRepositionedIn(cards, sorted, a);
    AllRepositionedRenumber(cards, sorted, a);
    IdsMultiset(sorted, src);
    var rest := Renumber(sorted);
    forall i | 0 <= i < |rest|
      ensures rest[i].listId == l && rest[i].id != a
    {
      assert Ids(rest)[i] == Ids(sorted)[i];
    }
  }

  /** The array a cross-list insertion produces: the untouched lists, then the
      target list, then the source list. */
  lemma InsertShapeAcross(cards: seq<Card>, active: Card, t: Id, at: int)
    requires UniqueIds(cards) && active in cards && t != active.listId
    ensures Insert(cards, cards, active, t, at).cards
      == Filter(cards, OutsideLists(t, active.listId)) + Spliced(cards, active, t, at) + Remaining(cards, active)
  {
    var a := active.id;
    var src := active.listId;
    var updated := Spliced(cards, active, t, at);
    SplicedLayout(cards, active, t, at);
    OnlyActive(cards, active);
    FilterConcat(Filter(cards, NotInListExcept(t, a)), updated, OutsideSource(src, a));
    FilterAll(updated, OutsideSource(src, a));
    FilterFilter(cards, NotInListExcept(t, a), OutsideSource(src, a), OutsideLists(t, src));
  }

  /** The array an insertion into the card's own list produces: the other
      lists, then the list itself. */
  lemma InsertShapeWithin(cards: seq<Card>, active: Card, at: int)
    requires UniqueIds(cards) && active in cards
    ensures Insert(cards, cards, active, active.listId, at).cards
      == Filter(cards, NotInList(active.listId)) + Spliced(cards, active, active.listId, at)
  {
    OnlyActive(cards, active);
    FilterEquiv(cards, NotInListExcept(active.listId, active.id), NotInList(active.listId));
  }

  /** The facts about the three blocks of a cross-list insertion that the
      lemmas below rely on. */
  predicate AcrossBlocks(cards: seq<Card>, active: Card, t: Id, rest: seq<Card>, updated: seq<Card>, left: seq<Card>) {
    && Dense(updated) && Dense(left)
    && (forall i :: 0 <= i < |rest| ==> rest[i].listId != t && rest[i].listId != active.listId)
    && (forall i :: 0 <= i < |updated| ==> updated[i].listId == t)
    && (forall i :: 0 <= i < |left| ==> left[i].listId == active.listId)
  }

  lemma AcrossBlocksHold(cards: seq<Card>, active: Card, t: Id, at: int)
    requires UniqueIds(cards) && active in cards
    ensures AcrossBlocks(cards, active, t, Filter(cards, OutsideLists(t, active.listId)),
      Spliced(cards, active, t, at), Remaining(cards, active))
  {
    SplicedLayout(cards, active, t, at);
    RemainingFacts(cards, active);
  }

  lemma BlocksShown(cards: seq<Card>, active: Card, t: Id, rest: seq<Card>, updated: seq<Card>, left: seq<Card>)
    requires t != active.listId
    requires AcrossBlocks(cards, active, t, rest, updated, left)
    ensures CardsForList(rest + updated + left, t) == updated
    ensures CardsForList(rest + updated + left, active.listId) == left
  {
    ShownList(rest, updated, left, t);
    ShownList(rest + updated, left, [], active.listId);
    AppendNil(rest + updated + left);
  }

  lemma BlocksKeepOthers(cards: seq<Card>, active: Card, t: Id, updated: seq<Card>, left: seq<Card>)
    requires AcrossBlocks(cards, active, t, Filter(cards, OutsideLists(t, active.listId)), updated, left)
    ensures forall m :: m != t && m != active.listId ==>
      CardsForList(Filter(cards, OutsideLists(t, active.listId)) + updated + left, m) == CardsForList(cards, m)
  {
    var rest := Filter(cards, OutsideLists(t, active.listId));
    assert rest + updated + left == rest + (updated + left);
    forall m | m != t && m != active.listId
      ensures CardsForList(rest + (updated + left), m) == CardsForList(cards, m)
    {
      OtherListKept(cards, OutsideLists(t, active.listId), updated + left, m);
    }
  }

  lemma AcrossShowsLists(cards: seq<Card>, active: Card, t: Id, at: int)
    requires UniqueIds(cards) && active in cards && t != active.listId
    ensures var r := Insert(cards, cards, active, t, at).cards;
      && CardsForList(r, t) == Spliced(cards, active, t, at)
      && CardsForList(r, active.listId) == Remaining(cards, active)
      && OthersUnchanged(cards, r, t, active.listId)
  {
    InsertShapeAcross(cards, active, t, at);
    AcrossBlocksHold(cards, active, t, at);
    BlocksShown(cards, active, t, Filter(cards, OutsideLists(t, active.listId)), Spliced(cards, active, t, at), Remaining(cards, active));
    BlocksKeepOthers(cards, active, t, Spliced(cards, active, t, at), Remaining(cards, active));
  }

  /** A permutation of three blocks and one card has their ids. */
  lemma IdBagOfParts(cards: seq<Card>, p1: seq<Card>, p2: seq<Card>, p3: seq<Card>, x: Card)
    requires multiset(cards) == multiset(p1 + p2 + p3 + [x])
    ensures IdBag(cards) == IdBag(p1) + IdBag(p2) + IdBag(p3) + multiset{x.id}
  {
    IdsMultiset(cards, p1 + p2 + p3 + [x]);
    assert Ids([x]) == [x.id];
    IdBagConcat(p1 + p2 + p3, [x]);
    IdBagConcat(p1 + p2, p3);
    IdBagConcat(p1, p2);
  }

  /** The cards split into the untouched lists, the target list's other cards,
      the source list's other cards, and the dragged card. */
  lemma SplitAcross(cards: seq<Card>, active: Card, t: Id)
    requires UniqueIds(cards) && active in cards && t != active.listId
    ensures multiset(cards) ==
      multiset(Filter(cards, OutsideLists(t, active.listId))
        + Filter(cards, InListExcept(t, active.id))
        + Filter(cards, InListExcept(active.listId, active.id))
        + [active])
  {
    var p1 := Filter(cards, OutsideLists(t, active.listId));
    var p2 := Filter(cards, InListExcept(t, active.id));
    var p3 := Filter(cards, InListExcept(active.listId, active.id));
    forall x: Card
      ensures multiset(cards)[x] == multiset(p1)[x] + multiset(p2)[x] + multiset(p3)[x] + multiset([active])[x]
    {
      SplitAcrossAt(cards, active, t, x);
    }
    BagOfParts(cards, p1, p2, p3, active);
  }

  /** A bag that counts like four parts together is their concatenation's bag. */
  lemma BagOfParts(cards: seq<Card>, p1: seq<Card>, p2: seq<Card>, p3: seq<Card>, a: Card)
    requires forall x :: multiset(cards)[x] == multiset(p1)[x] + multiset(p2)[x] + multiset(p3)[x] + multiset([a])[x]
    ensures multiset(cards) == multiset(p1 + p2 + p3 + [a])
  {
    assert multiset(p1 + p2 + p3 + [a]) == multiset(p1) + multiset(p2) + multiset(p3) + multiset([a]);
  }

  lemma SplitAcrossAt(cards: seq<Card>, active: Card, t: Id, x: Card)
    requires UniqueIds(cards) && active in cards && t != active.listId
    ensures multiset(cards)[x] ==
      multiset(Filter(cards, OutsideLists(t, active.listId)))[x]
      + multiset(Filter(cards, InListExcept(t, active.id)))[x]
      + multiset(Filter(cards, InListExcept(active.listId, active.id)))[x]
      + multiset([active])[x]
  {
    OnlyActive(cards, active);
    FilterCount(cards, OutsideLists(t, active.listId), x);
    FilterCount(cards, InListExcept(t, active.id), x);
    FilterCount(cards, InListExcept(active.listId, active.id), x);
  }

  lemma AcrossIds(cards: seq<Card>, active: Card, t: Id, at: int)
    requires UniqueIds(cards) && active in cards && t != active.listId
    ensures IdBag(Insert(cards, cards, active, t, at).cards) == IdBag(cards)
  {
    var rest := Filter(cards, OutsideLists(t, active.listId));
    var updated := Spliced(cards, active, t, at);
    var left := Remaining(cards, active);
    InsertShapeAcross(cards, active, t, at);
    SplicedIds(cards, active, t, at);
    RemainingFacts(cards, active);
    SplitAcross(cards, active, t);
    IdBagOfParts(cards, rest, Filter(cards, InListExcept(t, active.id)),
      Filter(cards, InListExcept(active.listId, active.id)), active);
    IdBagConcat(rest + updated, left);
    IdBagConcat(rest, updated);
  }

  lemma AcrossContent(cards: seq<Card>, active: Card, t: Id, at: int)
    requires UniqueIds(cards) && active in cards && t != active.listId
    ensures AllRepositioned(cards, Insert(cards, cards, active, t, at).cards, active.id)
  {
    var rest := Filter(cards, OutsideLists(t, active.listId));
    var updated := Spliced(cards, active, t, at);
    var left := Remaining(cards, active);
    InsertShapeAcross(cards, active, t, at);
    AllRepositionedIn(cards, rest, active.id);
    SplicedContent(cards, active, t, at);
    RemainingFacts(cards, active);
    AllRepositionedConcat(cards, rest, updated, active.id);
    AllRepositionedConcat(cards, rest + updated, left, active.id);
  }

  lemma WithinShowsList(cards: seq<Card>, active: Card, at: int)
    requires UniqueIds(cards) && active in cards
    ensures CardsForList(Insert(cards, cards, active, active.listId, at).cards, active.listId)
      == Spliced(cards, active, active.listId, at)
    ensures OthersUnchanged(cards, Insert(cards, cards, active, active.listId, at).cards, active.listId, active.listId)
  {
    var l := active.listId;
    var rest := Filter(cards, NotInList(l));
    var updated := Spliced(cards, active, l, at);
    InsertShapeWithin(cards, active, at);
    SplicedLayout(cards, active, l, at);
    ShownList(rest, updated, [], l);
    AppendNil(rest + updated);
    forall m | m != l
      ensures CardsForList(rest + updated, m) == CardsForList(cards, m)
    {
      OtherListKept(cards, NotInList(l), updated, m);
    }
  }

  /** The cards split into the other lists, the list's other cards, and the
      dragged card. */
  lemma SplitWithin(cards: seq<Card>, active: Card)
    requires UniqueIds(cards) && active in cards
    ensures multiset(cards) ==
      multiset(Filter(cards, NotInList(active.listId)) + Filter(cards, InListExcept(active.listId, active.id)) + [] + [active])
  {
    var p1 := Filter(cards, NotInList(active.listId));
    var p2 := Filter(cards, InListExcept(active.listId, active.id));
    forall x: Card
      ensures multiset(cards)[x] == multiset(p1)[x] + multiset(p2)[x] + multiset([])[x] + multiset([active])[x]
    {
      SplitWithinAt(cards, active, x);
    }
    BagOfParts(cards, p1, p2, [], active);
  }

  lemma SplitWithinAt(cards: seq<Card>, active: Card, x: Card)
    requires UniqueIds(cards) && active in cards
    ensures multiset(cards)[x] ==
      multiset(Filter(cards, NotInList(active.listId)))[x]
      + multiset(Filter(cards, InListExcept(active.listId, active.id)))[x]
      + multiset([active])[x]
  {
    OnlyActive(cards, active);
    FilterCount(cards, NotInList(active.listId), x);
    FilterCount(cards, InListExcept(active.listId, active.id), x);
  }

  lemma WithinIds(cards: seq<Card>, active: Card, at: int)
    requires UniqueIds(cards) && active in cards
    ensures IdBag(Insert(cards, cards, active, active.listId, at).cards) == IdBag(cards)
  {
    var l := active.listId;
    InsertShapeWithin(cards, active, at);
    SplicedIds(cards, active, l, at);
    SplitWithin(cards, active);
    IdBagOfParts(cards, Filter(cards, NotInList(l)), Filter(cards, InListExcept(l, active.id)), [], active);
    assert IdBag([]) == multiset{};
    IdBagConcat(Filter(cards, NotInList(l)), Spliced(cards, active, l, at));
  }

  lemma WithinContent(cards: seq<Card>, active: Card, at: int)
    requires UniqueIds(cards) && active in cards
    ensures AllRepositioned(cards, Insert(cards, cards, active, active.listId, at).cards, active.id)
  {
    var l := active.listId;
    var rest := Filter(cards, NotInList(l));
    InsertShapeWithin(cards, active, at);
    AllRepositionedIn(cards, rest, active.id);
    SplicedContent(cards, active, l, at);
    AllRepositionedConcat(cards, rest, Spliced(cards, active, l, at), active.id);
  }

  /** A cross-list insertion at an index within the target list: the target
      list shows the dragged card at that index, renumbered densely, with the
      card that held the index right after it; the source list is renumbered
      densely without it; every other list is unchanged; no card is lost or
      duplicated; the first write moves the dragged card. */
  lemma InsertAcrossEffect(cards: seq<Card>, active: Card, t: Id, at: int)
    requires UniqueIds(cards) && active in cards && t != active.listId
    requires 0 <= at <= |Siblings(cards, active, t)|
    ensures var r := Insert(cards, cards, active, t, at);
      && ShowsAt(r.cards, t, at, active.id)
      && (at < |Siblings(cards, active, t)| ==> NextIs(r.cards, t, at, Siblings(cards, active, t)[at].id))
      && CardsForList(r.cards, t) == Spliced(cards, active, t, at)
      && Dense(CardsForList(r.cards, active.listId))
      && CardsForList(r.cards, active.listId) == Remaining(cards, active)
      && OthersUnchanged(cards, r.cards, t, active.listId)
      && KeepsCards(cards, r.cards, active.id)
      && |r.log| > 0 && r.log[0] == MoveToList(active.id, t, at)
  {
    AcrossShowsLists(cards, active, t, at);
    AcrossShown(cards, active, t, at);
    AcrossIds(cards, active, t, at);
    AcrossContent(cards, active, t, at);
    InsertLogHead(cards, cards, active, t, at);
  }

  /** The first write of an insertion moves the dragged card. */
  lemma InsertLogHead(prev: seq<Card>, cards: seq<Card>, active: Card, t: Id, at: int)
    ensures |Insert(prev, cards, active, t, at).log| > 0
    ensures Insert(prev, cards, active, t, at).log[0] == MoveToList(active.id, t, at)
  {
  }

  lemma AcrossShown(cards: seq<Card>, active: Card, t: Id, at: int)
    requires UniqueIds(cards) && active in cards && t != active.listId
    requires 0 <= at <= |Siblings(cards, active, t)|
    ensures var r := Insert(cards, cards, active, t, at);
      && ShowsAt(r.cards, t, at, active.id)
      && (at < |Siblings(cards, active, t)| ==> NextIs(r.cards, t, at, Siblings(cards, active, t)[at].id))
      && Dense(CardsForList(r.cards, active.listId))
      && OthersUnchanged(cards, r.cards, t, active.listId)
  {
    AcrossShowsLists(cards, active, t, at);
    SplicedLayout(cards, active, t, at);
    SplicedAt(cards, active, t, at);
    if at < |Siblings(cards, active, t)| {
      SplicedAfter(cards, active, t, at);
    }
    RemainingFacts(cards, active);
  }

  /** An insertion into the dragged card's own list: the list shows the card
      at that index, renumbered densely; every other list is unchanged; no card
      is lost or duplicated; the first write moves the dragged card. */
  lemma InsertWithinEffect(cards: seq<Card>, active: Card, at: int)
    requires UniqueIds(cards) && active in cards
    requires 0 <= at <= |Siblings(cards, active, active.listId)|
    ensures var r := Insert(cards, cards, active, active.listId, at);
      && ShowsAt(r.cards, active.listId, at, active.id)
      && CardsForList(r.cards, active.listId) == Spliced(cards, active, active.listId, at)
      && OthersUnchanged(cards, r.cards, active.listId, active.listId)
      && KeepsCards(cards, r.cards, active.id)
      && |r.log| > 0 && r.log[0] == MoveToList(active.id, active.listId, at)
  {
    WithinShowsList(cards, active, at);
    WithinIds(cards, active, at);
    WithinContent(cards, active, at);
    SplicedLayout(cards, active, active.listId, at);
    SplicedAt(cards, active, active.listId, at);
    InsertLogHead(cards, cards, active, active.listId, at);
  }
}
