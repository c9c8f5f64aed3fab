/** The position model of the board (src/pages/Board.tsx): how a list's cards
    are selected and ordered (`getCardsForList`), how a list is renumbered
    densely after a move, dnd-kit's `arrayMove`, and JavaScript's index
    normalisation for `slice`/`splice`. */
module CardOrder {
  import opened Records
  import opened Seqs

  // ---------------------------------------------------------------------------
  // Card selectors, one per filter predicate used by the handlers

  function InList(l: Id): Card -> bool { (c: Card) => c.listId == l }
  function NotInList(l: Id): Card -> bool { (c: Card) => c.listId != l }
  function InListExcept(l: Id, a: Id): Card -> bool { (c: Card) => c.listId == l && c.id != a }
  function NotInListExcept(l: Id, a: Id): Card -> bool { (c: Card) => c.listId != l && c.id != a }
  /** Keeps a card unless it sits in list `src` and is not the card `a`. */
  function OutsideSource(src: Id, a: Id): Card -> bool { (c: Card) => c.listId != src || c.id == a }
  function OutsideLists(t: Id, src: Id): Card -> bool { (c: Card) => c.listId != t && c.listId != src }
  function HasId(a: Id): Card -> bool { (c: Card) => c.id == a }
  function NotId(a: Id): Card -> bool { (c: Card) => c.id != a }
  function ListHasId(id: Id): List -> bool { (l: List) => l.id == id }

  // ---------------------------------------------------------------------------
  // Lookup by id

  function Ids(s: seq<Card>): seq<Id> {
    seq(|s|, i requires 0 <= i < |s| => s[i].id)
  }

  predicate UniqueIds(s: seq<Card>) {
    forall i, j :: 0 <= i < j < |s| ==> s[i].id != s[j].id
  }

  /** `s.findIndex(c => c.id === id)`. */
  function IndexOfId(s: seq<Card>, id: Id): (r: int)
    ensures -1 <= r < |s|
    ensures r == -1 <==> forall i :: 0 <= i < |s| ==> s[i].id != id
    ensures r >= 0 ==> s[r].id == id && forall j :: 0 <= j < r ==> s[j].id != id
  {
    IndexWhere(s, HasId(id))
  }

  /** `cards.find(c => c.id === id)`: the first card carrying `id`. */
  function FindCard(s: seq<Card>, id: Id): (r: Option<Card>)
    ensures r.None? <==> forall i :: 0 <= i < |s| ==> s[i].id != id
    ensures r.Some? ==> r.value in s && r.value.id == id
    ensures r.Some? ==> exists i :: 0 <= i < |s| && s[i] == r.value
                                    && forall j :: 0 <= j < i ==> s[j].id != id
  {
    var i := IndexOfId(s, id);
    if i < 0 then None else Some(s[i])
  }

  /** `lists.find(l => l.id === id)`. */
  function FindList(s: seq<List>, id: Id): (r: Option<List>)
    ensures r.None? <==> forall i :: 0 <= i < |s| ==> s[i].id != id
    ensures r.Some? ==> r.value in s && r.value.id == id
  {
    var i := IndexWhere(s, ListHasId(id));
    if i < 0 then None else Some(s[i])
  }

  lemma FindUnique(s: seq<Card>, c: Card)
    requires UniqueIds(s) && c in s
    ensures FindCard(s, c.id) == Some(c)
    ensures Filter(s, HasId(c.id)) == [c]
  {
    var k :| 0 <= k < |s| && s[k] == c;
    var i := IndexOfId(s, c.id);
    assert i == k;
    FilterOnlyOne(s, k);
  }

  lemma {:induction false} FilterOnlyOne(s: seq<Card>, k: nat)
    requires UniqueIds(s) && k < |s|
    ensures Filter(s, HasId(s[k].id)) == [s[k]]
    decreases |s|
  {
    var a := s[k].id;
    if k == 0 {
      FilterNone(s[1..], HasId(a));
    } else {
      FilterOnlyOne(s[1..], k - 1);
    }
  }

  lemma {:induction false} IdsConcat(s: seq<Card>, t: seq<Card>)
    ensures Ids(s + t) == Ids(s) + Ids(t)
  {
  }

  /** Reordering cards reorders their ids. */
  lemma {:induction false} IdsMultiset(s: seq<Card>, t: seq<Card>)
    requires multiset(s) == multiset(t)
    ensures multiset(Ids(s)) == multiset(Ids(t))
    decreases |s|
  {
    if |s| == 0 {
      assert |t| == |multiset(t)| == 0;
    } else {
      var x := s[0];
      assert x in multiset(t);
      var i :| 0 <= i < |t| && t[i] == x;
      var t' := t[..i] + t[i + 1..];
      assert t == t[..i] + [x] + t[i + 1..];
      assert s == [x] + s[1..];
      assert multiset(t) == multiset(t[..i]) + multiset{x} + multiset(t[i + 1..]);
      assert multiset(t') == multiset(t[..i]) + multiset(t[i + 1..]);
      assert multiset(s) == multiset{x} + multiset(s[1..]);
      assert multiset(s[1..]) == multiset(s) - multiset{x};
      assert multiset(t') == multiset(t) - multiset{x};
      IdsMultiset(s[1..], t');
      IdsConcat([x], s[1..]);
      IdsConcat(t[..i] + [x], t[i + 1..]);
      IdsConcat(t[..i], [x]);
      IdsConcat(t[..i], t[i + 1..]);
    }
  }

  // ---------------------------------------------------------------------------
  // Sorting by position (`.sort((a, b) => a.position - b.position)`, a stable sort)

  predicate SortedByPosition(s: seq<Card>) {
    forall i, j :: 0 <= i < j < |s| ==> s[i].position <= s[j].position
  }

  /** Inserts `c` before the first card whose position is not smaller, so that a
      card that came earlier stays ahead of later cards with the same position. */
  function InsertByPosition(c: Card, s: seq<Card>): (r: seq<Card>)
    ensures SortedByPosition(s) ==> SortedByPosition(r)
    ensures multiset(r) == multiset(s) + multiset{c}
    ensures forall k :: 0 <= k < |r| ==> r[k] == c || r[k] in s
  {
    if |s| == 0 then [c]
    else if c.position <= s[0].position then
      assert SortedByPosition(s) ==> SortedByPosition([c] + s) by {
        if SortedByPosition(s) {
          SortedCons(c, s);
        }
      }
      [c] + s
    else
      var rest := InsertByPosition(c, s[1..]);
      InsertStep(c, s, rest);
      assert SortedByPosition(s) ==> SortedByPosition([s[0]] + rest) by {
        if SortedByPosition(s) {
          SortedTail(s);
          InsertStepSorted(c, s, rest);
        }
      }
      [s[0]] + rest
  }

  /** The tail of a sorted sequence is sorted. */
  lemma SortedTail(s: seq<Card>)
    requires SortedByPosition(s) && |s| > 0
    ensures SortedByPosition(s[1..])
  {
    forall i, j | 0 <= i < j < |s[1..]|
      ensures s[1..][i].position <= s[1..][j].position
    {
      assert s[1..][i] == s[i + 1] && s[1..][j] == s[j + 1];
    }
  }

  /** A card no later than every card of a sorted sequence can go in front. */
  lemma SortedCons(h: Card, r: seq<Card>)
    requires SortedByPosition(r)
    requires forall i :: 0 <= i < |r| ==> h.position <= r[i].position
    ensures SortedByPosition([h] + r)
  {
    var u := [h] + r;
    forall i, j | 0 <= i < j < |u|
      ensures u[i].position <= u[j].position
    {
      assert u[j] == r[j - 1];
      if i > 0 {
        assert u[i] == r[i - 1];
      }
    }
  }

  /** Cards taken from the tail of a sorted sequence are not before its head. */
  lemma HeadBound(s: seq<Card>, t: seq<Card>)
    requires SortedByPosition(s) && |s| > 0
    requires forall i :: 0 <= i < |t| ==> t[i] in s[1..]
    ensures forall i :: 0 <= i < |t| ==> s[0].position <= t[i].position
  {
    forall i | 0 <= i < |t|
      ensures s[0].position <= t[i].position
    {
      var j :| 0 <= j < |s[1..]| && s[1..][j] == t[i];
      assert s[1..][j] == s[j + 1];
    }
  }

  /** Putting the head back in front of an insertion into the tail keeps the
      contents right. */
  lemma InsertStep(c: Card, s: seq<Card>, rest: seq<Card>)
    requires |s| > 0
    requires multiset(rest) == multiset(s[1..]) + multiset{c}
    requires forall k :: 0 <= k < |rest| ==> rest[k] == c || rest[k] in s[1..]
    ensures multiset([s[0]] + rest) == multiset(s) + multiset{c}
    ensures forall k :: 0 <= k < |[s[0]] + rest| ==> ([s[0]] + rest)[k] == c || ([s[0]] + rest)[k] in s
  {
    assert s == [s[0]] + s[1..];
    var u := [s[0]] + rest;
    forall k | 0 <= k < |u|
      ensures u[k] == c || u[k] in s
    {
      if k > 0 && u[k] != c {
        assert u[k] == rest[k - 1] && rest[k - 1] in s[1..];
      }
    }
  }

  /** ... and keeps it sorted when `c` goes behind the head. */
  lemma InsertStepSorted(c: Card, s: seq<Card>, rest: seq<Card>)
    requires SortedByPosition(s) && |s| > 0 && c.position > s[0].position
    requires SortedByPosition(rest)
    requires forall k :: 0 <= k < |rest| ==> rest[k] == c || rest[k] in s[1..]
    ensures SortedByPosition([s[0]] + rest)
  {
    forall k | 0 <= k < |rest|
      ensures s[0].position <= rest[k].position
    {
      if rest[k] != c {
        var j :| 0 <= j < |s[1..]| && s[1..][j] == rest[k];
        assert s[1..][j] == s[j + 1];
      }
    }
    SortedCons(s[0], rest);
  }

  function SortByPosition(s: seq<Card>): (r: seq<Card>)
    ensures SortedByPosition(r)
    ensures multiset(r) == multiset(s)
    ensures |r| == |s|
    ensures forall i :: 0 <= i < |r| ==> r[i] in s
  {
    if |s| == 0 then []
    else
      assert s == [s[0]] + s[1..];
      var r := InsertByPosition(s[0], SortByPosition(s[1..]));
      assert forall i :: 0 <= i < |r| ==> r[i] in multiset(r);
      r
  }

  /** A stable sort leaves an already ordered sequence alone. */
  lemma {:induction false} SortKeepsSorted(s: seq<Card>)
    requires SortedByPosition(s)
    ensures SortByPosition(s) == s
    decreases |s|
  {
    if |s| > 0 {
      SortKeepsSorted(s[1..]);
    }
  }

  /** Holds for the cards at position `p`. */
  function AtPosition(p: int): Card -> bool { (c: Card) => c.position == p }

  /** The sort is stable: the cards sharing any one position come out in the
      order they went in. */
  lemma SortStable(s: seq<Card>, p: int)
    ensures Filter(SortByPosition(s), AtPosition(p)) == Filter(s, AtPosition(p))
  {
    var same := Filter(s, AtPosition(p));
    SortFilter(s, AtPosition(p));
    assert SortedByPosition(same) by {
      forall i, j | 0 <= i < j < |same|
        ensures same[i].position <= same[j].position
      {
        assert AtPosition(p)(same[i]) && AtPosition(p)(same[j]);
      }
    }
    SortKeepsSorted(same);
  }

  // ---------------------------------------------------------------------------
  // How the stable sort interacts with filtering and appending

  lemma {:induction false} FilterSorted(s: seq<Card>, p: Card -> bool)
    requires SortedByPosition(s)
    ensures SortedByPosition(Filter(s, p))
    decreases |s|
  {
    if |s| > 0 {
      SortedTail(s);
      FilterSorted(s[1..], p);
      var rest := Filter(s[1..], p);
      HeadBound(s, rest);
      if p(s[0]) {
        SortedCons(s[0], rest);
      }
      FilterHead(s, p);
    }
  }

  /** Filtering commutes with inserting into a sorted sequence. */
  lemma {:induction false} InsertFilter(x: Card, t: seq<Card>, p: Card -> bool)
    requires SortedByPosition(t)
    ensures SortedByPosition(Filter(t, p))
    ensures Filter(InsertByPosition(x, t), p) ==
      if p(x) then InsertByPosition(x, Filter(t, p)) else Filter(t, p)
    decreases |t|
  {
    FilterSorted(t, p);
    if |t| == 0 {
    } else if x.position <= t[0].position {
      InsertFilterFront(x, t, p);
    } else {
      InsertFilter(x, t[1..], p);
      InsertFilterLater(x, t, p);
    }
  }

  lemma InsertFilterFront(x: Card, t: seq<Card>, p: Card -> bool)
    requires SortedByPosition(t) && |t| > 0 && x.position <= t[0].position
    ensures SortedByPosition(Filter(t, p))
    ensures Filter(InsertByPosition(x, t), p) ==
      if p(x) then InsertByPosition(x, Filter(t, p)) else Filter(t, p)
  {
    FilterSorted(t, p);
    var ft := Filter(t, p);
    assert A: Filter(InsertByPosition(x, t), p) == (if p(x) then [x] else []) + ft by {
      var ins := InsertByPosition(x, t);
      assert ins == [x] + t;
      assert ins[0] == x && ins[1..] == t;
    }
    if p(x) {
      assert InsertByPosition(x, ft) == [x] + ft by {
        if |ft| > 0 {
          assert ft[0] in t;
        }
      }
    }
  }

  lemma InsertFilterLater(x: Card, t: seq<Card>, p: Card -> bool)
    requires SortedByPosition(t) && |t| > 0 && x.position > t[0].position
    requires SortedByPosition(Filter(t[1..], p))
    requires Filter(InsertByPosition(x, t[1..]), p) ==
      if p(x) then InsertByPosition(x, Filter(t[1..], p)) else Filter(t[1..], p)
    ensures SortedByPosition(Filter(t, p))
    ensures Filter(InsertByPosition(x, t), p) ==
      if p(x) then InsertByPosition(x, Filter(t, p)) else Filter(t, p)
  {
    var ins := InsertByPosition(x, t[1..]);
    var head := if p(t[0]) then [t[0]] else [];
    var ft1 := Filter(t[1..], p);
    assert SortedByPosition(Filter(t, p)) by {
      FilterSorted(t, p);
    }
    assert Filter(t, p) == head + ft1 by {
      FilterHead(t, p);
    }
    assert InsertByPosition(x, t) == [t[0]] + ins by {
      InsertLater(x, t);
    }
    FilterCons(t[0], ins, p);
    InsertBehindHead(x, t[0], ft1, Filter(ins, p), p(x), p(t[0]));
  }

  lemma InsertLater(x: Card, t: seq<Card>)
    requires |t| > 0 && x.position > t[0].position
    ensures InsertByPosition(x, t) == [t[0]] + InsertByPosition(x, t[1..])
  {
  }

  lemma FilterHead<T>(s: seq<T>, p: T -> bool)
    requires |s| > 0
    ensures Filter(s, p) == (if p(s[0]) then [s[0]] else []) + Filter(s[1..], p)
  {
  }

  lemma FilterCons<T>(h: T, s: seq<T>, p: T -> bool)
    ensures Filter([h] + s, p) == (if p(h) then [h] else []) + Filter(s, p)
  {
    FilterHead([h] + s, p);
    assert ([h] + s)[0] == h && ([h] + s)[1..] == s;
  }

  /** Inserting behind a smaller first element inserts into the rest. */
  lemma InsertBehindHead(x: Card, h: Card, rest: seq<Card>, inserted: seq<Card>, keepX: bool, keepH: bool)
    requires x.position > h.position
    requires SortedByPosition(rest)
    requires SortedByPosition((if keepH then [h] else []) + rest)
    requires inserted == if keepX then InsertByPosition(x, rest) else rest
    ensures var head := if keepH then [h] else [];
      head + inserted == if keepX then InsertByPosition(x, head + rest) else head + rest
  {
    if keepH && keepX {
      var s := [h] + rest;
      assert s[0] == h && s[1..] == rest;
      assert InsertByPosition(x, s) == [h] + InsertByPosition(x, rest);
    } else if keepX {
      NilAppend(rest);
      NilAppend(inserted);
    } else if keepH {
    } else {
      NilAppend(rest);
    }
  }

  /** The stable sort commutes with filtering. */
  lemma {:induction false} SortFilter(s: seq<Card>, p: Card -> bool)
    ensures SortByPosition(Filter(s, p)) == Filter(SortByPosition(s), p)
    decreases |s|
  {
    if |s| > 0 {
      SortFilter(s[1..], p);
      InsertFilter(s[0], SortByPosition(s[1..]), p);
      var f := Filter(s, p);
      if p(s[0]) {
        assert f[0] == s[0] && f[1..] == Filter(s[1..], p);
      } else {
        assert f == Filter(s[1..], p);
      }
    }
  }

  lemma {:induction false} InsertBeforeLast(x: Card, t: seq<Card>, d: Card)
    requires x.position <= d.position
    ensures InsertByPosition(x, t + [d]) == InsertByPosition(x, t) + [d]
    decreases |t|
  {
    var u := t + [d];
    if |t| == 0 {
      assert u == [d];
    } else if x.position <= t[0].position {
      assert u[0] == t[0];
    } else {
      assert u[0] == t[0] && u[1..] == t[1..] + [d];
      InsertBeforeLast(x, t[1..], d);
      var mid := InsertByPosition(x, t[1..]);
      assert InsertByPosition(x, u) == [t[0]] + (mid + [d]) by {
        InsertLater(x, u);
      }
      assert InsertByPosition(x, t) == [t[0]] + mid by {
        InsertLater(x, t);
      }
      assert [t[0]] + (mid + [d]) == ([t[0]] + mid) + [d];
    }
  }

  /** Appending a card whose position is not below any other appends it to the
      sorted order as well. */
  lemma {:induction false} SortAppend(s: seq<Card>, d: Card)
    requires forall i :: 0 <= i < |s| ==> s[i].position <= d.position
    ensures SortByPosition(s + [d]) == SortByPosition(s) + [d]
    decreases |s|
  {
    if |s| == 0 {
      assert s + [d] == [d];
    } else {
      assert (s + [d])[0] == s[0];
      assert (s + [d])[1..] == s[1..] + [d];
      SortAppend(s[1..], d);
      InsertBeforeLast(s[0], SortByPosition(s[1..]), d);
    }
  }

  /** `getCardsForList(l)` (src/pages/Board.tsx:100-103): exactly the cards of
      list `l`, each as often as it occurs in `cards`, in position order. */
  function CardsForList(cards: seq<Card>, l: Id): (r: seq<Card>)
    ensures SortedByPosition(r)
    ensures multiset(r) == multiset(Filter(cards, InList(l)))
    ensures forall c :: multiset(r)[c] == if c.listId == l then multiset(cards)[c] else 0
    ensures forall i :: 0 <= i < |r| ==> r[i].listId == l && r[i] in cards
  {
    var f := Filter(cards, InList(l));
    FilterCountAll(cards, InList(l));
    var r := SortByPosition(f);
    SameBagInList(cards, l, f, r);
    r
  }

  /** A rearrangement of the cards of list `l` holds only cards of `l` taken
      from `cards`. */
  lemma SameBagInList(cards: seq<Card>, l: Id, f: seq<Card>, r: seq<Card>)
    requires multiset(r) == multiset(f)
    requires forall c :: multiset(f)[c] == if c.listId == l then multiset(cards)[c] else 0
    ensures forall c :: multiset(r)[c] == if c.listId == l then multiset(cards)[c] else 0
    ensures forall i :: 0 <= i < |r| ==> r[i].listId == l && r[i] in cards
  {
    forall i | 0 <= i < |r|
      ensures r[i].listId == l && r[i] in cards
    {
      assert r[i] in multiset(r);
    }
  }

  lemma CardsForListMembers(cards: seq<Card>, l: Id, c: Card)
    ensures c in CardsForList(cards, l) <==> c in cards && c.listId == l
  {
    assert c in CardsForList(cards, l) <==> c in multiset(CardsForList(cards, l));
  }

  /** Appending a card of list `l` whose position is not below any other card
      of `l` adds it at the end of what `l` shows. */
  lemma AppendShown(cards: seq<Card>, row: Card, l: Id)
    requires row.listId == l
    requires forall i :: 0 <= i < |cards| && cards[i].listId == l ==> cards[i].position <= row.position
    ensures CardsForList(cards + [row], l) == CardsForList(cards, l) + [row]
  {
    var f := Filter(cards, InList(l));
    FilterConcat(cards, [row], InList(l));
    assert Filter([row], InList(l)) == [row];
    assert forall i :: 0 <= i < |f| ==> f[i] in cards && f[i].listId == l;
    SortAppend(f, row);
  }

  /** Appending a card of another list leaves what `l` shows alone. */
  lemma AppendOther(cards: seq<Card>, row: Card, l: Id)
    requires row.listId != l
    ensures CardsForList(cards + [row], l) == CardsForList(cards, l)
  {
    FilterConcat(cards, [row], InList(l));
    assert Filter([row], InList(l)) == [];
    assert Filter(cards + [row], InList(l)) == Filter(cards, InList(l));
  }

  // ---------------------------------------------------------------------------
  // Dense renumbering

  /** Every card's position is its index: positions are exactly 0..|s|-1. */
  predicate Dense(s: seq<Card>) {
    forall i :: 0 <= i < |s| ==> s[i].position == i
  }

  /** `.map((c, i) => ({ ...c, position: i }))`. */
  function Renumber(s: seq<Card>): (r: seq<Card>)
    ensures |r| == |s| && Dense(r)
    ensures Ids(r) == Ids(s)
    ensures forall i :: 0 <= i < |s| ==> SameContent(s[i], r[i]) && r[i].listId == s[i].listId
  {
    seq(|s|, i requires 0 <= i < |s| => s[i].(position := i))
  }

  /** A card numbered with the length extends a dense sequence. */
  lemma DenseAppend(s: seq<Card>, c: Card)
    requires Dense(s) && c.position == |s|
    ensures Dense(s + [c])
  {
    assert forall i :: 0 <= i < |s| ==> (s + [c])[i] == s[i];
  }

  lemma DenseIsSorted(s: seq<Card>)
    requires Dense(s)
    ensures SortedByPosition(s)
  {
  }

  /** Renumbering is idempotent: a dense list is its own renumbering. */
  lemma RenumberDense(s: seq<Card>)
    requires Dense(s)
    ensures Renumber(s) == s
  {
  }

  lemma RenumberMultisetIds(s: seq<Card>, t: seq<Card>)
    requires multiset(s) == multiset(t)
    ensures multiset(Ids(Renumber(s))) == multiset(Ids(t))
  {
    IdsMultiset(s, t);
  }

  // ---------------------------------------------------------------------------
  // JavaScript index arithmetic

  /** How `slice` and `splice` normalise an index against a length: a negative
      index counts from the end, and the result is clamped to 0..len. */
  function JsIndex(len: nat, k: int): (r: nat)
    ensures r <= len
    ensures 0 <= k <= len ==> r == k
    ensures k > len ==> r == len
    ensures k < 0 ==> r == if len + k < 0 then 0 else len + k
  {
    if k < 0 then (if len + k < 0 then 0 else len + k)
    else if k > len then len
    else k
  }

  /** `s.slice(0, k)`. */
  function Take<T>(s: seq<T>, k: int): seq<T> {
    s[..JsIndex(|s|, k)]
  }

  /** `s.slice(k)`. */
  function Drop<T>(s: seq<T>, k: int): seq<T> {
    s[JsIndex(|s|, k)..]
  }

  lemma TakeDrop<T>(s: seq<T>, k: int)
    ensures Take(s, k) + Drop(s, k) == s
  {
    assert s == s[..JsIndex(|s|, k)] + s[JsIndex(|s|, k)..];
  }

  /** dnd-kit's `arrayMove(array, from, to)`: take the element out of a copy with
      `splice(from, 1)` and put it back with `splice(to, 0, element)`, where a
      negative `to` is first rebased on the original length. */
  function ArrayMove<T(==)>(s: seq<T>, from: int, to: int): (r: seq<T>)
    requires 0 <= from < |s|
    ensures |r| == |s|
    ensures multiset(r) == multiset(s)
    ensures 0 <= to < |s| ==> r[to] == s[from] && r[..to] + r[to + 1..] == s[..from] + s[from + 1..]
  {
    var rest := s[..from] + s[from + 1..];
    var start := if to < 0 then |s| + to else to;
    var k := JsIndex(|rest|, start);
    RemoveAt(s, from);
    InsertAt(rest, k, s[from]);
    rest[..k] + [s[from]] + rest[k..]
  }

  /** Taking out the element at `i` leaves the others. */
  lemma RemoveAt<T>(s: seq<T>, i: int)
    requires 0 <= i < |s|
    ensures multiset(s) == multiset(s[..i] + s[i + 1..]) + multiset{s[i]}
  {
    assert s == s[..i] + [s[i]] + s[i + 1..];
  }

  /** Putting `x` in at `k` puts it at index `k` and keeps the others around it. */
  lemma InsertAt<T>(rest: seq<T>, k: int, x: T)
    requires 0 <= k <= |rest|
    ensures var r := rest[..k] + [x] + rest[k..];
      && |r| == |rest| + 1 && r[k] == x
      && multiset(r) == multiset(rest) + multiset{x}
      && r[..k] + r[k + 1..] == rest
  {
    var r := rest[..k] + [x] + rest[k..];
    assert r[..k] == rest[..k] && r[k + 1..] == rest[k..];
    assert rest == rest[..k] + rest[k..];
  }
}
