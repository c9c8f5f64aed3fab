/** One column of the board (src/components/board/List.tsx): renaming it from
    its header, its menu, and the ids it registers with the drag-and-drop
    context. The rename and delete it asks for are carried out by the board
    page (`BoardOps.RenameList`, `BoardOps.DeleteList`). */
module ListView {
  import opened Records
  import opened Text
  import opened CardOrder
  import Drag
  import BoardOps

  /** The header's state: the list it shows, the title draft, whether the
      title is being edited, and whether the menu is open. */
  datatype Header = Header(list: List, title: string, editing: bool, menu: bool)

  /** The header as first rendered (lines 25-27). */
  function Open(l: List): (r: Header)
    ensures r.list == l && r.title == l.title && !r.editing && !r.menu
  {
    Header(l, l.title, false, false)
  }

  /** What a handler does: the new state, the title passed to `onRename` (if
      any), and whether `onDelete` ran. */
  datatype Emit = Emit(header: Header, rename: Option<string>, deleted: bool)

  /** `handleTitleSave`: a draft that is not blank and differs from the list's
      title is sent trimmed; otherwise the draft goes back to the list's
      title. Editing ends either way. */
  function TitleSave(h: Header): (r: Emit)
    ensures !r.header.editing && !r.deleted
    ensures r.header.list == h.list && r.header.menu == h.menu
    ensures r.rename.Some? <==> !AllSpace(h.title) && h.title != h.list.title
    ensures r.rename.Some? ==> r.rename.value == Trim(h.title) && r.header.title == h.title
    ensures r.rename.None? ==> r.header.title == h.list.title
    ensures r.rename.Some? ==> r.rename.value != "" && Tight(r.rename.value)
  {
    var t := Trim(h.title);
    if t != "" && h.title != h.list.title then Emit(h.(editing := false), Some(t), false)
    else Emit(h.(title := h.list.title, editing := false), None, false)
  }

  /** `handleKeyDown`: Enter saves; Escape puts the draft back and ends
      editing without saving. */
  function TitleKey(h: Header, key: BoardOps.Key): (r: Emit)
    ensures key.name == "Enter" ==> r == TitleSave(h)
    ensures key.name == "Escape" ==> r == Emit(h.(title := h.list.title, editing := false), None, false)
    ensures key.name != "Enter" && key.name != "Escape" ==> r == Emit(h, None, false)
  {
    if key.name == "Enter" then TitleSave(h)
    else if key.name == "Escape" then Emit(h.(title := h.list.title, editing := false), None, false)
    else Emit(h, None, false)
  }

  /** After a save that did not rename, and after Escape, the draft is the
      list's title again, so a further save sends nothing. */
  lemma UnsavedDraftIsReset(h: Header, key: BoardOps.Key)
    ensures TitleSave(h).rename.None? ==> TitleSave(TitleSave(h).header).rename.None?
    ensures key.name == "Escape" ==> TitleKey(h, key).rename.None? && TitleSave(TitleKey(h, key).header).rename.None?
  {
  }

  /** Once the board page has stored the new title, saving the same draft
      again sends nothing or the same title, and the board shows exactly the
      trimmed draft. */
  lemma RenameSettles(p: BoardOps.Page, h: Header, i: int)
    requires 0 <= i < |p.lists| && p.lists[i] == h.list
    requires TitleSave(h).rename.Some?
    ensures var t := TitleSave(h).rename.value;
      var q := BoardOps.RenameList(p, h.list.id, t, false).page;
      && q.lists[i].title == Trim(h.title)
      && var again := TitleSave(h.(list := q.lists[i])).rename;
         again.None? || again == Some(t)
  {
  }

  /** The header's menu: the toggle button, the backdrop, and its two entries. */
  datatype MenuAction = Toggle | Backdrop | Rename | Delete

  /** Lines 80-115: Rename closes the menu and starts editing, Delete closes
      it and asks the board to delete the list; the entries exist only while
      the menu is open. */
  function Menu(h: Header, a: MenuAction): (r: Emit)
    ensures r.deleted <==> a.Delete? && h.menu
    ensures r.rename.None? && r.header.list == h.list && r.header.title == h.title
    ensures a.Toggle? ==> r.header.menu == !h.menu
    ensures !a.Toggle? ==> !r.header.menu
    ensures r.header.editing == (h.editing || (a.Rename? && h.menu))
  {
    match a
    case Toggle => Emit(h.(menu := !h.menu), None, false)
    case Backdrop => Emit(h.(menu := false), None, false)
    case Rename => if h.menu then Emit(h.(menu := false, editing := true), None, false) else Emit(h, None, false)
    case Delete => if h.menu then Emit(h.(menu := false), None, true) else Emit(h, None, false)
  }

  /** A list is deleted only from an open menu, so it always takes the toggle
      first: from a closed menu a single action never deletes. */
  lemma DeleteNeedsOpenMenu(h: Header, a: MenuAction, b: MenuAction)
    requires !h.menu
    ensures !Menu(h, a).deleted
    ensures Menu(Menu(h, a).header, b).deleted ==> a.Toggle? && b.Delete?
  {
  }

  // ---------------------------------------------------------------------------
  // What the column registers for dragging (lines 29-31 and 127-128)

  /** The droppable area of the column is registered under the list's id. */
  function DropTarget(l: List): Id {
    l.id
  }

  /** The sortable items of the column: its cards' ids, in the order shown. */
  function SortableItems(cards: seq<Card>): (r: seq<Id>)
    ensures |r| == |cards|
    ensures forall i :: 0 <= i < |r| ==> r[i] == cards[i].id
  {
    Ids(cards)
  }

  /** On a board whose ids are distinct, the id the drop lands on tells the
      drag handlers what was hit: a column's id is no card's, an item of a
      column is no column's, and two items of a column differ. */
  lemma OverIdsDistinguishable(cards: seq<Card>, lists: seq<List>, k: int, l: Id)
    requires Drag.ValidBoard(cards, lists) && 0 <= k < |lists|
    ensures forall c :: c in cards ==> c.id != DropTarget(lists[k])
    ensures var items := SortableItems(CardsForList(cards, l));
      && (forall i, m :: 0 <= i < |items| && 0 <= m < |lists| ==> items[i] != DropTarget(lists[m]))
      && (forall i, j :: 0 <= i < j < |items| ==> items[i] != items[j])
  {
    NoCardIsColumn(cards, lists, k);
    ShownNotColumns(cards, lists, l);
    forall i, j | 0 <= i < j < |CardsForList(cards, l)|
      ensures CardsForList(cards, l)[i].id != CardsForList(cards, l)[j].id
    {
      ShownIdsDistinct(cards, l, i, j);
    }
  }

  lemma NoCardIsColumn(cards: seq<Card>, lists: seq<List>, k: int)
    requires Drag.ValidBoard(cards, lists) && 0 <= k < |lists|
    ensures forall c :: c in cards ==> c.id != DropTarget(lists[k])
  {
    forall c | c in cards
      ensures c.id != lists[k].id
    {
      var i :| 0 <= i < |cards| && cards[i] == c;
    }
  }

  lemma ShownNotColumns(cards: seq<Card>, lists: seq<List>, l: Id)
    requires Drag.ValidBoard(cards, lists)
    ensures var shown := CardsForList(cards, l);
      forall i, m :: 0 <= i < |shown| && 0 <= m < |lists| ==> shown[i].id != lists[m].id
  {
    var shown := CardsForList(cards, l);
    forall i, m | 0 <= i < |shown| && 0 <= m < |lists|
      ensures shown[i].id != lists[m].id
    {
      var a :| 0 <= a < |cards| && cards[a] == shown[i];
    }
  }

  lemma ShownIdsDistinct(cards: seq<Card>, l: Id, i: int, j: int)
    requires UniqueIds(cards)
    requires 0 <= i < j < |CardsForList(cards, l)|
    ensures CardsForList(cards, l)[i].id != CardsForList(cards, l)[j].id
  {
    var shown := CardsForList(cards, l);
    CardsForListMembers(cards, l, shown[i]);
    CardsForListMembers(cards, l, shown[j]);
    var a :| 0 <= a < |cards| && cards[a] == shown[i];
    var b :| 0 <= b < |cards| && cards[b] == shown[j];
    OnceInUnique(cards, a);
    OnceAt(shown, i, j);
  }

  /** With distinct ids, each card occurs once. */
  lemma OnceInUnique(cards: seq<Card>, a: int)
    requires UniqueIds(cards) && 0 <= a < |cards|
    ensures multiset(cards)[cards[a]] == 1
  {
    var x := cards[a];
    assert cards == cards[..a] + [x] + cards[a + 1..];
    assert x !in cards[..a] by {
      forall k | 0 <= k < a
        ensures cards[..a][k] != x
      {
        assert cards[..a][k] == cards[k];
      }
    }
    var after := cards[a + 1..];
    assert x !in after by {
      forall k | 0 <= k < |after|
        ensures after[k] != x
      {
        assert after[k] == cards[a + 1 + k];
      }
    }
  }

  /** An element that occurs once is found at no second index. */
  lemma OnceAt<T>(s: seq<T>, i: int, j: int)
    requires 0 <= i < |s| && 0 <= j < |s| && i != j
    requires multiset(s)[s[i]] == 1
    ensures s[j] != s[i]
  {
    var x := s[i];
    assert s == s[..i] + [x] + s[i + 1..];
    assert multiset(s[..i])[x] == 0 && multiset(s[i + 1..])[x] == 0;
    if j < i {
      assert s[j] == s[..i][j];
    } else {
      assert s[j] == s[i + 1..][j - i - 1];
    }
  }
}
