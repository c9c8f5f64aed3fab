/** The list of a user's boards (src/pages/Dashboard.tsx): loading it, and
    creating, renaming and deleting boards through the three dialogs, which
    share one title field. */
module Dashboard {
  import opened Records
  import opened Seqs
  import opened Text

  /** The page's state. `title` is the text field of the create and rename
      dialogs; `selected` is the board the rename or delete dialog is about. */
  datatype Dash = Dash(
    boards: seq<Board>,
    loading: bool,
    createOpen: bool,
    renameOpen: bool,
    deleteOpen: bool,
    selected: Option<Board>,
    title: string,
    submitting: bool)

  /** The page as first rendered (lines 14-21). */
  const Initial := Dash([], true, false, false, false, None, "", false)

  /** A write sent to the store. */
  datatype Request =
    | InsertBoard(title: string, userId: Id)
    | RenameBoardRow(boardId: Id, title: string)
    | DeleteBoardRow(boardId: Id)

  datatype Step = Step(dash: Dash, request: Option<Request>)

  /** Newest first: the order the boards are fetched in. */
  predicate NewestFirst(bs: seq<Board>) {
    forall i, j :: 0 <= i < j < |bs| ==> bs[i].createdAt >= bs[j].createdAt
  }

  /** `fetchBoards`: nothing without a user; otherwise the reply's rows (none
      for an empty reply) replace the boards unless the call failed, and
      loading ends. */
  function FetchBoards(d: Dash, user: Option<Id>, reply: Reply<seq<Board>>): (r: Dash)
    ensures user.None? ==> r == d
    ensures user.Some? ==> !r.loading
    ensures user.Some? && reply.failed ==> r == d.(loading := false)
    ensures user.Some? && !reply.failed ==> r.boards == (if reply.data.Some? then reply.data.value else [])
  {
    if user.None? then d
    else if reply.failed then d.(loading := false)
    else d.(boards := if reply.data.Some? then reply.data.value else [], loading := false)
  }

  // ---------------------------------------------------------------------------
  // Creating (lines 45-64)

  /** `handleCreateBoard`: a blank title or a missing user is ignored; the
      trimmed title is inserted for the user, and the returned row goes in
      front, closing the dialog and emptying the field. A failed insert
      leaves the dialog open with its text. */
  function CreateBoard(d: Dash, user: Option<Id>, reply: Reply<Board>): (r: Step)
    ensures AllSpace(d.title) || user.None? ==> r == Step(d, None)
    ensures !AllSpace(d.title) && user.Some? ==>
      && r.request == Some(InsertBoard(Trim(d.title), user.value))
      && !r.dash.submitting
      && r.dash.boards == (if !reply.failed && reply.data.Some? then [reply.data.value] + d.boards else d.boards)
    ensures !AllSpace(d.title) && user.Some? && !reply.failed && reply.data.Some? ==>
      !r.dash.createOpen && r.dash.title == ""
    ensures !AllSpace(d.title) && user.Some? && (reply.failed || reply.data.None?) ==>
      r.dash == d.(submitting := false)
  {
    var t := Trim(d.title);
    if t == "" || user.None? then Step(d, None)
    else
      var request := Some(InsertBoard(t, user.value));
      if !reply.failed && reply.data.Some? then
        Step(d.(boards := [reply.data.value] + d.boards, createOpen := false, title := "", submitting := false), request)
      else Step(d.(submitting := false), request)
  }

  /** A board created after every listed board keeps the list newest first,
      and it is shown first. */
  lemma CreateKeepsNewestFirst(d: Dash, uid: Id, row: Board)
    requires NewestFirst(d.boards) && !AllSpace(d.title)
    requires forall i :: 0 <= i < |d.boards| ==> d.boards[i].createdAt <= row.createdAt
    ensures var bs := CreateBoard(d, Some(uid), Reply(false, Some(row))).dash.boards;
      NewestFirst(bs) && bs[0] == row && bs[1..] == d.boards
  {
    assert CreateBoard(d, Some(uid), Reply(false, Some(row))).dash.boards == [row] + d.boards;
    ConsNewest(row, d.boards);
  }

  lemma ConsNewest(row: Board, bs: seq<Board>)
    requires NewestFirst(bs)
    requires forall i :: 0 <= i < |bs| ==> bs[i].createdAt <= row.createdAt
    ensures NewestFirst([row] + bs) && ([row] + bs)[1..] == bs
  {
    var r := [row] + bs;
    forall i, j | 0 <= i < j < |r|
      ensures r[i].createdAt >= r[j].createdAt
    {
      assert r[j] == bs[j - 1];
      if i > 0 {
        assert r[i] == bs[i - 1];
      }
    }
  }

  // ---------------------------------------------------------------------------
  // Renaming (lines 66-87 and 108-112)

  /** The rename button of a board: the dialog opens on that board with its
      title in the field. */
  function OpenRename(d: Dash, b: Board): (r: Dash)
    ensures r.renameOpen && r.selected == Some(b) && r.title == b.title
    ensures r.boards == d.boards && r.createOpen == d.createOpen && r.deleteOpen == d.deleteOpen
    ensures r.submitting == d.submitting
  {
    d.(selected := Some(b), title := b.title, renameOpen := true)
  }

  /** The boards with the one with id `id` retitled. */
  function Retitle(bs: seq<Board>, id: Id, t: string): (r: seq<Board>)
    ensures |r| == |bs|
    ensures forall i :: 0 <= i < |bs| ==> r[i] == if bs[i].id == id then bs[i].(title := t) else bs[i]
  {
    seq(|bs|, i requires 0 <= i < |bs| => if bs[i].id == id then bs[i].(title := t) else bs[i])
  }

  /** `handleRenameBoard`: a blank title or no selected board is ignored;
      otherwise the trimmed title is written, and on success only the
      selected board's title changes, the dialog closes and both the field
      and the selection are cleared. */
  function RenameBoard(d: Dash, failed: bool): (r: Step)
    ensures AllSpace(d.title) || d.selected.None? ==> r == Step(d, None)
    ensures !AllSpace(d.title) && d.selected.Some? ==>
      r.request == Some(RenameBoardRow(d.selected.value.id, Trim(d.title))) && !r.dash.submitting
    ensures !AllSpace(d.title) && d.selected.Some? && failed ==> r.dash == d.(submitting := false)
    ensures !AllSpace(d.title) && d.selected.Some? && !failed ==>
      && r.dash.boards == Retitle(d.boards, d.selected.value.id, Trim(d.title))
      && !r.dash.renameOpen && r.dash.title == "" && r.dash.selected.None?
  {
    var t := Trim(d.title);
    if t == "" || d.selected.None? then Step(d, None)
    else
      var id := d.selected.value.id;
      var request := Some(RenameBoardRow(id, t));
      if failed then Step(d.(submitting := false), request)
      else Step(d.(boards := Retitle(d.boards, id, t), renameOpen := false, title := "", selected := None,
                   submitting := false), request)
  }

  /** A rename touches titles only: ids, owners, creation times and order are
      kept, so the list stays newest first; and renaming a board again to the
      title it now has changes nothing. */
  lemma RenameKeepsOrder(d: Dash, b: Board)
    requires NewestFirst(d.boards) && !AllSpace(d.title)
    ensures var bs := RenameBoard(OpenRename(d, b).(title := d.title), false).dash.boards;
      && NewestFirst(bs)
      && (forall i :: 0 <= i < |bs| ==>
            bs[i].id == d.boards[i].id && bs[i].createdAt == d.boards[i].createdAt && bs[i].userId == d.boards[i].userId)
      && Retitle(bs, b.id, Trim(d.title)) == bs
  {
    var t := Trim(d.title);
    assert RenameBoard(OpenRename(d, b).(title := d.title), false).dash.boards == Retitle(d.boards, b.id, t);
    RetitleKeeps(d.boards, b.id, t);
  }

  lemma RetitleKeeps(bs: seq<Board>, id: Id, t: string)
    requires NewestFirst(bs)
    ensures var r := Retitle(bs, id, t);
      && NewestFirst(r)
      && (forall i :: 0 <= i < |r| ==> r[i].id == bs[i].id && r[i].createdAt == bs[i].createdAt && r[i].userId == bs[i].userId)
      && Retitle(r, id, t) == r
  {
    var r := Retitle(bs, id, t);
    forall i, j | 0 <= i < j < |r|
      ensures r[i].createdAt >= r[j].createdAt
    {
      assert r[i].createdAt == bs[i].createdAt && r[j].createdAt == bs[j].createdAt;
    }
    var r2 := Retitle(r, id, t);
    assert |r2| == |r|;
    forall i | 0 <= i < |r|
      ensures r2[i] == r[i]
    {
    }
  }

  /** Submitting the rename dialog as it opened, without editing the field,
      writes the board's own trimmed title to that board; a board whose title
      is blank is left alone. On success a board already carrying a trimmed
      title, and the only board with its id, keeps the list as it was. */
  lemma RenameUnedited(d: Dash, b: Board, failed: bool)
    ensures var r := RenameBoard(OpenRename(d, b), failed);
      && (AllSpace(b.title) ==> r.request.None? && r.dash == OpenRename(d, b))
      && (!AllSpace(b.title) ==> r.request == Some(RenameBoardRow(b.id, Trim(b.title))))
    ensures var r := RenameBoard(OpenRename(d, b), false);
      !AllSpace(b.title) && Trim(b.title) == b.title
      && (forall i :: 0 <= i < |d.boards| && d.boards[i].id == b.id ==> d.boards[i] == b)
      ==> r.dash.boards == d.boards
  {
    var r := RenameBoard(OpenRename(d, b), false);
    if !AllSpace(b.title) && Trim(b.title) == b.title
       && (forall i :: 0 <= i < |d.boards| && d.boards[i].id == b.id ==> d.boards[i] == b)
    {
      assert r.dash.boards == Retitle(d.boards, b.id, b.title);
      assert |r.dash.boards| == |d.boards|;
      forall i | 0 <= i < |d.boards|
        ensures r.dash.boards[i] == d.boards[i]
      {
        if d.boards[i].id == b.id {
          assert d.boards[i] == b;
        }
      }
    }
  }

  // ---------------------------------------------------------------------------
  // Deleting (lines 89-106 and 114-117)

  /** The delete button of a board: the dialog opens on that board. */
  function OpenDelete(d: Dash, b: Board): (r: Dash)
    ensures r.deleteOpen && r.selected == Some(b)
    ensures r.boards == d.boards && r.title == d.title && r.createOpen == d.createOpen && r.renameOpen == d.renameOpen
    ensures r.submitting == d.submitting
  {
    d.(selected := Some(b), deleteOpen := true)
  }

  function NotBoard(id: Id): Board -> bool { (b: Board) => b.id != id }

  /** `handleDeleteBoard`: nothing without a selected board; otherwise the
      row is deleted, and on success exactly the boards with that id leave
      the list, the dialog closes and the selection is cleared. */
  function DeleteBoard(d: Dash, failed: bool): (r: Step)
    ensures d.selected.None? ==> r == Step(d, None)
    ensures d.selected.Some? ==> r.request == Some(DeleteBoardRow(d.selected.value.id)) && !r.dash.submitting
    ensures d.selected.Some? && failed ==> r.dash == d.(submitting := false)
    ensures d.selected.Some? && !failed ==>
      r.dash.boards == Filter(d.boards, NotBoard(d.selected.value.id)) && !r.dash.deleteOpen && r.dash.selected.None?
  {
    match d.selected
    case None => Step(d, None)
    case Some(b) =>
      var request := Some(DeleteBoardRow(b.id));
      if failed then Step(d.(submitting := false), request)
      else Step(d.(boards := Filter(d.boards, NotBoard(b.id)), deleteOpen := false, selected := None,
                   submitting := false), request)
  }

  /** After a delete no board has the deleted id, every other board is still
      listed as often as before, and the order stays newest first. */
  lemma DeleteExact(d: Dash, b: Board)
    requires NewestFirst(d.boards)
    ensures var bs := DeleteBoard(OpenDelete(d, b), false).dash.boards;
      && (forall i :: 0 <= i < |bs| ==> bs[i].id != b.id)
      && (forall x :: multiset(bs)[x] == if x.id == b.id then 0 else multiset(d.boards)[x])
      && NewestFirst(bs)
  {
    FilterCountAll(d.boards, NotBoard(b.id));
    FilterKeepsOrder(d.boards, NotBoard(b.id));
  }

  /** Filtering a newest-first list keeps it newest first. */
  lemma {:induction false} FilterKeepsOrder(bs: seq<Board>, p: Board -> bool)
    requires NewestFirst(bs)
    ensures NewestFirst(Filter(bs, p))
    decreases |bs|
  {
    if |bs| > 0 {
      TailNewestFirst(bs);
      FilterKeepsOrder(bs[1..], p);
      if p(bs[0]) {
        PrependNewest(bs, Filter(bs[1..], p));
      }
    }
  }

  lemma TailNewestFirst(bs: seq<Board>)
    requires NewestFirst(bs) && |bs| > 0
    ensures NewestFirst(bs[1..])
  {
    forall i, j | 0 <= i < j < |bs[1..]|
      ensures bs[1..][i].createdAt >= bs[1..][j].createdAt
    {
      assert bs[1..][i] == bs[i + 1] && bs[1..][j] == bs[j + 1];
    }
  }

  /** A newest-first subsequence of the tail stays newest first behind the head. */
  lemma PrependNewest(bs: seq<Board>, rest: seq<Board>)
    requires NewestFirst(bs) && |bs| > 0 && NewestFirst(rest)
    requires forall i :: 0 <= i < |rest| ==> rest[i] in bs[1..]
    ensures NewestFirst([bs[0]] + rest)
  {
    var r := [bs[0]] + rest;
    forall i, j | 0 <= i < j < |r|
      ensures r[i].createdAt >= r[j].createdAt
    {
      assert r[j] == rest[j - 1];
      if i == 0 {
        assert rest[j - 1] in bs[1..];
        var k :| 0 <= k < |bs[1..]| && bs[1..][k] == rest[j - 1];
        assert bs[1..][k] == bs[k + 1];
      } else {
        assert r[i] == rest[i - 1];
      }
    }
  }

  // ---------------------------------------------------------------------------
  // Opening and closing the dialogs (lines 130, 152, 173, 188, 202, 217, 231, 244)

  datatype Dialog = Create | Rename | Delete

  /** The close and cancel buttons: the create dialog empties the field, the
      rename dialog empties it and drops the selection, the delete dialog
      drops the selection. */
  function Close(d: Dash, which: Dialog): (r: Dash)
    ensures which.Create? ==> !r.createOpen && r.renameOpen == d.renameOpen && r.deleteOpen == d.deleteOpen
    ensures which.Rename? ==> !r.renameOpen && r.createOpen == d.createOpen && r.deleteOpen == d.deleteOpen
    ensures which.Delete? ==> !r.deleteOpen && r.createOpen == d.createOpen && r.renameOpen == d.renameOpen
    ensures which.Delete? ==> r.title == d.title
    ensures which.Create? ==> r.selected == d.selected
  {
    match which
    case Create => d.(createOpen := false, title := "")
    case Rename => d.(renameOpen := false, title := "", selected := None)
    case Delete => d.(deleteOpen := false, selected := None)
  }

  /** The "Create Board" buttons open the create dialog as it is. */
  function OpenCreate(d: Dash): (r: Dash)
    ensures r.createOpen && r.title == d.title && r.selected == d.selected
    ensures r.boards == d.boards && r.renameOpen == d.renameOpen && r.deleteOpen == d.deleteOpen
  {
    d.(createOpen := true)
  }

  /** Abandoning a dialog leaves nothing behind for the next one and never
      touches the boards: after closing the create or rename dialog the field
      is empty, the create dialog opens empty, and submitting it straight away
      writes nothing. After closing a rename or delete dialog no board is
      selected, so neither handler has a board to act on. */
  lemma CloseForgets(d: Dash, which: Dialog, user: Option<Id>, reply: Reply<Board>, failed: bool)
    ensures !which.Delete? ==> Close(d, which).title == "" && OpenCreate(Close(d, which)).title == ""
    ensures !which.Create? ==> Close(d, which).selected.None?
    ensures Close(d, which).boards == d.boards
    ensures !which.Delete? ==> CreateBoard(OpenCreate(Close(d, which)), user, reply).request.None?
    ensures !which.Create? ==>
      RenameBoard(Close(d, which), failed).request.None? && DeleteBoard(Close(d, which), failed).request.None?
  {
    assert AllSpace("");
  }
}
