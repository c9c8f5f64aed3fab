/** The page that redeems an invite link (src/pages/JoinBoard.tsx): the ordered
    checks an invite goes through, the join step, and which of the five
    screens the page shows. */
module JoinBoard {
  import opened Records

  // ---------------------------------------------------------------------------
  // Checking the invite (lines 32-91)

  const InvalidLink := "Invalid invite link"
  const NotFound := "This invite link is invalid or has expired"
  const Expired := "This invite link has expired"
  const Exhausted := "This invite link has reached its maximum uses"
  const JoinFailed := "Failed to join board. Please try again."
  const UnknownBoard := "Unknown Board"

  /** What the page keeps about an invite that passed the checks. */
  datatype InviteInfo = InviteInfo(
    boardId: Id,
    boardTitle: string,
    inviteCode: string,
    isValid: bool,
    alreadyMember: bool)

  /** The page's state; `error` is the message of the error screen. */
  datatype Page = Page(info: Option<InviteInfo>, loading: bool, joining: bool, error: Option<string>)

  /** The page as first rendered. */
  const Initial := Page(None, true, false, None)

  /** An invite row with the title of the board it joins (`boards(id, title)`),
      which is missing when the board row is. */
  datatype Found = Found(invite: Invite, boardTitle: Option<string>)

  /** The reply of the invite lookup by code. */
  datatype Lookup = Lookup(failed: bool, data: Option<Found>)

  /** `!inviteCode`: the route parameter is missing or empty. */
  predicate MissingCode(code: Option<string>) {
    code.None? || code.value == ""
  }

  /** `expires_at && new Date(expires_at) < new Date()`: an expiry is set and
      lies strictly before now. */
  predicate IsExpired(inv: Invite, now: int) {
    inv.expiresAt.Some? && inv.expiresAt.value < now
  }

  /** `max_uses && uses >= max_uses`: a truthy (set, non-zero) limit is used up. */
  predicate IsExhausted(inv: Invite) {
    inv.maxUses.Some? && inv.maxUses.value != 0 && inv.uses >= inv.maxUses.value
  }

  /** `boards?.title || 'Unknown Board'`: a missing or empty title falls back. */
  function TitleOrUnknown(title: Option<string>): (r: string)
    ensures r != ""
    ensures title.Some? && title.value != "" ==> r == title.value
  {
    if title.Some? && title.value != "" then title.value else UnknownBoard
  }

  /** `fetchInviteInfo` once the auth state is known. The checks run in
      order, and the first that fails sets its message and ends loading; an
      invite that passes all of them is stored as valid, a member of its
      board only if a signed-in user's membership row came back
      (`hasMembership`). A successful check does not clear an earlier error. */
  function FetchInviteInfo(
    p: Page, code: Option<string>, now: int, user: Option<Id>, lookup: Lookup, hasMembership: bool): (r: Page)
    ensures !r.loading && r.joining == p.joining
    ensures MissingCode(code) ==> r == p.(error := Some(InvalidLink), loading := false)
    ensures !MissingCode(code) && (lookup.failed || lookup.data.None?) ==>
      r == p.(error := Some(NotFound), loading := false)
    ensures r.info != p.info ==> r.error == p.error
    ensures r.info != p.info ==> r.info.Some? && r.info.value.isValid
    ensures r.info != p.info ==> (r.info.value.alreadyMember ==> user.Some?)
  {
    if MissingCode(code) then p.(error := Some(InvalidLink), loading := false)
    else if lookup.failed || lookup.data.None? then p.(error := Some(NotFound), loading := false)
    else
      var inv := lookup.data.value.invite;
      if IsExpired(inv, now) then p.(error := Some(Expired), loading := false)
      else if IsExhausted(inv) then p.(error := Some(Exhausted), loading := false)
      else
        var member := user.Some? && hasMembership;
        var info := InviteInfo(inv.boardId, TitleOrUnknown(lookup.data.value.boardTitle), inv.inviteCode, true, member);
        p.(info := Some(info), loading := false)
  }

  /** An invite can still be redeemed at `now`: no expiry or one not yet
      passed, and no limit, a limit of 0, or uses below the limit. */
  predicate Redeemable(inv: Invite, now: int) {
    && (inv.expiresAt.None? || inv.expiresAt.value >= now)
    && (inv.maxUses.None? || inv.maxUses.value == 0 || inv.uses < inv.maxUses.value)
  }

  /** On a page that holds no accepted invite yet, a found invite is accepted
      exactly when it is redeemable; the accepted information names the
      invite's board and code, and the title falls back to 'Unknown Board'.
      Rejections say why, expiry taking precedence over the uses limit. */
  lemma {:induction false} AcceptedIffRedeemable(
    p: Page, code: string, now: int, user: Option<Id>, found: Found, hasMembership: bool)
    requires code != "" && p.info.None?
    ensures var r := FetchInviteInfo(p, Some(code), now, user, Lookup(false, Some(found)), hasMembership);
      && (Redeemable(found.invite, now) <==> r.info == Some(InviteInfo(
            found.invite.boardId, TitleOrUnknown(found.boardTitle), found.invite.inviteCode, true,
            user.Some? && hasMembership)))
      && (IsExpired(found.invite, now) ==> r.error == Some(Expired))
      && (!IsExpired(found.invite, now) && IsExhausted(found.invite) ==> r.error == Some(Exhausted))
      && (Redeemable(found.invite, now) ==> r.error == p.error)
  {
    var inv := found.invite;
    assert Redeemable(inv, now) <==> !IsExpired(inv, now) && !IsExhausted(inv);
  }

  // ---------------------------------------------------------------------------
  // Joining (lines 93-122)

  /** The membership row the page asks the store to insert. */
  datatype MemberInsert = MemberInsert(boardId: Id, userId: Id, role: string)

  /** A join attempt's effect: the page, the row sent, and where the page
      navigated to, if anywhere. */
  datatype Join = Join(page: Page, insert: Option<MemberInsert>, navigate: Option<string>)

  /** The board route a board id leads to, `/board/${id}`. */
  function BoardPath(boardId: Id): (r: string)
    ensures |r| == |"/board/"| + |boardId| && r[..|"/board/"|] == "/board/" && r[|"/board/"|..] == boardId
  {
    "/board/" + boardId
  }

  /** `handleJoin`: nothing without a signed-in user and checked invite;
      otherwise a 'member' row is inserted, and a failed insert shows the
      failure message and stays on the page, while a stored one navigates to
      the board. */
  function HandleJoin(p: Page, user: Option<Id>, failed: bool): (r: Join)
    ensures user.None? || p.info.None? ==> r == Join(p, None, None)
    ensures user.Some? && p.info.Some? ==>
      r.insert == Some(MemberInsert(p.info.value.boardId, user.value, "member"))
    ensures user.Some? && p.info.Some? && failed ==>
      r.navigate.None? && r.page == p.(error := Some(JoinFailed), joining := false)
    ensures user.Some? && p.info.Some? && !failed ==>
      r.navigate == Some(BoardPath(p.info.value.boardId)) && r.page == p.(joining := true)
  {
    if user.None? || p.info.None? then Join(p, None, None)
    else
      var request := MemberInsert(p.info.value.boardId, user.value, "member");
      if failed then Join(p.(error := Some(JoinFailed), joining := false), Some(request), None)
      else Join(p.(joining := true), Some(request), Some(BoardPath(p.info.value.boardId)))
  }

  // ---------------------------------------------------------------------------
  // The screen (lines 125-223)

  datatype View =
    | Spinner
    | SignIn(login: string, signup: string)
    | Failure(message: string)
    | AlreadyMember(title: string, open: string)
    | Invited(boardTitle: Option<string>, busy: bool)

  /** How a template literal prints the route parameter: a missing one
      prints as "undefined". */
  function Printed(code: Option<string>): string {
    if code.Some? then code.value else "undefined"
  }

  /** The link back to this page after signing in or up. */
  function Redirect(page: string, code: Option<string>): (r: string)
    ensures |r| >= |page| && r[..|page|] == page
  {
    page + "?redirect=/join/" + Printed(code)
  }

  /** What the page shows, in order of precedence: the spinner while the page
      or the auth state loads, the sign-in screen for a signed-out visitor,
      the error screen, the "already a member" screen, and the invitation. */
  function Render(p: Page, authLoading: bool, user: Option<Id>, code: Option<string>): (r: View)
    ensures r.Spinner? <==> p.loading || authLoading
    ensures r.SignIn? <==> !p.loading && !authLoading && user.None?
    ensures r.Failure? <==> !p.loading && !authLoading && user.Some? && p.error.Some?
    ensures r.Failure? ==> r.message == p.error.value
    ensures r.AlreadyMember? <==>
      !p.loading && !authLoading && user.Some? && p.error.None? && p.info.Some? && p.info.value.alreadyMember
    ensures r.Invited? ==> r.busy == p.joining
  {
    if p.loading || authLoading then Spinner
    else if user.None? then SignIn(Redirect("/login", code), Redirect("/signup", code))
    else if p.error.Some? then Failure(p.error.value)
    else if p.info.Some? && p.info.value.alreadyMember then
      AlreadyMember(p.info.value.boardTitle, BoardPath(p.info.value.boardId))
    else Invited(if p.info.Some? then Some(p.info.value.boardTitle) else None, p.joining)
  }

  /** A signed-in visitor of a fresh page with a redeemable invite is shown
      the invitation for that board, or the "already a member" screen whose
      button opens the same board the join navigates to. */
  lemma ValidInviteScreen(code: string, now: int, uid: Id, found: Found, hasMembership: bool)
    requires code != "" && Redeemable(found.invite, now)
    ensures var p := FetchInviteInfo(Initial, Some(code), now, Some(uid), Lookup(false, Some(found)), hasMembership);
      var v := Render(p, false, Some(uid), Some(code));
      && (hasMembership ==> v == AlreadyMember(TitleOrUnknown(found.boardTitle), BoardPath(found.invite.boardId)))
      && (!hasMembership ==> v == Invited(Some(TitleOrUnknown(found.boardTitle)), false))
      && (!hasMembership ==> HandleJoin(p, Some(uid), false).navigate == Some(BoardPath(found.invite.boardId)))
  {
    AcceptedIffRedeemable(Initial, code, now, Some(uid), found, hasMembership);
  }

  /** A failed join replaces the invitation by the error screen with the
      failure message, and leaves the visitor on the page. */
  lemma FailedJoinScreen(p: Page, uid: Id, code: Option<string>)
    requires p.info.Some? && !p.loading
    ensures var j := HandleJoin(p, Some(uid), true);
      j.navigate.None? && Render(j.page, false, Some(uid), code) == Failure(JoinFailed)
  {
  }

  /** The sign-in screen's links come back to the join page for the same code. */
  lemma SignInComesBack(p: Page, code: string)
    requires !p.loading
    ensures Render(p, false, None, Some(code)) ==
      SignIn("/login?redirect=/join/" + code, "/signup?redirect=/join/" + code)
  {
    assert "/login" + "?redirect=/join/" == "/login?redirect=/join/";
    assert "/signup" + "?redirect=/join/" == "/signup?redirect=/join/";
  }

  /** An error, once shown, is never cleared by checking the invite again:
      the page keeps its error screen even for a redeemable invite. */
  lemma ErrorSticks(p: Page, code: string, now: int, uid: Id, found: Found, hasMembership: bool)
    requires p.error.Some? && code != ""
    ensures var q := FetchInviteInfo(p, Some(code), now, Some(uid), Lookup(false, Some(found)), hasMembership);
      Render(q, false, Some(uid), Some(code)).Failure?
  {
  }
}
