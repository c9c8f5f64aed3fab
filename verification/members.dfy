/** The member avatars of a board (src/components/board/MembersList.tsx): the
    initial and colour of an avatar, which members are shown, the overflow
    badge, and the owner-only removal of a member. */
module Members {
  import opened Records
  import opened Seqs
  import opened Text
  import opened CardOrder

  // ---------------------------------------------------------------------------
  // Avatar label and colour (lines 67-87 and 104-109)

  /** `getInitials(name)`: '?' for a missing or empty name, otherwise the first
      character upper-cased. */
  function Initials(name: Option<string>): (r: string)
    ensures |r| == 1 && !('a' <= r[0] <= 'z')
    ensures name.None? || name.value == "" ==> r == "?"
    ensures name.Some? && name.value != "" ==> r[0] == Upper(name.value[0])
  {
    match name
    case None => "?"
    case Some(s) => if s == "" then "?" else [Upper(s[0])]
  }

  /** The name an avatar is labelled from: `email || user_id`, where an empty
      e-mail counts as missing. */
  function AvatarName(m: Member): string {
    if m.email.Some? && m.email.value != "" then m.email.value else m.userId
  }

  /** The avatar's label, `getInitials(member.email || member.user_id)`. */
  function AvatarLabel(m: Member): (r: string)
    ensures |r| == 1
    ensures m.email.Some? && m.email.value != "" ==> r[0] == Upper(m.email.value[0])
    ensures (m.email.None? || m.email.value == "") && m.userId != "" ==> r[0] == Upper(m.userId[0])
  {
    Initials(Some(AvatarName(m)))
  }

  /** An avatar shows '?' exactly when it has no name to draw from, or the name
      it draws from starts with '?'. */
  lemma AvatarLabelQuestion(m: Member)
    ensures AvatarLabel(m) == "?" <==> AvatarName(m) == "" || AvatarName(m)[0] == '?'
  {
    var n := AvatarName(m);
    if n != "" {
      assert AvatarLabel(m) == [Upper(n[0])];
    }
  }

  /** The eight avatar colours, indexed by the first code unit of the user id
      modulo 8. */
  const Palette: seq<string> := [
    "bg-blue-500", "bg-green-500", "bg-purple-500", "bg-orange-500",
    "bg-pink-500", "bg-cyan-500", "bg-amber-500", "bg-rose-500"]

  /** `charCodeAt(0)` of a string starting with `c`: the character itself in the
      Basic Multilingual Plane, its UTF-16 high surrogate above it. */
  function FirstCodeUnit(c: char): (r: nat)
    ensures r < 0x10000
    ensures c as int < 0x10000 ==> r == c as int
    ensures c as int >= 0x10000 ==> 0xD800 <= r < 0xDC00
  {
    if c as int < 0x10000 then c as int else 0xD800 + (c as int - 0x10000) / 0x400
  }

  /** `getAvatarColor(userId)`. For the empty id `charCodeAt(0)` is NaN and the
      lookup yields `undefined`, modelled as `None`. */
  function AvatarColor(id: string): (r: Option<string>)
    ensures r.None? <==> id == ""
    ensures r.Some? ==> r.value in Palette && r.value == Palette[FirstCodeUnit(id[0]) % 8]
  {
    if id == "" then None else Some(Palette[FirstCodeUnit(id[0]) % 8])
  }

  /** The colour depends on the first character only. */
  lemma SameFirstSameColor(a: string, b: string)
    requires a != "" && b != "" && a[0] == b[0]
    ensures AvatarColor(a) == AvatarColor(b)
  {
  }

  /** All ids starting with a character above the Basic Multilingual Plane in
      the same block of 1024 share a colour. */
  lemma AstralBlockSameColor(a: string, b: string)
    requires a != "" && b != "" && a[0] as int >= 0x10000 && b[0] as int >= 0x10000
    requires (a[0] as int - 0x10000) / 0x400 == (b[0] as int - 0x10000) / 0x400
    ensures AvatarColor(a) == AvatarColor(b)
  {
  }

  // ---------------------------------------------------------------------------
  // Which avatars are drawn (lines 99 and 140-142)

  const MaxShown := 5

  /** `members.slice(0, 5)`: the first five members in fetched order (oldest
      membership first). */
  function Shown(members: seq<Member>): (r: seq<Member>)
    ensures |r| == if |members| < MaxShown then |members| else MaxShown
    ensures r == members[..|r|]
  {
    Take(members, MaxShown)
  }

  /** The "+n" badge: present exactly when more than five members exist, and
      counting the ones not drawn. */
  function OverflowBadge(members: seq<Member>): (r: Option<string>)
    ensures r.Some? <==> |members| > MaxShown
    ensures r.Some? ==> r.value == "+" + IntToString(|members| - MaxShown)
  {
    if |members| > MaxShown then Some("+" + IntToString(|members| - MaxShown)) else None
  }

  /** The drawn avatars and the number on the badge add up to all members. */
  lemma ShownPlusBadge(members: seq<Member>, k: int)
    requires OverflowBadge(members) == Some("+" + IntToString(k))
    ensures |Shown(members)| + k == |members|
  {
    var n := |members| - MaxShown;
    assert "+" + IntToString(n) == "+" + IntToString(k);
    assert IntToString(n) == ("+" + IntToString(n))[1..];
    assert IntToString(k) == ("+" + IntToString(k))[1..];
    IntToStringInjective(n, k);
  }

  // ---------------------------------------------------------------------------
  // Removing a member (lines 23 and 47-65, 121)

  /** `user?.id === ownerId`: a signed-out viewer is never the owner. */
  predicate IsOwner(viewer: Option<Id>, ownerId: Id) {
    viewer == Some(ownerId)
  }

  /** The members whose avatar carries a remove button: drawn members that are
      not owners, and only for the board's owner. */
  function RemoveButtons(members: seq<Member>, viewer: Option<Id>, ownerId: Id): (r: seq<Member>)
    ensures !IsOwner(viewer, ownerId) ==> r == []
    ensures forall i :: 0 <= i < |r| ==> r[i] in Shown(members) && r[i].role != "owner"
    ensures IsOwner(viewer, ownerId) ==>
      forall i :: 0 <= i < |Shown(members)| && Shown(members)[i].role != "owner" ==> Shown(members)[i] in r
  {
    if IsOwner(viewer, ownerId) then Filter(Shown(members), (m: Member) => m.role != "owner") else []
  }

  function NotMember(id: Id): Member -> bool { (m: Member) => m.id != id }

  datatype MembersView = MembersView(members: seq<Member>, removingId: Option<Id>)

  /** The outcome of `handleRemoveMember`: the view afterwards, the membership
      deleted in the store (if any), and whether `onMemberRemoved` ran. */
  datatype Removal = Removal(view: MembersView, deleted: Option<Id>, notified: bool)

  /** `handleRemoveMember`: only the owner can remove; the delete is sent, and
      on success exactly the members with that id leave the list, in the same
      order, and the parent is notified. The pending marker is cleared in every
      case that got past the owner check. */
  function RemoveMember(v: MembersView, viewer: Option<Id>, ownerId: Id, memberId: Id, failed: bool): (r: Removal)
    ensures !IsOwner(viewer, ownerId) ==> r == Removal(v, None, false)
    ensures IsOwner(viewer, ownerId) ==> r.deleted == Some(memberId) && r.view.removingId.None?
    ensures IsOwner(viewer, ownerId) ==> r.notified == !failed
    ensures IsOwner(viewer, ownerId) && failed ==> r.view.members == v.members
    ensures IsOwner(viewer, ownerId) && !failed ==> r.view.members == Filter(v.members, NotMember(memberId))
  {
    if !IsOwner(viewer, ownerId) then Removal(v, None, false)
    else if failed then Removal(MembersView(v.members, None), Some(memberId), false)
    else Removal(MembersView(Filter(v.members, NotMember(memberId)), None), Some(memberId), true)
  }

  /** A successful removal keeps exactly the other members. */
  lemma RemoveMemberExact(v: MembersView, ownerId: Id, memberId: Id)
    ensures var ms := RemoveMember(v, Some(ownerId), ownerId, memberId, false).view.members;
      && (forall i :: 0 <= i < |ms| ==> ms[i].id != memberId && ms[i] in v.members)
      && (forall i :: 0 <= i < |v.members| && v.members[i].id != memberId ==> v.members[i] in ms)
      && forall m :: multiset(ms)[m] == if m.id == memberId then 0 else multiset(v.members)[m]
  {
    FilterCountAll(v.members, NotMember(memberId));
  }

  /** Removing the same member again changes nothing, and removing an id no
      member has leaves the list as it was. */
  lemma RemoveMemberIdempotent(v: MembersView, ownerId: Id, memberId: Id)
    ensures var once := RemoveMember(v, Some(ownerId), ownerId, memberId, false).view;
      RemoveMember(once, Some(ownerId), ownerId, memberId, false).view == once
    ensures (forall i :: 0 <= i < |v.members| ==> v.members[i].id != memberId) ==>
      RemoveMember(v, Some(ownerId), ownerId, memberId, false).view.members == v.members
  {
    var once := Filter(v.members, NotMember(memberId));
    FilterAll(once, NotMember(memberId));
    if forall i :: 0 <= i < |v.members| ==> v.members[i].id != memberId {
      FilterAll(v.members, NotMember(memberId));
    }
  }
}
