/** The invite dialog of a board (src/components/board/InviteModal.tsx): the
    random invite code, the link built from it, the "Uses" line, and what the
    dialog does with the replies of its two store calls. */
module Invite {
  import opened Records
  import opened Text

  // ---------------------------------------------------------------------------
  // The invite code (lines 16-23)

  /** The characters a code is drawn from: letters and digits without the ones
      easily mistaken for each other (0, 1, I, O, i, l, o). */
  const Alphabet: string := "ABCDEFGHJKLMNPQRSTUVWXYZabcdefghjkmnpqrstuvwxyz23456789"

  const CodeLength := 8

  /** What `Math.floor(Math.random() * chars.length)` can produce: one index
      into the alphabet per character of the code. */
  predicate ValidDraws(draws: seq<int>) {
    |draws| == CodeLength && forall i :: 0 <= i < |draws| ==> 0 <= draws[i] < |Alphabet|
  }

  /** The code built character by character from the random indices, as the
      loop appends `chars.charAt(index)` to the code so far. */
  function BuildCode(draws: seq<int>): (r: string)
    requires forall i :: 0 <= i < |draws| ==> 0 <= draws[i] < |Alphabet|
    ensures |r| == |draws|
    ensures forall i :: 0 <= i < |r| ==> r[i] == Alphabet[draws[i]]
  {
    if |draws| == 0 then "" else BuildCode(draws[..|draws| - 1]) + [Alphabet[draws[|draws| - 1]]]
  }

  /** `generateInviteCode()` for the given random indices. */
  function GenerateInviteCode(draws: seq<int>): (r: string)
    requires ValidDraws(draws)
    ensures |r| == CodeLength
    ensures forall i :: 0 <= i < |r| ==> InAlphabet(r[i])
  {
    var r := BuildCode(draws);
    forall i | 0 <= i < |r|
      ensures InAlphabet(r[i])
    {
      AlphabetMembers(draws[i]);
    }
    r
  }

  /** Membership in the alphabet, by character range. */
  predicate InAlphabet(c: char) {
    || ('A' <= c <= 'H') || ('J' <= c <= 'N') || ('P' <= c <= 'Z')
    || ('a' <= c <= 'h') || c == 'j' || c == 'k' || c == 'm' || c == 'n' || ('p' <= c <= 'z')
    || ('2' <= c <= '9')
  }

  /** The position of a character in the alphabet, by character range. */
  function AlphabetIndex(c: char): (r: int)
    requires InAlphabet(c)
    ensures 0 <= r < |Alphabet|
  {
    if 'A' <= c <= 'H' then c as int - 'A' as int
    else if 'J' <= c <= 'N' then 8 + (c as int - 'J' as int)
    else if 'P' <= c <= 'Z' then 13 + (c as int - 'P' as int)
    else if 'a' <= c <= 'h' then 24 + (c as int - 'a' as int)
    else if c == 'j' || c == 'k' then 32 + (c as int - 'j' as int)
    else if c == 'm' || c == 'n' then 34 + (c as int - 'm' as int)
    else if 'p' <= c <= 'z' then 36 + (c as int - 'p' as int)
    else 47 + (c as int - '2' as int)
  }

  /** The alphabet spelled out character by character. */
  lemma AlphabetChars()
    ensures Alphabet == [
        'A', 'B', 'C', 'D', 'E', 'F', 'G', 'H', 'J', 'K', 'L', 'M', 'N', 'P',
        'Q', 'R', 'S', 'T', 'U', 'V', 'W', 'X', 'Y', 'Z', 'a', 'b', 'c', 'd',
        'e', 'f', 'g', 'h', 'j', 'k', 'm', 'n', 'p', 'q', 'r', 's', 't', 'u',
        'v', 'w', 'x', 'y', 'z', '2', '3', '4', '5', '6', '7', '8', '9']
  {
  }

  /** The upper-case half of the alphabet spelled out. */
  lemma UpperChars()
    ensures Alphabet[..24] == [
      'A', 'B', 'C', 'D', 'E', 'F', 'G', 'H', 'J', 'K', 'L', 'M', 'N', 'P',
      'Q', 'R', 'S', 'T', 'U', 'V', 'W', 'X', 'Y', 'Z']
  {
    AlphabetChars();
  }

  /** The upper-case half is three runs of consecutive letters. */
  lemma UpperRuns(k: int)
    requires 0 <= k < 24
    ensures 0 <= k < 8 ==> Alphabet[k] as int == 'A' as int + k
    ensures 8 <= k < 13 ==> Alphabet[k] as int == 'J' as int + (k - 8)
    ensures 13 <= k < 24 ==> Alphabet[k] as int == 'P' as int + (k - 13)
  {
    UpperChars();
    assert Alphabet[k] == Alphabet[..24][k];
  }

  lemma LetterRunA(k: int)
    requires 24 <= k < 32
    ensures Alphabet[k] as int == 'a' as int + (k - 24)
  {
    AlphabetChars();
  }

  lemma LetterRunsJM(k: int)
    requires 32 <= k < 36
    ensures k < 34 ==> Alphabet[k] as int == 'j' as int + (k - 32)
    ensures k >= 34 ==> Alphabet[k] as int == 'm' as int + (k - 34)
  {
    AlphabetChars();
  }

  lemma LetterRunP(k: int)
    requires 36 <= k < 47
    ensures Alphabet[k] as int == 'p' as int + (k - 36)
  {
    AlphabetChars();
  }

  lemma DigitRun(k: int)
    requires 47 <= k < 55
    ensures Alphabet[k] as int == '2' as int + (k - 47)
  {
    AlphabetChars();
  }

  /** The rest is five runs of consecutive lower-case letters and digits. */
  lemma LowerRuns(k: int)
    requires 24 <= k < 55
    ensures 24 <= k < 32 ==> Alphabet[k] as int == 'a' as int + (k - 24)
    ensures 32 <= k < 34 ==> Alphabet[k] as int == 'j' as int + (k - 32)
    ensures 34 <= k < 36 ==> Alphabet[k] as int == 'm' as int + (k - 34)
    ensures 36 <= k < 47 ==> Alphabet[k] as int == 'p' as int + (k - 36)
    ensures 47 <= k < 55 ==> Alphabet[k] as int == '2' as int + (k - 47)
  {
    if k < 32 {
      LetterRunA(k);
    } else if k < 36 {
      LetterRunsJM(k);
    } else if k < 47 {
      LetterRunP(k);
    } else {
      DigitRun(k);
    }
  }

  /** The alphabet lists exactly the characters of `InAlphabet`, each once, at
      the position `AlphabetIndex` gives. */
  lemma AlphabetMembers(k: int)
    requires 0 <= k < |Alphabet|
    ensures InAlphabet(Alphabet[k]) && AlphabetIndex(Alphabet[k]) == k
  {
    if k < 24 { UpperRuns(k); } else { LowerRuns(k); }
  }

  lemma AlphabetComplete(c: char)
    requires InAlphabet(c)
    ensures Alphabet[AlphabetIndex(c)] == c
  {
    var k := AlphabetIndex(c);
    if k < 24 { UpperRuns(k); } else { LowerRuns(k); }
  }

  /** No look-alike character can appear in a code. */
  lemma NoLookAlikes(draws: seq<int>)
    requires ValidDraws(draws)
    ensures forall i :: 0 <= i < CodeLength ==> GenerateInviteCode(draws)[i] !in "01IOilo"
  {
  }

  /** A code determines the random indices it was built from: reading each
      character's alphabet position back gives the draws. */
  lemma {:induction false} CodeRecoversDraws(draws: seq<int>)
    requires ValidDraws(draws)
    ensures forall i :: 0 <= i < CodeLength ==>
      InAlphabet(GenerateInviteCode(draws)[i]) && AlphabetIndex(GenerateInviteCode(draws)[i]) == draws[i]
  {
    forall i | 0 <= i < CodeLength
      ensures InAlphabet(GenerateInviteCode(draws)[i]) && AlphabetIndex(GenerateInviteCode(draws)[i]) == draws[i]
    {
      AlphabetMembers(draws[i]);
    }
  }

  /** Different draws give different codes. */
  lemma CodeInjective(a: seq<int>, b: seq<int>)
    requires ValidDraws(a) && ValidDraws(b) && GenerateInviteCode(a) == GenerateInviteCode(b)
    ensures a == b
  {
    CodeRecoversDraws(a);
    CodeRecoversDraws(b);
  }

  // ---------------------------------------------------------------------------
  // The invite link (lines 102-104) and the join route it leads to

  const JoinPath := "/join/"

  /** `inviteUrl`: the page origin, `/join/` and the code, or the empty string
      while there is no invite. */
  function InviteUrl(origin: string, invite: Option<Invite>): (r: string)
    ensures r == "" <==> invite.None?
    ensures invite.Some? ==> |r| == |origin| + |JoinPath| + |invite.value.inviteCode|
  {
    match invite
    case None => ""
    case Some(inv) => origin + JoinPath + inv.inviteCode
  }

  /** The `:inviteCode` parameter the router reads from a link of this origin:
      the rest of the path after `/join/`, when that is one non-empty segment. */
  function JoinRouteCode(origin: string, url: string): (r: Option<string>)
    ensures r.Some? ==> url == origin + JoinPath + r.value && r.value != "" && '/' !in r.value
  {
    var prefix := origin + JoinPath;
    if |url| > |prefix| && url[..|prefix|] == prefix && '/' !in url[|prefix|..] then
      assert url == prefix + url[|prefix|..];
      Some(url[|prefix|..])
    else None
  }

  /** A link to a generated code leads the join page to exactly that code. */
  lemma LinkRoundTrip(origin: string, inv: Invite, draws: seq<int>)
    requires ValidDraws(draws) && inv.inviteCode == GenerateInviteCode(draws)
    ensures JoinRouteCode(origin, InviteUrl(origin, Some(inv))) == Some(inv.inviteCode)
  {
    var prefix := origin + JoinPath;
    var url := InviteUrl(origin, Some(inv));
    assert url == prefix + inv.inviteCode;
    assert url[..|prefix|] == prefix;
    assert url[|prefix|..] == inv.inviteCode;
    assert '/' !in inv.inviteCode by {
      forall i | 0 <= i < |inv.inviteCode|
        ensures inv.inviteCode[i] != '/'
      {
        assert InAlphabet(inv.inviteCode[i]);
      }
    }
  }

  // ---------------------------------------------------------------------------
  // The uses line (line 142)

  /** `invite.max_uses` in a condition: a missing limit and a limit of 0 are
      both falsy. */
  predicate HasLimit(maxUses: Option<int>) {
    maxUses.Some? && maxUses.value != 0
  }

  /** The limit part of the line: ` / max` for a truthy limit, else nothing. */
  function LimitSuffix(maxUses: Option<int>): (r: string)
    ensures r == "" <==> !HasLimit(maxUses)
    ensures r != "" ==> r[0] == ' '
  {
    if HasLimit(maxUses) then " / " + IntToString(maxUses.value) else ""
  }

  /** `Uses: {invite.uses}{invite.max_uses ? ` / ${invite.max_uses}` : ''}`. */
  function UsesLabel(inv: Invite): (r: string)
    ensures |r| > |"Uses: "| && r[..|"Uses: "|] == "Uses: "
  {
    "Uses: " + IntToString(inv.uses) + LimitSuffix(inv.maxUses)
  }

  predicate NoSpace(s: string) {
    forall i :: 0 <= i < |s| ==> s[i] != ' '
  }

  lemma IntToStringNoSpace(n: int)
    ensures NoSpace(IntToString(n))
  {
    var s := IntToString(n);
    if n < 0 {
      forall i | 1 <= i < |s|
        ensures s[i] != ' '
      {
        assert s[1..][i - 1] == s[i];
      }
    }
  }

  /** The index of the first space in `s`, or its length when it has none. */
  function FirstSpace(s: string): (r: nat)
    ensures r <= |s|
  {
    if |s| == 0 || s[0] == ' ' then 0 else 1 + FirstSpace(s[1..])
  }

  /** A word with no space followed by text that is empty or starts with a
      space: the first space is where the word ends. */
  lemma {:induction false} FirstSpaceAfterWord(a: string, b: string)
    requires NoSpace(a)
    requires b == "" || b[0] == ' '
    ensures FirstSpace(a + b) == |a|
    decreases |a|
  {
    if |a| == 0 {
      assert a + b == b;
    } else {
      assert (a + b)[0] == a[0];
      assert (a + b)[1..] == a[1..] + b;
      FirstSpaceAfterWord(a[1..], b);
    }
  }

  /** Such a concatenation splits only one way. */
  lemma SplitAtSpace(a: string, b: string, a2: string, b2: string)
    requires NoSpace(a) && NoSpace(a2)
    requires b == "" || b[0] == ' '
    requires b2 == "" || b2[0] == ' '
    requires a + b == a2 + b2
    ensures a == a2 && b == b2
  {
    FirstSpaceAfterWord(a, b);
    FirstSpaceAfterWord(a2, b2);
    assert a == (a + b)[..|a|] == (a2 + b2)[..|a2|] == a2;
    assert b == (a + b)[|a|..] == (a2 + b2)[|a2|..] == b2;
  }

  /** The line reads back: two invites with the same line have the same use
      count, and either both have no limit or the same limit. */
  lemma UsesLabelReadBack(x: Invite, y: Invite)
    requires UsesLabel(x) == UsesLabel(y)
    ensures x.uses == y.uses
    ensures HasLimit(x.maxUses) <==> HasLimit(y.maxUses)
    ensures HasLimit(x.maxUses) ==> x.maxUses == y.maxUses
  {
    var a, b := IntToString(x.uses), LimitSuffix(x.maxUses);
    var a2, b2 := IntToString(y.uses), LimitSuffix(y.maxUses);
    LabelParts(x);
    LabelParts(y);
    PrefixCancel("Uses: ", a + b, a2 + b2);
    IntToStringNoSpace(x.uses);
    IntToStringNoSpace(y.uses);
    SplitAtSpace(a, b, a2, b2);
    IntToStringInjective(x.uses, y.uses);
    SuffixReadBack(x.maxUses, y.maxUses);
  }

  lemma LabelParts(x: Invite)
    ensures UsesLabel(x) == "Uses: " + (IntToString(x.uses) + LimitSuffix(x.maxUses))
  {
    assert "Uses: " + IntToString(x.uses) + LimitSuffix(x.maxUses)
      == "Uses: " + (IntToString(x.uses) + LimitSuffix(x.maxUses));
  }

  lemma PrefixCancel(p: string, u: string, v: string)
    requires p + u == p + v
    ensures u == v
  {
    assert u == (p + u)[|p|..];
    assert v == (p + v)[|p|..];
  }

  /** The limit part reads back: equal suffixes mean no limit on either side,
      or the same limit. */
  lemma SuffixReadBack(m: Option<int>, m2: Option<int>)
    requires LimitSuffix(m) == LimitSuffix(m2)
    ensures HasLimit(m) <==> HasLimit(m2)
    ensures HasLimit(m) ==> m == m2
  {
    if HasLimit(m) && HasLimit(m2) {
      assert LimitSuffix(m)[3..] == IntToString(m.value);
      assert LimitSuffix(m2)[3..] == IntToString(m2.value);
      IntToStringInjective(m.value, m2.value);
    }
  }

  // ---------------------------------------------------------------------------
  // Fetching and generating (lines 26-28 and 38-86)

  /** The dialog's state: the invite shown, and the two busy flags. */
  datatype Dialog = Dialog(invite: Option<Invite>, loading: bool, generating: bool)

  /** The dialog as first rendered. */
  const Initial := Dialog(None, true, false)

  /** The reply of the newest-invite lookup: the error code, if any, and the
      row, if any. `.single()` reports 'PGRST116' when the board has no invite. */
  datatype Lookup = Lookup(errorCode: Option<string>, data: Option<Invite>)

  const NoRows := "PGRST116"

  /** The row `generateNewInvite` asks the store to insert. */
  datatype InviteInsert = InviteInsert(boardId: Id, inviteCode: string, createdBy: Id)

  /** A handler's effect: the new dialog state, what it wrote to the store, and
      whether it logged an error. */
  datatype Outcome = Outcome(dialog: Dialog, insert: Option<InviteInsert>, logged: bool)

  /** `fetchInvite`: an error other than "no rows" is logged; the shown invite
      is replaced only by a returned row; loading ends either way. */
  function FetchInvite(d: Dialog, reply: Lookup): (r: Outcome)
    ensures r.logged <==> reply.errorCode.Some? && reply.errorCode.value != NoRows
    ensures r.dialog.invite == if reply.data.Some? then reply.data else d.invite
    ensures !r.dialog.loading && r.dialog.generating == d.generating && r.insert.None?
  {
    var logged := reply.errorCode.Some? && reply.errorCode.value != NoRows;
    var invite := if reply.data.Some? then reply.data else d.invite;
    Outcome(Dialog(invite, false, d.generating), None, logged)
  }

  /** `generateNewInvite` as written: the busy flag is raised first, and the
      early return for a signed-out user leaves it raised. With a user, a fresh
      code is inserted; a failed insert is logged and keeps the shown invite, a
      returned row replaces it, and the flag is lowered. */
  function GenerateNewInvite(d: Dialog, user: Option<Id>, boardId: Id, draws: seq<int>, reply: Reply<Invite>): (r: Outcome)
    requires ValidDraws(draws)
    ensures user.None? ==> r == Outcome(d.(generating := true), None, false)
    ensures user.Some? ==> r.insert == Some(InviteInsert(boardId, GenerateInviteCode(draws), user.value))
    ensures user.Some? ==> !r.dialog.generating && r.logged == reply.failed
    ensures user.Some? ==> r.dialog.invite == if !reply.failed && reply.data.Some? then reply.data else d.invite
    ensures r.dialog.loading == d.loading
  {
    var busy := d.(generating := true);
    match user
    case None => Outcome(busy, None, false)
    case Some(uid) =>
      var request := InviteInsert(boardId, GenerateInviteCode(draws), uid);
      var invite := if reply.failed then busy.invite else if reply.data.Some? then reply.data else busy.invite;
      Outcome(busy.(invite := invite, generating := false), Some(request), reply.failed)
  }

  /** The same handler with the flag lowered on the signed-out path too. */
  function GenerateNewInviteFixed(d: Dialog, user: Option<Id>, boardId: Id, draws: seq<int>, reply: Reply<Invite>): (r: Outcome)
    requires ValidDraws(draws)
    ensures !r.dialog.generating
    ensures user.None? ==> r == Outcome(d.(generating := false), None, false)
    ensures user.Some? ==> r == GenerateNewInvite(d, user, boardId, draws, reply)
  {
    if user.None? then Outcome(d.(generating := false), None, false)
    else GenerateNewInvite(d, user, boardId, draws, reply)
  }

  /** What the user can do to the open dialog: the lookup completes, or the
      generate button is pressed (by a user who may have signed out). */
  datatype Event =
    | Fetched(lookup: Lookup)
    | Generate(user: Option<Id>, draws: seq<int>, reply: Reply<Invite>)

  predicate ValidEvents(events: seq<Event>) {
    forall i :: 0 <= i < |events| && events[i].Generate? ==> ValidDraws(events[i].draws)
  }

  /** The dialog after a run of events, with the handler as written or fixed. */
  function Run(d: Dialog, boardId: Id, events: seq<Event>, fixed: bool): (r: Dialog)
    requires ValidEvents(events)
    decreases |events|
  {
    if |events| == 0 then d
    else
      var e := events[0];
      var next := match e
        case Fetched(l) => FetchInvite(d, l).dialog
        case Generate(u, ds, rep) =>
          if fixed then GenerateNewInviteFixed(d, u, boardId, ds, rep).dialog
          else GenerateNewInvite(d, u, boardId, ds, rep).dialog;
      Run(next, boardId, events[1..], fixed)
  }

  predicate SignedOut(events: seq<Event>) {
    forall i :: 0 <= i < |events| && events[i].Generate? ==> events[i].user.None?
  }

  /** As written: once a signed-out press has happened, no later lookup or
      signed-out press lowers the busy flag again, so the generate button
      keeps its loading state for the rest of the dialog's life. */
  lemma {:induction false} SignedOutPressStaysBusy(d: Dialog, boardId: Id, events: seq<Event>)
    requires ValidEvents(events) && SignedOut(events)
    requires d.generating || exists i :: 0 <= i < |events| && events[i].Generate?
    ensures Run(d, boardId, events, false).generating
    decreases |events|
  {
    if |events| > 0 {
      var e := events[0];
      var next := match e
        case Fetched(l) => FetchInvite(d, l).dialog
        case Generate(u, ds, rep) => GenerateNewInvite(d, u, boardId, ds, rep).dialog;
      assert next.generating || exists i :: 0 <= i < |events[1..]| && events[1..][i].Generate? by {
        if !next.generating {
          var i :| 0 <= i < |events| && events[i].Generate?;
          assert i != 0;
          assert events[1..][i - 1] == events[i];
        }
      }
      assert ValidEvents(events[1..]) && SignedOut(events[1..]) by {
        forall i | 0 <= i < |events[1..]|
          ensures events[1..][i] == events[i + 1]
        {
        }
      }
      SignedOutPressStaysBusy(next, boardId, events[1..]);
    }
  }

  /** A concrete run: the dialog opens, finds no invite, and a signed-out press
      leaves the button loading. */
  lemma SignedOutPressExample(boardId: Id)
    ensures var draws := [0, 0, 0, 0, 0, 0, 0, 0];
      Run(Initial, boardId, [Fetched(Lookup(Some(NoRows), None)), Generate(None, draws, Reply(false, None))], false).generating
  {
    var draws := [0, 0, 0, 0, 0, 0, 0, 0];
    var events := [Fetched(Lookup(Some(NoRows), None)), Generate(None, draws, Reply(false, None))];
    assert ValidDraws(draws);
    var d1 := FetchInvite(Initial, events[0].lookup).dialog;
    assert Run(Initial, boardId, events, false) == Run(d1, boardId, events[1..], false);
    var rest := [Generate(None, draws, Reply(false, None))];
    assert events[1..] == rest;
    var d2 := GenerateNewInvite(d1, None, boardId, draws, Reply(false, None)).dialog;
    assert d2.generating;
    assert Run(d1, boardId, rest, false) == Run(d2, boardId, rest[1..], false);
    assert rest[1..] == [];
  }

  /** Fixed: whatever happens, a dialog that was not busy is not busy after
      any run of events. */
  lemma {:induction false} FixedNeverStaysBusy(d: Dialog, boardId: Id, events: seq<Event>)
    requires ValidEvents(events) && !d.generating
    ensures !Run(d, boardId, events, true).generating
    decreases |events|
  {
    if |events| > 0 {
      var e := events[0];
      var next := match e
        case Fetched(l) => FetchInvite(d, l).dialog
        case Generate(u, ds, rep) => GenerateNewInviteFixed(d, u, boardId, ds, rep).dialog;
      assert ValidEvents(events[1..]) by {
        forall i | 0 <= i < |events[1..]|
          ensures events[1..][i] == events[i + 1]
        {
        }
      }
      FixedNeverStaysBusy(next, boardId, events[1..]);
    }
  }

  // ---------------------------------------------------------------------------
  // What the dialog shows (lines 109-172)

  datatype View =
    | Loading
    | Link(url: string, uses: string, busy: bool)
    | NoInvite(busy: bool)

  /** The spinner while loading, the link with its uses line when there is an
      invite, and the "No invite link yet" prompt otherwise; the generate
      button's loading state is the `generating` flag. */
  function Render(d: Dialog, origin: string): (r: View)
    ensures r.Loading? <==> d.loading
    ensures r.Link? <==> !d.loading && d.invite.Some?
    ensures r.Link? ==> r.url != "" && r.url == InviteUrl(origin, d.invite) && r.uses == UsesLabel(d.invite.value)
    ensures !r.Loading? ==> r.busy == d.generating
  {
    if d.loading then Loading
    else match d.invite
      case Some(inv) => Link(InviteUrl(origin, d.invite), UsesLabel(inv), d.generating)
      case None => NoInvite(d.generating)
  }
}
