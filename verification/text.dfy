/** The few string primitives the forms rely on: JavaScript's `trim`, the
    upper-casing of an initial, and the decimal rendering of a number in a
    template literal. */
module Text {

  // ---------------------------------------------------------------------------
  // trim

  /** The characters `String.prototype.trim` strips: ECMAScript's WhiteSpace
      (tab, vertical tab, form feed, space, no-break space, byte order mark and
      the Unicode space separators) and LineTerminator (LF, CR, U+2028, U+2029). */
  predicate IsSpace(c: char) {
    var n := c as int;
    || (0x09 <= n <= 0x0D)
    || n == 0x20 || n == 0xA0 || n == 0x1680
    || (0x2000 <= n <= 0x200A)
    || n == 0x2028 || n == 0x2029 || n == 0x202F || n == 0x205F
    || n == 0x3000 || n == 0xFEFF
  }

  predicate AllSpace(s: string) {
    forall i :: 0 <= i < |s| ==> IsSpace(s[i])
  }

  /** Neither the first nor the last character is white space. */
  predicate Tight(s: string) {
    |s| > 0 ==> !IsSpace(s[0]) && !IsSpace(s[|s| - 1])
  }

  /** `s.trimStart()`: the suffix left after dropping the leading white space. */
  function TrimStart(s: string): (r: string)
    ensures |r| <= |s| && r == s[|s| - |r|..]
    ensures AllSpace(s[..|s| - |r|])
    ensures |r| > 0 ==> !IsSpace(r[0])
  {
    if |s| > 0 && IsSpace(s[0]) then
      var r := TrimStart(s[1..]);
      TrimStartStep(s, r);
      r
    else s
  }

  /** Dropping one more leading space keeps the suffix and the blank prefix. */
  lemma TrimStartStep(s: string, r: string)
    requires |s| > 0 && IsSpace(s[0])
    requires |r| <= |s| - 1 && r == s[1..][|s| - 1 - |r|..] && AllSpace(s[1..][..|s| - 1 - |r|])
    ensures r == s[|s| - |r|..] && AllSpace(s[..|s| - |r|])
  {
    AllSpaceCons(s[0], s[1..][..|s| - 1 - |r|]);
    assert s[..|s| - |r|] == [s[0]] + s[1..][..|s| - 1 - |r|];
  }

  /** Dropping one more trailing space keeps the prefix and the blank suffix. */
  lemma TrimEndStep(s: string, r: string)
    requires |s| > 0 && IsSpace(s[|s| - 1])
    requires |r| <= |s| - 1 && r == s[..|s| - 1][..|r|] && AllSpace(s[..|s| - 1][|r|..])
    ensures r == s[..|r|] && AllSpace(s[|r|..])
  {
    AllSpaceSnoc(s[..|s| - 1][|r|..], s[|s| - 1]);
    assert s[|r|..] == s[..|s| - 1][|r|..] + [s[|s| - 1]];
  }

  lemma AllSpaceCons(c: char, t: string)
    requires IsSpace(c) && AllSpace(t)
    ensures AllSpace([c] + t)
  {
    forall i | 0 <= i < |[c] + t|
      ensures IsSpace(([c] + t)[i])
    {
      if i > 0 {
        assert ([c] + t)[i] == t[i - 1];
      }
    }
  }

  lemma AllSpaceSnoc(t: string, c: char)
    requires AllSpace(t) && IsSpace(c)
    ensures AllSpace(t + [c])
  {
    forall i | 0 <= i < |t + [c]|
      ensures IsSpace((t + [c])[i])
    {
      if i < |t| {
        assert (t + [c])[i] == t[i];
      }
    }
  }

  /** `s.trimEnd()`: the prefix left after dropping the trailing white space. */
  function TrimEnd(s: string): (r: string)
    ensures |r| <= |s| && r == s[..|r|]
    ensures AllSpace(s[|r|..])
    ensures |r| > 0 ==> !IsSpace(r[|r| - 1])
  {
    if |s| > 0 && IsSpace(s[|s| - 1]) then
      var r := TrimEnd(s[..|s| - 1]);
      TrimEndStep(s, r);
      r
    else s
  }

  /** `s.trim()`: `s` with white space cut from both ends. The result is empty
      exactly when `s` is blank, and otherwise starts and ends with a visible
      character. */
  function Trim(s: string): (r: string)
    ensures |r| <= |s|
    ensures Tight(r)
    ensures |r| == 0 <==> AllSpace(s)
  {
    var t := TrimStart(s);
    var r := TrimEnd(t);
    if |r| == 0 then
      assert AllSpace(t) by {
        assert t == t[|r|..];
      }
      assert s == s[..|s| - |t|] + t;
      r
    else r
  }

  /** `r` sits in `s` at index `k` between two runs of white space. */
  predicate InfixAt(s: string, r: string, k: int) {
    && 0 <= k <= |s| - |r|
    && r == s[k..k + |r|]
    && AllSpace(s[..k])
    && AllSpace(s[k + |r|..])
  }

  /** The trimmed string is the middle of `s` between two runs of white space. */
  lemma TrimInfix(s: string)
    ensures exists k :: InfixAt(s, Trim(s), k)
  {
    var t := TrimStart(s);
    var r := TrimEnd(t);
    InfixOf(s, t, r);
    assert Trim(s) == r;
  }

  /** A prefix `r` of a suffix `t` of `s`, with blank text cut on both sides,
      sits in `s` between two blank runs. */
  lemma InfixOf(s: string, t: string, r: string)
    requires |t| <= |s| && t == s[|s| - |t|..] && AllSpace(s[..|s| - |t|])
    requires |r| <= |t| && r == t[..|r|] && AllSpace(t[|r|..])
    ensures InfixAt(s, r, |s| - |t|)
  {
    SliceParts(s, |s| - |t|, |r|);
  }

  lemma SliceParts(s: string, k: nat, n: nat)
    requires k + n <= |s|
    ensures s[k..][..n] == s[k..k + n] && s[k..][n..] == s[k + n..]
  {
  }

  /** A white-space-only prefix or suffix never survives: if `s` is `a + m + b`
      with `a` and `b` blank and `m` tight, trimming gives back exactly `m`. */
  lemma {:induction false} TrimExact(a: string, m: string, b: string)
    requires AllSpace(a) && AllSpace(b) && Tight(m) && |m| > 0
    ensures Trim(a + m + b) == m
  {
    var s := a + m + b;
    assert s == a + (m + b);
    assert (m + b)[0] == m[0];
    TrimStartExact(a, m + b);
    TrimEndExact(m, b);
    assert TrimStart(s) == m + b;
  }

  lemma {:induction false} TrimStartExact(a: string, t: string)
    requires AllSpace(a) && |t| > 0 && !IsSpace(t[0])
    ensures TrimStart(a + t) == t
    decreases |a|
  {
    if |a| > 0 {
      assert (a + t)[1..] == a[1..] + t;
      TrimStartExact(a[1..], t);
    } else {
      assert a + t == t;
    }
  }

  lemma {:induction false} TrimEndExact(t: string, b: string)
    requires AllSpace(b) && |t| > 0 && !IsSpace(t[|t| - 1])
    ensures TrimEnd(t + b) == t
    decreases |b|
  {
    if |b| > 0 {
      assert (t + b)[..|t + b| - 1] == t + b[..|b| - 1];
      TrimEndExact(t, b[..|b| - 1]);
    } else {
      assert t + b == t;
    }
  }

  /** Trimming twice is trimming once. */
  lemma TrimIdempotent(s: string)
    ensures Trim(Trim(s)) == Trim(s)
  {
    var m := Trim(s);
    if |m| > 0 {
      assert m == [] + m + [];
      TrimExact([], m, []);
    }
  }

  // ---------------------------------------------------------------------------
  // toUpperCase on one character

  /** `toUpperCase` on the ASCII letters; every other character is returned
      unchanged. */
  function Upper(c: char): (r: char)
    ensures !('a' <= r <= 'z')
    ensures r != c ==> 'a' <= c <= 'z' && r as int == c as int - 32
  {
    if 'a' <= c <= 'z' then (c as int - 32) as char else c
  }

  // ---------------------------------------------------------------------------
  // Decimal rendering of an integer in a template literal

  function Digit(d: nat): (r: char)
    requires d < 10
    ensures '0' <= r <= '9'
  {
    ('0' as int + d) as char
  }

  predicate IsDigits(s: string) {
    forall i :: 0 <= i < |s| ==> '0' <= s[i] <= '9'
  }

  /** The base-ten digits of `n`, most significant first, with no leading zero. */
  function NatToString(n: nat): (r: string)
    ensures |r| > 0 && IsDigits(r)
    ensures |r| > 1 ==> r[0] != '0'
  {
    if n < 10 then [Digit(n)] else NatToString(n / 10) + [Digit(n % 10)]
  }

  /** `${i}` for an integer: a minus sign before the digits of a negative value. */
  function IntToString(i: int): (r: string)
    ensures |r| > 0
    ensures i >= 0 ==> IsDigits(r)
    ensures i < 0 ==> r[0] == '-' && IsDigits(r[1..])
  {
    if i < 0 then "-" + NatToString(-i) else NatToString(i)
  }

  /** The value a string of decimal digits denotes. */
  function DigitsValue(s: string): (r: nat)
    requires IsDigits(s)
  {
    if |s| == 0 then 0
    else DigitsValue(s[..|s| - 1]) * 10 + (s[|s| - 1] as int - '0' as int)
  }

  /** Reading the digits back gives the number. */
  lemma {:induction false} NatToStringValue(n: nat)
    ensures DigitsValue(NatToString(n)) == n
  {
    if n >= 10 {
      NatToStringValue(n / 10);
      var s := NatToString(n);
      assert s[..|s| - 1] == NatToString(n / 10);
    }
  }

  /** Different numbers render differently. */
  lemma IntToStringInjective(i: int, j: int)
    requires IntToString(i) == IntToString(j)
    ensures i == j
  {
    if i < 0 && j < 0 {
      var s := IntToString(i);
      assert NatToString(-i) == s[1..] == NatToString(-j);
      NatToStringInjective(-i, -j);
    } else if i >= 0 && j >= 0 {
      NatToStringInjective(i, j);
    } else {
      SignShows(i, j);
    }
  }

  lemma NatToStringInjective(a: nat, b: nat)
    requires NatToString(a) == NatToString(b)
    ensures a == b
  {
    NatToStringValue(a);
    NatToStringValue(b);
  }

  /** A negative number prints with a minus sign, which no digit string starts with. */
  lemma SignShows(i: int, j: int)
    requires (i < 0) != (j < 0)
    ensures IntToString(i) != IntToString(j)
  {
    if i < 0 {
      assert IntToString(i)[0] == '-' && '0' <= IntToString(j)[0] <= '9';
    } else {
      assert IntToString(j)[0] == '-' && '0' <= IntToString(i)[0] <= '9';
    }
  }
}
