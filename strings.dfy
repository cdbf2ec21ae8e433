/**
 * The string operations the form mapping relies on: `str.split(";")`,
 * `str.strip()` and the decimal rendering of a row index in an f-string.
 */
module Strings {

  /** Python's `str.isspace()` for one character: the characters `str.strip()` removes. */
  predicate IsSpace(c: char)
  {
    || c == ' '
    || ('\t' <= c <= '\r')
    || ('\U{1c}' <= c <= '\U{1f}')
    || c == '\U{85}' || c == '\U{a0}' || c == '\U{1680}'
    || ('\U{2000}' <= c <= '\U{200a}')
    || c == '\U{2028}' || c == '\U{2029}' || c == '\U{202f}' || c == '\U{205f}' || c == '\U{3000}'
  }

  predicate AllSpace(s: string)
  {
    forall i :: 0 <= i < |s| ==> IsSpace(s[i])
  }

  /** Neither end of `s` is whitespace. */
  predicate Trimmed(s: string)
  {
    s == [] || (!IsSpace(s[0]) && !IsSpace(s[|s| - 1]))
  }

  /** `s.lstrip()`: the suffix of `s` left after dropping its leading whitespace. */
  function StripLeft(s: string): (r: string)
    ensures |r| <= |s| && r == s[|s| - |r|..]
    ensures AllSpace(s[..|s| - |r|])
    ensures r == [] || !IsSpace(r[0])
    decreases |s|
  {
    if s != [] && IsSpace(s[0]) then
      var r := StripLeft(s[1..]);
      SpaceThenSuffix(s, r);
      r
    else s
  }

  /** `s.rstrip()`: the prefix of `s` left after dropping its trailing whitespace. */
  function StripRight(s: string): (r: string)
    ensures |r| <= |s| && r == s[..|r|]
    ensures AllSpace(s[|r|..])
    ensures r == [] || !IsSpace(r[|r| - 1])
    decreases |s|
  {
    if s != [] && IsSpace(s[|s| - 1]) then
      var r := StripRight(s[..|s| - 1]);
      PrefixThenSpace(s, r);
      r
    else s
  }

  /** One more whitespace character in front of a suffix reached by dropping whitespace. */
  lemma SpaceThenSuffix(s: string, r: string)
    requires s != [] && IsSpace(s[0])
    requires |r| <= |s| - 1 && r == s[1..][|s| - 1 - |r|..] && AllSpace(s[1..][..|s| - 1 - |r|])
    ensures |r| <= |s| && r == s[|s| - |r|..] && AllSpace(s[..|s| - |r|])
  {
    forall i | 0 <= i < |s| - |r|
      ensures IsSpace(s[i])
    {
      if i > 0 {
        assert s[i] == s[1..][..|s| - 1 - |r|][i - 1];
      }
    }
  }

  /** One more whitespace character behind a prefix reached by dropping whitespace. */
  lemma PrefixThenSpace(s: string, r: string)
    requires s != [] && IsSpace(s[|s| - 1])
    requires |r| <= |s| - 1 && r == s[..|s| - 1][..|r|] && AllSpace(s[..|s| - 1][|r|..])
    ensures |r| <= |s| && r == s[..|r|] && AllSpace(s[|r|..])
  {
    forall i | 0 <= i < |s| - |r|
      ensures IsSpace(s[|r|..][i])
    {
      if i < |s| - 1 - |r| {
        assert s[|r|..][i] == s[..|s| - 1][|r|..][i];
      }
    }
  }

  /** `s.strip()`: neither end of the result is whitespace. */
  function Strip(s: string): (r: string)
    ensures Trimmed(r) && |r| <= |s|
  {
    var left := StripLeft(s);
    var r := StripRight(left);
    assert r != [] ==> r[0] == left[0];
    r
  }

  /** `s` is some whitespace, then `s.strip()`, then some whitespace. */
  lemma StripDecomposes(s: string)
    ensures exists lead, trail :: s == lead + Strip(s) + trail && AllSpace(lead) && AllSpace(trail)
  {
    var left := StripLeft(s);
    var r := StripRight(left);
    assert r == Strip(s);
    SliceParts(s, left, r);
    Surrounded(s, s[..|s| - |left|], r, left[|r|..]);
  }

  lemma Surrounded(s: string, lead: string, t: string, trail: string)
    requires s == lead + t + trail && AllSpace(lead) && AllSpace(trail)
    ensures exists lead, trail :: s == lead + t + trail && AllSpace(lead) && AllSpace(trail)
  {
  }

  /** A suffix `left` of `s` and a prefix `r` of `left` cut `s` into three pieces. */
  lemma SliceParts(s: string, left: string, r: string)
    requires |left| <= |s| && left == s[|s| - |left|..]
    requires |r| <= |left| && r == left[..|r|]
    ensures s == s[..|s| - |left|] + r + left[|r|..]
  {
    assert left == r + left[|r|..];
  }

  lemma {:induction false} StripLeftPadded(lead: string, u: string)
    requires AllSpace(lead)
    requires u == [] || !IsSpace(u[0])
    ensures StripLeft(lead + u) == u
    decreases |lead|
  {
    if lead != [] {
      assert (lead + u)[1..] == lead[1..] + u;
      StripLeftPadded(lead[1..], u);
    } else {
      assert lead + u == u;
    }
  }

  lemma {:induction false} StripRightPadded(u: string, trail: string)
    requires AllSpace(trail)
    requires u == [] || !IsSpace(u[|u| - 1])
    ensures StripRight(u + trail) == u
    decreases |trail|
  {
    if trail != [] {
      var n := |u + trail|;
      assert (u + trail)[..n - 1] == u + trail[..|trail| - 1];
      StripRightPadded(u, trail[..|trail| - 1]);
    } else {
      assert u + trail == u;
    }
  }

  /**
   * The reference characterisation of `strip()`: surrounding any trimmed text with
   * whitespace on both sides and stripping gives that text back.
   */
  lemma {:induction false} StripPadded(lead: string, t: string, trail: string)
    requires AllSpace(lead) && AllSpace(trail) && Trimmed(t)
    ensures Strip(lead + t + trail) == t
  {
    if t == [] {
      assert lead + t + trail == (lead + trail) + [];
      StripLeftPadded(lead + trail, []);
    } else {
      assert lead + t + trail == lead + (t + trail);
      StripLeftPadded(lead, t + trail);
      StripRightPadded(t, trail);
    }
  }

  /** Stripping twice is stripping once. */
  lemma StripIdempotent(s: string)
    ensures Strip(Strip(s)) == Strip(s)
  {
    var t := Strip(s);
    assert [] + t + [] == t;
    StripPadded([], t, []);
  }

  /** The list comprehension `[x.strip() for x in xs]`. */
  function StripAll(xs: seq<string>): (r: seq<string>)
    ensures |r| == |xs|
    ensures forall i :: 0 <= i < |xs| ==> r[i] == Strip(xs[i])
  {
    seq(|xs|, i requires 0 <= i < |xs| => Strip(xs[i]))
  }

  /** Number of occurrences of `c` in `s`. */
  function Count(s: string, c: char): nat
  {
    if s == [] then 0 else (if s[0] == c then 1 else 0) + Count(s[1..], c)
  }

  /**
   * `s.split(sep)` with an explicit separator: one piece more than there are
   * separators, empty pieces kept, and no piece contains the separator.
   */
  function Split(s: string, sep: char): (r: seq<string>)
    ensures |r| == Count(s, sep) + 1
    ensures forall i :: 0 <= i < |r| ==> sep !in r[i]
    decreases |s|
  {
    if s == [] then [""]
    else
      var rest := Split(s[1..], sep);
      if s[0] == sep then [""] + rest
      else [[s[0]] + rest[0]] + rest[1..]
  }

  /** `sep.join(pieces)`. */
  function Join(pieces: seq<string>, sep: char): string
    decreases |pieces|
  {
    if pieces == [] then ""
    else if |pieces| == 1 then pieces[0]
    else pieces[0] + [sep] + Join(pieces[1..], sep)
  }

  /** Joining the pieces of a split with the same separator rebuilds the string. */
  lemma {:induction false} JoinSplit(s: string, sep: char)
    ensures Join(Split(s, sep), sep) == s
    decreases |s|
  {
    if s != [] {
      var rest := Split(s[1..], sep);
      JoinSplit(s[1..], sep);
      if s[0] == sep {
        assert ([""] + rest)[1..] == rest;
      } else {
        var r := [[s[0]] + rest[0]] + rest[1..];
        assert r[1..] == rest[1..];
        if |rest| > 1 {
          assert Join(rest, sep) == rest[0] + [sep] + Join(rest[1..], sep);
        }
        assert s == [s[0]] + s[1..];
      }
    }
  }

  /** A prefix without separators becomes the start of the first piece. */
  lemma {:induction false} SplitPrefix(p: string, s: string, sep: char)
    requires sep !in p
    ensures Split(p + s, sep) == [p + Split(s, sep)[0]] + Split(s, sep)[1..]
    decreases |p|
  {
    if p == [] {
      var r := Split(s, sep);
      assert p + s == s && p + r[0] == r[0];
      assert r == [r[0]] + r[1..];
    } else {
      assert (p + s)[1..] == p[1..] + s;
      SplitPrefix(p[1..], s, sep);
      assert [p[0]] + (p[1..] + Split(s, sep)[0]) == p + Split(s, sep)[0];
    }
  }

  /** Splitting what was joined gives the pieces back, when none holds the separator. */
  lemma {:induction false} SplitJoin(pieces: seq<string>, sep: char)
    requires pieces != []
    requires forall i :: 0 <= i < |pieces| ==> sep !in pieces[i]
    ensures Split(Join(pieces, sep), sep) == pieces
    decreases |pieces|
  {
    if |pieces| == 1 {
      SplitPrefix(pieces[0], "", sep);
      assert pieces[0] + "" == pieces[0];
    } else {
      var tail := Join(pieces[1..], sep);
      SplitJoin(pieces[1..], sep);
      assert pieces[0] + [sep] + tail == pieces[0] + ([sep] + tail);
      SplitPrefix(pieces[0], [sep] + tail, sep);
      assert ([sep] + tail)[1..] == tail;
      assert Split([sep] + tail, sep) == [""] + pieces[1..];
      assert pieces[0] + "" == pieces[0];
      assert pieces == [pieces[0]] + pieces[1..];
    }
  }

  predicate IsDigit(c: char)
  {
    '0' <= c <= '9'
  }

  predicate AllDigits(s: string)
  {
    forall i :: 0 <= i < |s| ==> IsDigit(s[i])
  }

  /** `f"{n}"` for a non-negative integer: its decimal digits, most significant first. */
  function NatToString(n: nat): (r: string)
    ensures |r| >= 1 && AllDigits(r)
    ensures r[0] == '0' ==> n == 0
    decreases n
  {
    var last := (48 + n % 10) as char;
    if n < 10 then [last] else NatToString(n / 10) + [last]
  }

  /** The value of a string of decimal digits. */
  function ParseDecimal(s: string): nat
    requires AllDigits(s)
    decreases |s|
  {
    if s == [] then 0 else ParseDecimal(s[..|s| - 1]) * 10 + (s[|s| - 1] as int - 48)
  }

  lemma {:induction false} ParseNatToString(n: nat)
    ensures ParseDecimal(NatToString(n)) == n
    decreases n
  {
    var s := NatToString(n);
    if n >= 10 {
      ParseNatToString(n / 10);
      assert s[..|s| - 1] == NatToString(n / 10);
    }
  }

  /** Distinct indices render as distinct strings. */
  lemma NatToStringInjective(a: nat, b: nat)
    requires NatToString(a) == NatToString(b)
    ensures a == b
  {
    ParseNatToString(a);
    ParseNatToString(b);
  }
}
