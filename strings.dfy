/**
 * The handful of Python `str` operations the flight service relies on when it
 * builds SQL text and audit summaries: `sep.join`, `split` on one character,
 * `strip`, ASCII `lower`/`upper`, `str(int)` — together with the counting of
 * placeholder characters used to relate a statement's text to its parameters.
 */
module Strings {

  // ---------------------------------------------------------------------------
  // join / split
  // ---------------------------------------------------------------------------

  /** Python's `sep.join(parts)`. */
  function Join(parts: seq<string>, sep: string): string
  {
    if |parts| == 0 then ""
    else if |parts| == 1 then parts[0]
    else parts[0] + sep + Join(parts[1..], sep)
  }

  /** Python's `s.split(c)` for a one-character separator `c`. */
  function Split(s: string, c: char): (r: seq<string>)
    ensures |r| >= 1
    ensures forall i :: 0 <= i < |r| ==> c !in r[i]
  {
    if |s| == 0 then [""]
    else
      var rest := Split(s[1..], c);
      if s[0] == c then [""] + rest
      else [[s[0]] + rest[0]] + rest[1..]
  }

  /** Splitting and joining back with the same separator gives the original text. */
  lemma {:induction false} SplitJoin(s: string, c: char)
    ensures Join(Split(s, c), [c]) == s
  {
    if |s| > 0 {
      var rest := Split(s[1..], c);
      SplitJoin(s[1..], c);
      if s[0] == c {
        assert Split(s, c) == [""] + rest;
        assert ([""] + rest)[1..] == rest;
      } else if |rest| == 1 {
        assert Split(s, c) == [[s[0]] + rest[0]];
      } else {
        var r := [[s[0]] + rest[0]] + rest[1..];
        assert r[1..] == rest[1..];
        assert Join(rest, [c]) == rest[0] + [c] + Join(rest[1..], [c]);
        assert s == [s[0]] + s[1..];
      }
    }
  }

  /** A prefix free of the separator is glued onto the first piece. */
  lemma {:induction false} SplitPrefix(t: string, b: string, c: char)
    requires c !in t
    ensures Split(t + b, c) == [t + Split(b, c)[0]] + Split(b, c)[1..]
  {
    if |t| > 0 {
      SplitPrefix(t[1..], b, c);
      var rest := Split(t[1..] + b, c);
      assert (t + b)[0] == t[0] && (t + b)[1..] == t[1..] + b;
      assert Split(t + b, c) == [[t[0]] + rest[0]] + rest[1..];
      assert rest[0] == t[1..] + Split(b, c)[0];
      assert rest[1..] == Split(b, c)[1..];
      assert [t[0]] + (t[1..] + Split(b, c)[0]) == t + Split(b, c)[0];
    } else {
      assert t + b == b;
      assert t + Split(b, c)[0] == Split(b, c)[0];
      assert [Split(b, c)[0]] + Split(b, c)[1..] == Split(b, c);
    }
  }

  /** A separator-free text splits into itself. */
  lemma SplitWhole(a: string, c: char)
    requires c !in a
    ensures Split(a, c) == [a]
  {
    SplitPrefix(a, "", c);
    assert a + "" == a;
  }

  /** Splitting after a separator-free piece and one separator. */
  lemma SplitAfter(a: string, b: string, c: char)
    requires c !in a
    ensures Split(a + [c] + b, c) == [a] + Split(b, c)
  {
    SplitPrefix(a, [c] + b, c);
    assert a + [c] + b == a + ([c] + b);
    assert Split([c] + b, c) == [""] + Split(b, c);
    assert a + "" == a;
  }

  /** The pieces `[p0, t + p1, t + p2, ...]` that splitting `Join(ps, [c] + t)` on `c` yields. */
  function Prefixed(ps: seq<string>, t: string): (r: seq<string>)
    requires |ps| >= 1
  {
    [ps[0]] + seq(|ps| - 1, i requires 0 <= i < |ps| - 1 => t + ps[i + 1])
  }

  /**
   * Splitting a join whose separator is `c` followed by a separator-free tail
   * gives back each part, all but the first preceded by the tail.
   */
  lemma {:induction false} SplitJoined(ps: seq<string>, c: char, t: string)
    requires |ps| >= 1
    requires c !in t
    requires forall i :: 0 <= i < |ps| ==> c !in ps[i]
    ensures Split(Join(ps, [c] + t), c) == Prefixed(ps, t)
  {
    if |ps| == 1 {
      SplitWhole(ps[0], c);
    } else {
      var sep := [c] + t;
      var tail := Join(ps[1..], sep);
      assert Join(ps, sep) == ps[0] + [c] + (t + tail);
      SplitAfter(ps[0], t + tail, c);
      SplitPrefix(t, tail, c);
      SplitJoined(ps[1..], c, t);
      assert Prefixed(ps, t) == [ps[0]] + ([t + ps[1]] + Prefixed(ps[1..], t)[1..]);
    }
  }

  // ---------------------------------------------------------------------------
  // strip
  // ---------------------------------------------------------------------------

  /** The characters for which Python's `str.isspace()` holds. */
  predicate IsSpace(c: char)
  {
    || c == ' ' || c == '\t' || c == '\n' || c == '\r' || c == '\U{000B}' || c == '\U{000C}'
    || ('\U{001C}' <= c <= '\U{001F}') || c == '\U{0085}' || c == '\U{00A0}' || c == '\U{1680}'
    || ('\U{2000}' <= c <= '\U{200A}') || c == '\U{2028}' || c == '\U{2029}' || c == '\U{202F}'
    || c == '\U{205F}' || c == '\U{3000}'
  }

  /** How many white-space characters `s` starts with. */
  function LeadingSpace(s: string): (n: nat)
    ensures n <= |s|
    ensures forall k :: 0 <= k < n ==> IsSpace(s[k])
    ensures n < |s| ==> !IsSpace(s[n])
  {
    if s != [] && IsSpace(s[0]) then
      var n := 1 + LeadingSpace(s[1..]);
      assert forall k :: 1 <= k < n ==> s[k] == s[1..][k - 1];
      n
    else 0
  }

  /** How many white-space characters `s` ends with. */
  function TrailingSpace(s: string): (n: nat)
    ensures n <= |s|
    ensures forall k :: |s| - n <= k < |s| ==> IsSpace(s[k])
    ensures n < |s| ==> !IsSpace(s[|s| - n - 1])
  {
    if s != [] && IsSpace(s[|s| - 1]) then
      var n := 1 + TrailingSpace(s[..|s| - 1]);
      assert forall k :: |s| - n <= k < |s| - 1 ==> s[k] == s[..|s| - 1][k];
      n
    else 0
  }

  /** A slice `s[a..a + |r|]` with nothing but white space around it. */
  predicate SpaceAround(s: string, a: int, r: string)
  {
    && 0 <= a && a + |r| <= |s| && r == s[a..a + |r|]
    && (forall k :: 0 <= k < a ==> IsSpace(s[k]))
    && (forall k :: a + |r| <= k < |s| ==> IsSpace(s[k]))
  }

  /** Python's `s.strip()`: `s` with the white space at both ends cut off. */
  function Strip(s: string): (r: string)
    ensures r == [] <==> forall k :: 0 <= k < |s| ==> IsSpace(s[k])
    ensures r != [] ==> !IsSpace(r[0]) && !IsSpace(r[|r| - 1])
  {
    var a := LeadingSpace(s);
    if a == |s| then [] else s[a..|s| - TrailingSpace(s)]
  }

  /** What `Strip` keeps is a slice of `s` with only white space around it: nothing else is changed. */
  lemma StripIsSlice(s: string)
    ensures exists a :: SpaceAround(s, a, Strip(s))
  {
    var a := LeadingSpace(s);
    if a == |s| {
      assert Strip(s) == [];
      assert SpaceAround(s, a, []);
    } else {
      var r := s[a..|s| - TrailingSpace(s)];
      assert Strip(s) == r;
      assert SpaceAround(s, a, r);
    }
  }

  /** Stripping only removes characters, so it cannot introduce one. */
  lemma StripKeepsOut(s: string, c: char)
    requires c !in s
    ensures c !in Strip(s)
  {
    var r := Strip(s);
    StripIsSlice(s);
    var a :| SpaceAround(s, a, r);
    forall k | 0 <= k < |r| ensures r[k] != c {
      assert r[k] == s[a + k];
    }
  }

  // ---------------------------------------------------------------------------
  // lower / upper
  // ---------------------------------------------------------------------------

  /** `c.lower()` on ASCII letters; every other character is left as it is. */
  function LowerChar(c: char): char
  {
    if 'A' <= c <= 'Z' then (c as int + 32) as char else c
  }

  /** `c.upper()` on ASCII letters; every other character is left as it is. */
  function UpperChar(c: char): char
  {
    if 'a' <= c <= 'z' then (c as int - 32) as char else c
  }

  function Lower(s: string): string
  {
    seq(|s|, i requires 0 <= i < |s| => LowerChar(s[i]))
  }

  function Upper(s: string): string
  {
    seq(|s|, i requires 0 <= i < |s| => UpperChar(s[i]))
  }

  predicate IsLowerWord(t: string)
  {
    forall i :: 0 <= i < |t| ==> 'a' <= t[i] <= 'z'
  }

  /**
   * When `s.lower()` is a word of lower-case letters, `s.upper()` is that
   * word's upper-case form, whatever the case of the letters of `s` was.
   */
  lemma UpperOfLowered(s: string)
    requires IsLowerWord(Lower(s))
    ensures Upper(s) == Upper(Lower(s))
  {
    forall i | 0 <= i < |s|
      ensures Upper(s)[i] == Upper(Lower(s))[i]
    {
      assert Lower(s)[i] == LowerChar(s[i]);
      assert 'a' <= LowerChar(s[i]) <= 'z';
    }
  }

  // ---------------------------------------------------------------------------
  // counting characters
  // ---------------------------------------------------------------------------

  /** Python's `s.count(c)` for one character. */
  function CountChar(s: string, c: char): nat
  {
    if s == [] then 0 else (if s[0] == c then 1 else 0) + CountChar(s[1..], c)
  }

  lemma {:induction false} CountCharConcat(a: string, b: string, c: char)
    ensures CountChar(a + b, c) == CountChar(a, c) + CountChar(b, c)
  {
    if a != [] {
      assert (a + b)[0] == a[0];
      assert (a + b)[1..] == a[1..] + b;
      CountCharConcat(a[1..], b, c);
    } else {
      assert a + b == b;
    }
  }

  lemma {:induction false} CountCharAbsent(s: string, c: char)
    requires c !in s
    ensures CountChar(s, c) == 0
  {
    if s != [] {
      CountCharAbsent(s[1..], c);
    }
  }

  /** Text free of `c` in front contributes nothing to the count. */
  lemma CountCharPlainHead(head: string, s: string, c: char)
    requires c !in head
    ensures CountChar(head + s, c) == CountChar(s, c)
  {
    CountCharAbsent(head, c);
    CountCharConcat(head, s, c);
  }

  /** Text free of `c` at the end contributes nothing to the count. */
  lemma CountCharPlainTail(s: string, tail: string, c: char)
    requires c !in tail
    ensures CountChar(s + tail, c) == CountChar(s, c)
  {
    CountCharAbsent(tail, c);
    CountCharConcat(s, tail, c);
  }

  /**
   * Joining parts that each hold `m` copies of `c` with a separator free of
   * `c` gives `m` copies per part.
   */
  lemma {:induction false} CountCharJoin(ps: seq<string>, sep: string, c: char, m: nat)
    requires c !in sep
    requires forall i :: 0 <= i < |ps| ==> CountChar(ps[i], c) == m
    ensures CountChar(Join(ps, sep), c) == m * |ps|
  {
    if |ps| >= 2 {
      CountCharJoin(ps[1..], sep, c, m);
      CountCharAbsent(sep, c);
      CountCharConcat(ps[0] + sep, Join(ps[1..], sep), c);
      CountCharConcat(ps[0], sep, c);
      assert m * |ps| == m + m * |ps[1..]|;
    }
  }

  // ---------------------------------------------------------------------------
  // identifiers
  // ---------------------------------------------------------------------------

  /** A bare SQL identifier in the form every column of this system has: lower-case letters and `_`. */
  predicate IsIdentifier(s: string)
  {
    s != [] && forall i :: 0 <= i < |s| ==> ('a' <= s[i] <= 'z' || s[i] == '_')
  }

  lemma IdentifierHasNoSpace(s: string)
    requires IsIdentifier(s)
    ensures !IsSpace(s[0]) && !IsSpace(s[|s| - 1])
    ensures '?' !in s && ',' !in s
  {
  }

  /** Identifiers hold no placeholder, no comma, no white space. */
  lemma IdentifierIsPlain(s: string)
    requires IsIdentifier(s)
    ensures CountChar(s, '?') == 0
    ensures ',' !in s
    ensures Strip(s) == s
    ensures Strip(" " + s) == s
  {
    IdentifierHasNoSpace(s);
    CountCharAbsent(s, '?');
    assert LeadingSpace(s) == 0 && TrailingSpace(s) == 0;
    var t := " " + s;
    assert t[1..] == s;
    assert LeadingSpace(t) == 1 && TrailingSpace(t) == 0;
  }

  // ---------------------------------------------------------------------------
  // str(int)
  // ---------------------------------------------------------------------------

  predicate IsDigit(c: char)
  {
    '0' <= c <= '9'
  }

  function DigitChar(d: nat): (c: char)
    requires d < 10
    ensures IsDigit(c)
  {
    ('0' as int + d) as char
  }

  /** Python's `str(n)` for a non-negative integer: its decimal digits. */
  function NatToString(n: nat): (r: string)
    ensures r != [] && forall i :: 0 <= i < |r| ==> IsDigit(r[i])
    ensures |r| > 1 ==> r[0] != '0'
    decreases n
  {
    if n < 10 then [DigitChar(n)] else NatToString(n / 10) + [DigitChar(n % 10)]
  }

  /** Python's `str(n)` for any integer. */
  function IntToString(n: int): string
  {
    if n < 0 then "-" + NatToString(-n) else NatToString(n)
  }

  function DigitValue(c: char): nat
    requires IsDigit(c)
  {
    c as int - '0' as int
  }

  predicate AllDigits(s: string)
  {
    forall i :: 0 <= i < |s| ==> IsDigit(s[i])
  }

  /** The value of a string of decimal digits (the inverse of `NatToString`). */
  function DigitsValue(s: string): nat
    requires AllDigits(s)
  {
    if s == [] then 0 else DigitsValue(s[..|s| - 1]) * 10 + DigitValue(s[|s| - 1])
  }

  predicate IsNumeral(s: string)
  {
    if s != [] && s[0] == '-' then AllDigits(s[1..]) else AllDigits(s)
  }

  /** Python's `int(s)` on the strings `str` produces. */
  function ParseInt(s: string): int
    requires IsNumeral(s)
  {
    if s != [] && s[0] == '-' then -(DigitsValue(s[1..]) as int) else DigitsValue(s)
  }

  lemma {:induction false} NatToStringRoundTrip(n: nat)
    ensures DigitsValue(NatToString(n)) == n
    decreases n
  {
    if n >= 10 {
      NatToStringRoundTrip(n / 10);
      var s := NatToString(n);
      assert s[..|s| - 1] == NatToString(n / 10);
    }
  }

  /** `int(str(n)) == n`: the decimal rendering loses nothing. */
  lemma IntToStringRoundTrip(n: int)
    ensures IsNumeral(IntToString(n))
    ensures ParseInt(IntToString(n)) == n
  {
    if n < 0 {
      NatToStringRoundTrip(-n);
      assert IntToString(n)[1..] == NatToString(-n);
    } else {
      NatToStringRoundTrip(n);
    }
  }
}
