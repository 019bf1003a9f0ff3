/**
 The few JavaScript built-ins the engine relies on, stated over strings:
 unary `+` on a string, number-to-string conversion of an integer,
 `String.prototype.split` with a one-character separator and
 `String.prototype.replace` with a literal pattern (first match only).
 */
module Js {

  /** Number.MAX_SAFE_INTEGER: beyond it a JavaScript number no longer holds every integer. */
  const MAX_SAFE_INTEGER: int := 0x1F_FFFF_FFFF_FFFF

  /** The safe integers (Number.isSafeInteger): every integer of at most this magnitude is a JavaScript number. */
  type SafeInt = n: int | -MAX_SAFE_INTEGER <= n <= MAX_SAFE_INTEGER

  /**
   A JavaScript number produced from text. `Int` is an exact integer; `Unmodelled`
   keeps the trimmed text of every other outcome (a fraction, an exponent, a hexadecimal
   literal, Infinity, NaN, or an integer outside the safe range), which this model does
   not evaluate.
   */
  datatype Number = Int(value: SafeInt) | Unmodelled(text: string)

  /** StrWhiteSpaceChar of ECMAScript: white space and line terminators. */
  predicate IsSpace(c: char) {
    c == '\t' || c == '\n' || c == '\U{B}' || c == '\U{C}' || c == '\r' || c == ' ' ||
    c == '\U{A0}' || c == '\U{1680}' || ('\U{2000}' <= c <= '\U{200A}') ||
    c == '\U{2028}' || c == '\U{2029}' || c == '\U{202F}' || c == '\U{205F}' ||
    c == '\U{3000}' || c == '\U{FEFF}'
  }

  function TrimStart(s: string): (r: string)
    decreases |s|
  {
    if |s| > 0 && IsSpace(s[0]) then TrimStart(s[1..]) else s
  }

  function TrimEnd(s: string): (r: string)
    decreases |s|
  {
    if |s| > 0 && IsSpace(s[|s| - 1]) then TrimEnd(s[..|s| - 1]) else s
  }

  /** String.prototype.trim, as the string-to-number conversion applies it. */
  function Trim(s: string): string {
    TrimEnd(TrimStart(s))
  }

  predicate IsDigit(c: char) {
    '0' <= c <= '9'
  }

  predicate AllDigits(s: string) {
    forall k :: 0 <= k < |s| ==> IsDigit(s[k])
  }

  function DigitChar(d: nat): (c: char)
    requires d < 10
    ensures IsDigit(c)
  {
    ('0' as int + d) as char
  }

  function DigitValue(c: char): (d: nat)
    requires IsDigit(c)
    ensures d < 10 && DigitChar(d) == c
  {
    (c as int) - ('0' as int)
  }

  /** The value of a string of decimal digits (leading zeros allowed). */
  function ParseDigits(s: string): nat
    requires AllDigits(s)
  {
    if s == [] then 0 else 10 * ParseDigits(s[..|s| - 1]) + DigitValue(s[|s| - 1])
  }

  /** The decimal digits of n, without leading zeros. */
  function NatToString(n: nat): (r: string)
    ensures |r| > 0 && AllDigits(r)
  {
    if n < 10 then [DigitChar(n)] else NatToString(n / 10) + [DigitChar(n % 10)]
  }

  lemma {:induction false} NatToStringRoundTrip(n: nat)
    ensures ParseDigits(NatToString(n)) == n
  {
    if n >= 10 {
      var s := NatToString(n);
      NatToStringRoundTrip(n / 10);
      assert s[..|s| - 1] == NatToString(n / 10);
    }
  }

  /** The text "[+|-]digits" that the string-to-number conversion reads as a decimal integer. */
  predicate IsDecimalInteger(t: string) {
    if |t| > 0 && (t[0] == '+' || t[0] == '-') then |t| > 1 && AllDigits(t[1..])
    else |t| > 0 && AllDigits(t)
  }

  function DecimalValue(t: string): int
    requires IsDecimalInteger(t)
  {
    if t[0] == '-' then -(ParseDigits(t[1..]) as int)
    else if t[0] == '+' then ParseDigits(t[1..])
    else ParseDigits(t)
  }

  /** Unary `+` applied to a string: surrounding white space is ignored and the empty string is 0. */
  function ToNumber(s: string): (r: Number)
    ensures Trim(s) == "" ==> r == Int(0)
    ensures r.Unmodelled? ==> r.text == Trim(s) && r.text != ""
  {
    var t := Trim(s);
    if t == "" then Int(0)
    else if IsDecimalInteger(t) && -MAX_SAFE_INTEGER <= DecimalValue(t) <= MAX_SAFE_INTEGER then
      Int(DecimalValue(t))
    else Unmodelled(t)
  }

  /** The text `${n}` gives for a safe integer n (a negative zero prints as "0", as 0 does). */
  function IntToString(n: SafeInt): (r: string)
    ensures |r| > 0 && IsDigit(r[|r| - 1])
    ensures IsDigit(r[0]) || r[0] == '-'
    ensures forall k :: 0 <= k < |r| ==> IsDigit(r[k]) || r[k] == '-'
    ensures forall k :: 1 <= k < |r| ==> IsDigit(r[k])
  {
    if n < 0 then "-" + NatToString(-n) else NatToString(n)
  }

  /** Reading back the text of an integer, with any white space in front, gives the integer. */
  lemma IntToStringRoundTrip(pad: string, n: SafeInt)
    requires forall k :: 0 <= k < |pad| ==> IsSpace(pad[k])
    ensures ToNumber(pad + IntToString(n)) == Int(n)
  {
    var t := IntToString(n);
    TrimmedPadding(pad, t);
    assert IsDecimalInteger(t) && DecimalValue(t) == n by {
      if n < 0 {
        NatToStringRoundTrip(-n);
        assert t[1..] == NatToString(-n);
      } else {
        NatToStringRoundTrip(n);
      }
    }
  }

  lemma {:induction false} TrimStartPadding(pad: string, t: string)
    requires forall k :: 0 <= k < |pad| ==> IsSpace(pad[k])
    requires |t| > 0 && !IsSpace(t[0])
    ensures TrimStart(pad + t) == t
    decreases |pad|
  {
    if pad != [] {
      assert (pad + t)[0] == pad[0];
      assert (pad + t)[1..] == pad[1..] + t;
      TrimStartPadding(pad[1..], t);
    }
  }

  lemma TrimmedPadding(pad: string, t: string)
    requires forall k :: 0 <= k < |pad| ==> IsSpace(pad[k])
    requires |t| > 0 && !IsSpace(t[0]) && !IsSpace(t[|t| - 1])
    ensures Trim(pad + t) == t
  {
    TrimStartPadding(pad, t);
  }

  /** The number of occurrences of c in s. */
  function Count(s: string, c: char): nat
    decreases |s|
  {
    if s == [] then 0 else (if s[0] == c then 1 else 0) + Count(s[1..], c)
  }

  /** String.prototype.split with a one-character separator: always at least one piece. */
  function Split(s: string, sep: char): (r: seq<string>)
    ensures |r| == Count(s, sep) + 1
    ensures forall k :: 0 <= k < |r| ==> sep !in r[k]
    decreases |s|
  {
    if s == [] then [""]
    else
      var rest := Split(s[1..], sep);
      assert s == [s[0]] + s[1..];
      if s[0] == sep then [""] + rest else [[s[0]] + rest[0]] + rest[1..]
  }

  /** The pieces joined back with the separator. */
  function Join(pieces: seq<string>, sep: char): string
    requires |pieces| > 0
  {
    if |pieces| == 1 then pieces[0] else pieces[0] + [sep] + Join(pieces[1..], sep)
  }

  lemma {:induction false} SplitJoin(s: string, sep: char)
    ensures Join(Split(s, sep), sep) == s
    decreases |s|
  {
    if s != [] {
      SplitJoin(s[1..], sep);
      var rest := Split(s[1..], sep);
      var r := Split(s, sep);
      assert s == [s[0]] + s[1..];
      if s[0] == sep {
        assert r == [""] + rest && r[1..] == rest;
        assert Join(r, sep) == [sep] + Join(rest, sep);
      } else if |rest| == 1 {
        assert r == [[s[0]] + rest[0]];
      } else {
        var head := [s[0]] + rest[0];
        assert r == [head] + rest[1..] && r[1..] == rest[1..];
        var tail := Join(rest[1..], sep);
        assert Join(r, sep) == head + [sep] + tail;
        assert Join(rest, sep) == rest[0] + [sep] + tail;
      }
    }
  }

  /** A piece without the separator is split off whole. */
  lemma {:induction false} SplitFirst(a: string, sep: char, b: string)
    requires sep !in a
    ensures Split(a + [sep] + b, sep) == [a] + Split(b, sep)
    decreases |a|
  {
    if a == [] {
      assert [sep] + b == a + [sep] + b;
      assert ([sep] + b)[1..] == b;
    } else {
      SplitFirst(a[1..], sep, b);
      assert (a + [sep] + b)[1..] == a[1..] + [sep] + b;
      assert [a[0]] + a[1..] == a;
    }
  }

  lemma {:induction false} SplitWhole(a: string, sep: char)
    requires sep !in a
    ensures Split(a, sep) == [a]
    decreases |a|
  {
    if a != [] {
      SplitWhole(a[1..], sep);
      assert [a[0]] + a[1..] == a;
    }
  }

  /** String.prototype.replace(p, '') with a literal pattern p: only the first match is removed. */
  function RemoveFirst(s: string, p: string): string
    decreases |s|
  {
    if |s| < |p| then s
    else if s[..|p|] == p then s[|p|..]
    else [s[0]] + RemoveFirst(s[1..], p)
  }

  lemma {:induction false} RemoveFirstAbsent(s: string, p: string)
    requires |p| > 0 && p[0] !in s
    ensures RemoveFirst(s, p) == s
    decreases |s|
  {
    if |s| >= |p| {
      assert s[..|p|][0] != p[0];
      RemoveFirstAbsent(s[1..], p);
      assert [s[0]] + s[1..] == s;
    }
  }

  lemma {:induction false} RemoveFirstMatch(a: string, p: string, b: string)
    requires |p| > 0 && p[0] !in a
    ensures RemoveFirst(a + p + b, p) == a + b
    decreases |a|
  {
    var s := a + p + b;
    if a == [] {
      assert s[..|p|] == p && s[|p|..] == b;
    } else {
      assert s[..|p|][0] == a[0] != p[0];
      RemoveFirstMatch(a[1..], p, b);
      assert s[1..] == a[1..] + p + b;
      assert [a[0]] + (a[1..] + b) == a + b;
    }
  }

  /** The pattern p occurs in s starting at index k. */
  predicate MatchesAt(s: string, p: string, k: nat) {
    k + |p| <= |s| && s[k..k + |p|] == p
  }

  /** A text in which the pattern occurs nowhere is left unchanged. */
  lemma {:induction false} RemoveFirstNoMatch(s: string, p: string)
    requires forall k :: 0 <= k <= |s| ==> !MatchesAt(s, p, k)
    ensures RemoveFirst(s, p) == s
    decreases |s|
  {
    if |s| >= |p| {
      assert !MatchesAt(s, p, 0);
      var t := s[1..];
      forall k | 0 <= k <= |t|
        ensures !MatchesAt(t, p, k)
      {
        assert !MatchesAt(s, p, k + 1);
        if k + |p| <= |t| {
          assert t[k..k + |p|] == s[k + 1..k + 1 + |p|];
        }
      }
      RemoveFirstNoMatch(t, p);
      assert [s[0]] + t == s;
    }
  }

  /** The leftmost occurrence of the pattern is the one removed, and the text around it is kept. */
  lemma {:induction false} RemoveFirstLeftmost(a: string, p: string, b: string)
    requires forall k :: 0 <= k < |a| ==> !MatchesAt(a + p + b, p, k)
    ensures RemoveFirst(a + p + b, p) == a + b
    decreases |a|
  {
    var s := a + p + b;
    if a == [] {
      assert s[..|p|] == p && s[|p|..] == b;
    } else {
      assert !MatchesAt(s, p, 0);
      var t := s[1..];
      assert t == a[1..] + p + b;
      forall k | 0 <= k < |a[1..]|
        ensures !MatchesAt(t, p, k)
      {
        assert !MatchesAt(s, p, k + 1);
        if k + |p| <= |t| {
          assert t[k..k + |p|] == s[k + 1..k + 1 + |p|];
        }
      }
      RemoveFirstLeftmost(a[1..], p, b);
      assert [a[0]] + (a[1..] + b) == a + b;
    }
  }
}
