/**
 * The PHP string primitives the plugin relies on: decimal digits, integer
 * printing, explode/implode, single-character str_replace and the byte-wise
 * ordering strcmp uses.
 */
module PhpStrings {

  predicate IsDigit(c: char) { '0' <= c <= '9' }

  function DigitValue(c: char): (d: nat)
    requires IsDigit(c)
    ensures d < 10
  {
    c as int - '0' as int
  }

  function DigitChar(d: nat): (c: char)
    requires d < 10
    ensures IsDigit(c) && DigitValue(c) == d
  {
    ('0' as int + d) as char
  }

  predicate AllDigits(s: string) {
    forall i :: 0 <= i < |s| ==> IsDigit(s[i])
  }

  /** The number a run of decimal digits denotes, most significant digit first. */
  function DigitsValue(s: string): nat
    requires AllDigits(s)
  {
    if |s| == 0 then 0 else 10 * DigitsValue(s[..|s| - 1]) + DigitValue(s[|s| - 1])
  }

  /** How PHP prints a non-negative integer: decimal, no leading zeros. */
  function NatToString(n: nat): (r: string)
    ensures |r| > 0 && AllDigits(r)
    ensures DigitsValue(r) == n
    ensures r[0] == '0' ==> r == "0"
  {
    if n < 10 then [DigitChar(n)]
    else
      var prefix := NatToString(n / 10);
      var r := prefix + [DigitChar(n % 10)];
      assert r[..|r| - 1] == prefix;
      r
  }

  /** How PHP prints an integer. */
  function IntToString(i: int): string {
    if i < 0 then "-" + NatToString(-i) else NatToString(i)
  }

  /** PHP's empty() on a string: true for "" and for "0". */
  predicate PhpEmpty(s: string) {
    s == "" || s == "0"
  }

  /** Number of occurrences of c in s. */
  function Count(s: string, c: char): nat {
    if |s| == 0 then 0 else (if s[0] == c then 1 else 0) + Count(s[1..], c)
  }

  lemma {:induction false} CountAppend(a: string, b: string, c: char)
    ensures Count(a + b, c) == Count(a, c) + Count(b, c)
  {
    if |a| == 0 {
      assert a + b == b;
    } else {
      assert (a + b)[1..] == a[1..] + b;
      CountAppend(a[1..], b, c);
    }
  }

  /** PHP's implode(sep, parts). */
  function Implode(parts: seq<string>, sep: char): string {
    if |parts| == 0 then ""
    else if |parts| == 1 then parts[0]
    else parts[0] + [sep] + Implode(parts[1..], sep)
  }

  /**
   * PHP's explode(sep, s) for a one-character separator: the maximal
   * separator-free pieces, in order; the empty string gives one empty piece.
   */
  function Explode(s: string, sep: char): (parts: seq<string>)
    ensures |parts| == Count(s, sep) + 1
    ensures forall i :: 0 <= i < |parts| ==> sep !in parts[i]
    ensures Implode(parts, sep) == s
  {
    if |s| == 0 then [""]
    else
      var rest := Explode(s[1..], sep);
      if s[0] == sep then
        var parts := [""] + rest;
        assert parts[1..] == rest;
        assert Implode(parts, sep) == [sep] + s[1..];
        parts
      else
        var parts := [[s[0]] + rest[0]] + rest[1..];
        assert s == [s[0]] + s[1..];
        if |rest| == 1 then parts
        else
          assert parts[1..] == rest[1..];
          parts
  }

  /** Splitting a separator-free prefix off the front of a string. */
  lemma {:induction false} ExplodeFreePrefix(a: string, b: string, sep: char)
    requires sep !in a
    ensures Explode(a + b, sep) == [a + Explode(b, sep)[0]] + Explode(b, sep)[1..]
  {
    hide Implode, Count;
    var e := Explode(b, sep);
    if |a| == 0 {
      assert a + b == b;
      assert a + e[0] == e[0];
      assert e == [e[0]] + e[1..];
    } else {
      assert (a + b)[1..] == a[1..] + b;
      ExplodeFreePrefix(a[1..], b, sep);
      assert [a[0]] + (a[1..] + Explode(b, sep)[0]) == a + Explode(b, sep)[0];
    }
  }

  /** explode undoes implode when no piece contains the separator. */
  lemma {:induction false} ExplodeImplode(parts: seq<string>, sep: char)
    requires |parts| >= 1
    requires forall i :: 0 <= i < |parts| ==> sep !in parts[i]
    ensures Explode(Implode(parts, sep), sep) == parts
  {
    if |parts| == 1 {
      ExplodeFreePrefix(parts[0], "", sep);
      assert parts[0] + "" == parts[0];
    } else {
      var tail := Implode(parts[1..], sep);
      ExplodeImplode(parts[1..], sep);
      assert ([sep] + tail)[1..] == tail;
      assert Explode([sep] + tail, sep) == [""] + parts[1..];
      assert parts[0] + [sep] + tail == parts[0] + ([sep] + tail);
      ExplodeFreePrefix(parts[0], [sep] + tail, sep);
      assert parts[0] + "" == parts[0];
    }
  }

  /** PHP's str_replace(from, to, s) for one-character search and replacement strings. */
  function ReplaceChar(s: string, from: char, to: char): (r: string)
    ensures |r| == |s|
    ensures forall i :: 0 <= i < |s| ==> r[i] == (if s[i] == from then to else s[i])
  {
    if |s| == 0 then "" else [if s[0] == from then to else s[0]] + ReplaceChar(s[1..], from, to)
  }

  /** Replacing a character by a different one leaves none of it behind; a string without it is untouched. */
  lemma ReplaceCharRemoves(s: string, from: char, to: char)
    ensures from != to ==> from !in ReplaceChar(s, from, to)
    ensures from !in s ==> ReplaceChar(s, from, to) == s
  {
    var r := ReplaceChar(s, from, to);
    if from !in s {
      assert forall i :: 0 <= i < |s| ==> r[i] == s[i];
    }
  }

  /** strcmp(a, b) < 0: the byte-wise order, a proper prefix coming first. */
  predicate LexLess(a: string, b: string) {
    if |a| == 0 then |b| > 0
    else if |b| == 0 then false
    else if a[0] != b[0] then a[0] < b[0]
    else LexLess(a[1..], b[1..])
  }

  /** The strcmp order is a strict order: irreflexive and asymmetric. */
  lemma {:induction false} LexLessStrict(a: string, b: string)
    ensures !LexLess(a, a)
    ensures LexLess(a, b) ==> !LexLess(b, a)
  {
    if |a| > 0 && |b| > 0 {
      LexLessStrict(a[1..], b[1..]);
    }
    if |a| > 0 {
      LexLessStrict(a[1..], a[1..]);
    }
  }
}
