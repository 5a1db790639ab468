/** Decimal numbers in text, as character codes: what `printf` writes and what the `strtol` family reads. */
module Decimal {

  predicate IsDigitCode(c: int) {
    0x30 <= c <= 0x39
  }

  predicate IsSpaceCode(c: int) {
    c == 0x20 || 0x09 <= c <= 0x0D
  }

  predicate AllDigits(s: seq<int>) {
    forall i :: 0 <= i < |s| ==> IsDigitCode(s[i])
  }

  /** How many leading characters are digits. */
  function DigitRun(s: seq<int>): (n: nat)
    ensures n <= |s| && AllDigits(s[..n])
  {
    if s == [] || !IsDigitCode(s[0]) then 0
    else
      var n := 1 + DigitRun(s[1..]);
      assert s[..n] == [s[0]] + s[1..][..n - 1];
      n
  }

  function SpaceRun(s: seq<int>): (n: nat)
    ensures n <= |s|
  {
    if s == [] || !IsSpaceCode(s[0]) then 0 else 1 + SpaceRun(s[1..])
  }

  function Value(s: seq<int>): (v: nat)
    requires AllDigits(s)
  {
    if s == [] then 0 else Value(s[..|s| - 1]) * 10 + (s[|s| - 1] - 0x30)
  }

  /** The digits of `n`. */
  function DecimalDigits(n: nat): (s: seq<int>)
    ensures s != [] && AllDigits(s)
  {
    if n < 10 then [0x30 + n] else DecimalDigits(n / 10) + [0x30 + n % 10]
  }

  /** What `strtol` and `strtoul` read off the front of a text: a sign, a magnitude, and where it ends. Without
      any digit nothing is read. */
  datatype Scanned = Scanned(negative: bool, magnitude: nat, end: nat)

  function ScanNumber(s: seq<int>): (r: Scanned)
    ensures r.end <= |s|
  {
    var k := SpaceRun(s);
    var negative := k < |s| && s[k] == 0x2D;
    NumberAt(s, negative, if negative || (k < |s| && s[k] == 0x2B) then k + 1 else k)
  }

  /** The digits at position `from`. */
  function NumberAt(s: seq<int>, negative: bool, from: nat): (r: Scanned)
    requires from <= |s|
    ensures r.end <= |s|
  {
    var n := DigitRun(s[from..]);
    if n == 0 then Scanned(false, 0, 0) else Scanned(negative, Value(s[from..][..n]), from + n)
  }

  lemma {:induction false} ValueOfDigits(n: nat)
    ensures Value(DecimalDigits(n)) == n
  {
    var s := DecimalDigits(n);
    if n < 10 {
      assert s[..0] == [];
    } else {
      ValueOfDigits(n / 10);
      assert s[..|s| - 1] == DecimalDigits(n / 10);
    }
  }

  lemma {:induction false} DigitRunIs(a: seq<int>, b: seq<int>)
    requires AllDigits(a) && (b == [] || !IsDigitCode(b[0]))
    ensures DigitRun(a + b) == |a|
  {
    if a == [] {
      assert a + b == b;
    } else {
      assert (a + b)[1..] == a[1..] + b;
      DigitRunIs(a[1..], b);
    }
  }

  /** `n` with its sign, as `printf` writes it. */
  function SignedDigits(negative: bool, n: nat): (s: seq<int>) {
    if negative then [0x2D] + DecimalDigits(n) else DecimalDigits(n)
  }

  lemma NumberAtIs(s: seq<int>, negative: bool, from: nat, d: seq<int>, rest: seq<int>)
    requires from <= |s| && s[from..] == d + rest && d != [] && AllDigits(d) && (rest == [] || !IsDigitCode(rest[0]))
    ensures NumberAt(s, negative, from) == Scanned(negative, Value(d), from + |d|)
  {
    DigitRunIs(d, rest);
    assert (d + rest)[..|d|] == d;
  }

  lemma ScanPlain(s: seq<int>, d: seq<int>, rest: seq<int>)
    requires s == d + rest && d != [] && AllDigits(d) && (rest == [] || !IsDigitCode(rest[0]))
    ensures ScanNumber(s) == Scanned(false, Value(d), |d|)
  {
    assert s[0] == d[0] && IsDigitCode(d[0]);
    assert s[0..] == s;
    NumberAtIs(s, false, 0, d, rest);
  }

  lemma ScanNegative(s: seq<int>, d: seq<int>, rest: seq<int>)
    requires s == [0x2D] + (d + rest) && d != [] && AllDigits(d) && (rest == [] || !IsDigitCode(rest[0]))
    ensures ScanNumber(s) == Scanned(true, Value(d), 1 + |d|)
  {
    assert s[0] == 0x2D && s[1..] == d + rest;
    NumberAtIs(s, true, 1, d, rest);
  }

  /** A number that was printed is read back, up to the first character that is not a digit. */
  lemma ScanDigits(negative: bool, n: nat, rest: seq<int>)
    requires rest == [] || !IsDigitCode(rest[0])
    ensures ScanNumber(SignedDigits(negative, n) + rest) == Scanned(negative, n, |SignedDigits(negative, n)|)
  {
    ValueOfDigits(n);
    var d := DecimalDigits(n);
    var s := SignedDigits(negative, n) + rest;
    if negative {
      assert s == [0x2D] + (d + rest);
      ScanNegative(s, d, rest);
    } else {
      ScanPlain(s, d, rest);
    }
  }

  function Power10(k: nat): (p: nat) {
    if k == 0 then 1 else 10 * Power10(k - 1)
  }

  lemma {:induction false} DigitsLength(n: nat, k: nat)
    requires k > 0 && n < Power10(k)
    ensures |DecimalDigits(n)| <= k
  {
    if n >= 10 { DigitsLength(n / 10, k - 1); }
  }

  // ----- any number at the front of a text

  /** White space: blank, tab, line feed, vertical tab, form feed and carriage return. Digits are "0" to "9". */
  lemma CodesAre(c: int)
    ensures IsSpaceCode(c) <==> c in {0x20, 0x09, 0x0A, 0x0B, 0x0C, 0x0D}
    ensures IsDigitCode(c) <==> c in {0x30, 0x31, 0x32, 0x33, 0x34, 0x35, 0x36, 0x37, 0x38, 0x39}
  {
  }

  lemma {:induction false} SpaceRunIs(spaces: seq<int>, rest: seq<int>)
    requires (forall i :: 0 <= i < |spaces| ==> IsSpaceCode(spaces[i])) && (rest == [] || !IsSpaceCode(rest[0]))
    ensures SpaceRun(spaces + rest) == |spaces|
  {
    if spaces == [] {
      assert spaces + rest == rest;
    } else {
      assert (spaces + rest)[1..] == spaces[1..] + rest;
      SpaceRunIs(spaces[1..], rest);
    }
  }

  /** A sign, or none. */
  predicate IsSign(sign: seq<int>) {
    sign == [] || sign == [0x2B] || sign == [0x2D]
  }

  lemma ScanBehind(s: seq<int>, k: nat, sign: seq<int>, tail: seq<int>)
    requires k == SpaceRun(s) && s[k..] == sign + tail && IsSign(sign)
    requires sign == [] ==> tail == [] || (tail[0] != 0x2B && tail[0] != 0x2D)
    ensures k + |sign| <= |s| && s[k + |sign|..] == tail && ScanNumber(s) == NumberAt(s, sign == [0x2D], k + |sign|)
  {
    SignThen(s[k..], sign, tail);
    assert s[k + |sign|..] == s[k..][|sign|..];
    assert k < |s| ==> s[k] == s[k..][0];
  }

  lemma SignThen(s: seq<int>, sign: seq<int>, tail: seq<int>)
    requires s == sign + tail && IsSign(sign)
    requires sign == [] ==> tail == [] || (tail[0] != 0x2B && tail[0] != 0x2D)
    ensures |sign| <= |s| && s[|sign|..] == tail
    ensures sign == [0x2D] <==> s != [] && s[0] == 0x2D
    ensures |sign| == if s != [] && (s[0] == 0x2D || s[0] == 0x2B) then 1 else 0
  {
  }

  /** White space, one sign and digits are read up to the first character that is not a digit. */
  lemma ScanIs(spaces: seq<int>, sign: seq<int>, d: seq<int>, rest: seq<int>)
    requires (forall i :: 0 <= i < |spaces| ==> IsSpaceCode(spaces[i])) && IsSign(sign)
    requires d != [] && AllDigits(d) && (rest == [] || !IsDigitCode(rest[0]))
    ensures ScanNumber(spaces + (sign + (d + rest))) == Scanned(sign == [0x2D], Value(d), |spaces| + |sign| + |d|)
  {
    ScanTail(spaces, sign, d, rest, d + rest);
  }

  lemma ScanTail(spaces: seq<int>, sign: seq<int>, d: seq<int>, rest: seq<int>, tail: seq<int>)
    requires (forall i :: 0 <= i < |spaces| ==> IsSpaceCode(spaces[i])) && IsSign(sign)
    requires d != [] && AllDigits(d) && (rest == [] || !IsDigitCode(rest[0])) && tail == d + rest
    ensures ScanNumber(spaces + (sign + tail)) == Scanned(sign == [0x2D], Value(d), |spaces| + |sign| + |d|)
  {
    assert tail[0] == d[0] && IsDigitCode(d[0]);
    SpacesBefore(spaces, sign, tail);
    NumberAtIs(spaces + (sign + tail), sign == [0x2D], |spaces| + |sign|, d, rest);
  }

  /** White space and a sign, and what the digits behind them are read from. */
  lemma SpacesBefore(spaces: seq<int>, sign: seq<int>, tail: seq<int>)
    requires (forall i :: 0 <= i < |spaces| ==> IsSpaceCode(spaces[i])) && IsSign(sign)
    requires sign == [] && tail != [] ==> !IsSpaceCode(tail[0]) && tail[0] != 0x2B && tail[0] != 0x2D
    ensures var s, k := spaces + (sign + tail), |spaces| + |sign|;
      k <= |s| && s[k..] == tail && ScanNumber(s) == NumberAt(s, sign == [0x2D], k)
  {
    assert sign == [] ==> sign + tail == tail;
    SpaceRunIs(spaces, sign + tail);
    DropFront(spaces, sign + tail);
    ScanBehind(spaces + (sign + tail), |spaces|, sign, tail);
  }

  lemma DropFront(a: seq<int>, b: seq<int>)
    ensures (a + b)[|a|..] == b
  {
  }

  /** Without a digit nothing is read. */
  lemma ScanNothing(spaces: seq<int>, sign: seq<int>, rest: seq<int>)
    requires (forall i :: 0 <= i < |spaces| ==> IsSpaceCode(spaces[i])) && IsSign(sign)
    requires rest == [] || !IsDigitCode(rest[0])
    requires sign == [] && rest != [] ==> !IsSpaceCode(rest[0]) && rest[0] != 0x2B && rest[0] != 0x2D
    ensures ScanNumber(spaces + (sign + rest)) == Scanned(false, 0, 0)
  {
    SpacesBefore(spaces, sign, rest);
  }

  /** A value is ten times that of the digits before the last one, and the last one. */
  lemma ValueSnoc(d: seq<int>, c: int)
    requires AllDigits(d) && 0x30 <= c <= 0x39
    ensures AllDigits(d + [c]) && Value(d + [c]) == 10 * Value(d) + c - 0x30
  {
    assert (d + [c])[..|d|] == d;
  }
}
