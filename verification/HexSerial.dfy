/** Serial numbers as the CA database spells them: `BN_bn2hex` with "00" for zero. */
module HexSerial {
  import opened Text

  function HexDigit(v: int): (c: char)
    requires 0 <= v < 16
    ensures IsUpperHex(c) && DigitValue(c) == v
  {
    if v < 10 then ('0' as int + v) as char else ('A' as int + v - 10) as char
  }

  predicate IsUpperHex(c: char) {
    '0' <= c <= '9' || 'A' <= c <= 'F'
  }

  /** `isxdigit`. */
  predicate IsHex(c: char) {
    IsUpperHex(c) || 'a' <= c <= 'f'
  }

  function DigitValue(c: char): (v: nat)
    requires IsHex(c)
    ensures v < 16
  {
    if c <= '9' then c as int - '0' as int
    else if c <= 'F' then c as int - 'A' as int + 10
    else c as int - 'a' as int + 10
  }

  predicate AllHex(s: string) {
    forall i :: 0 <= i < |s| ==> IsHex(s[i])
  }

  predicate AllUpperHex(s: string) {
    forall i :: 0 <= i < |s| ==> IsUpperHex(s[i])
  }

  /** The two digits of a byte. */
  function HexPair(b: nat): (s: string)
    requires b < 256
    ensures |s| == 2 && AllUpperHex(s) && DigitValue(s[0]) * 16 + DigitValue(s[1]) == b
  {
    [HexDigit(b / 16), HexDigit(b % 16)]
  }

  function HexBytes(n: nat): (s: string)
    ensures AllHex(s) && AllUpperHex(s) && |s| % 2 == 0 && (n > 0 ==> |s| >= 2)
  {
    if n == 0 then ""
    else
      var front := HexBytes(n / 256);
      front + HexPair(n % 256)
  }

  /** The database spelling of serial number `n`. */
  function SerialText(n: int): (s: string) {
    if n == 0 then "00" else if n < 0 then "-" + HexBytes(-n) else HexBytes(n)
  }

  function HexValue(s: string): (v: nat)
    requires AllHex(s)
  {
    if s == "" then 0 else HexValue(s[..|s| - 1]) * 16 + DigitValue(s[|s| - 1])
  }

  /** The digits of a serial text. */
  function DigitsOf(s: string): (d: string) {
    if s != "" && s[0] == '-' then s[1..] else s
  }

  /** The check of one serial column at load time: an optional sign and an even, positive number
      of hexadecimal digits of either case. */
  predicate SerialSyntaxOk(s: string) {
    var digits := DigitsOf(s);
    |digits| % 2 == 0 && |digits| >= 2 && AllHex(digits)
  }

  /** `BN_hex2bn` on text that passed the load check. */
  function ParseSerial(s: string): (n: int)
    requires SerialSyntaxOk(s)
  {
    if s[0] == '-' then 0 - HexValue(s[1..]) else HexValue(s)
  }

  /** The serial index compares spellings after dropping leading zeros, byte for byte. */
  function SerialKey(s: string): (k: string)
  {
    if s != "" && s[0] == '0' then SerialKey(s[1..]) else s
  }

  lemma HexSnoc(s: string, c: char)
    requires AllHex(s) && IsHex(c)
    ensures AllHex(s + [c]) && HexValue(s + [c]) == HexValue(s) * 16 + DigitValue(c)
  {
    assert (s + [c])[..|s|] == s;
  }

  lemma {:induction false} HexValueOfBytes(n: nat)
    ensures HexValue(HexBytes(n)) == n
  {
    if n == 0 {
    } else {
      var h, p := HexBytes(n / 256), HexPair(n % 256);
      HexValueOfBytes(n / 256);
      HexSnoc(h, p[0]);
      HexSnoc(h + [p[0]], p[1]);
      assert HexBytes(n) == h + [p[0]] + [p[1]];
    }
  }

  /** Leading zeros carry no value. */
  lemma {:induction false} LeadingZero(s: string)
    requires AllHex(s)
    ensures HexValue("0" + s) == HexValue(s)
  {
    if s == "" {
      assert HexValue("0") == HexValue("") * 16 + 0 by { assert "0"[..0] == ""; }
    } else {
      var init := s[..|s| - 1];
      LeadingZero(init);
      assert ("0" + s)[..|"0" + s| - 1] == "0" + init;
    }
  }

  lemma {:induction false} KeyKeepsValue(s: string)
    requires AllHex(s)
    ensures AllHex(SerialKey(s)) && HexValue(SerialKey(s)) == HexValue(s)
  {
    if s != "" && s[0] == '0' {
      assert s == "0" + s[1..];
      LeadingZero(s[1..]);
      KeyKeepsValue(s[1..]);
    }
  }

  lemma SignedSerial(s: string)
    requires AllHex(s) && |s| % 2 == 0 && s != ""
    ensures SerialSyntaxOk("-" + s) && ParseSerial("-" + s) == 0 - HexValue(s) && SerialKey("-" + s) == "-" + s
  {
    assert ("-" + s)[0] == '-' && ("-" + s)[1..] == s;
  }

  lemma UnsignedSerial(s: string)
    requires AllHex(s) && |s| % 2 == 0 && s != ""
    ensures SerialSyntaxOk(s) && ParseSerial(s) == HexValue(s)
  {
    assert IsHex(s[0]);
  }

  /** The CA's own spellings pass the load check, and `BN_hex2bn` recovers the number. */
  lemma SerialRoundTrip(n: int)
    ensures SerialSyntaxOk(SerialText(n)) && ParseSerial(SerialText(n)) == n
  {
    if n == 0 {
      assert "00" == "0" + "0" && "0" == "0" + "";
      LeadingZero("0");
      LeadingZero("");
      UnsignedSerial("00");
    } else if n < 0 {
      HexValueOfBytes(-n);
      SignedSerial(HexBytes(-n));
    } else {
      HexValueOfBytes(n);
      UnsignedSerial(HexBytes(n));
    }
  }

  lemma UnsignedKey(n: nat)
    ensures AllHex(SerialKey(SerialText(n))) && HexValue(SerialKey(SerialText(n))) == n
  {
    KeyKeepsValue(SerialText(n));
    SerialRoundTrip(n);
  }

  /** On text that passed the load check, equal keys mean equal numbers. */
  lemma KeyDecidesNumber(a: string, b: string)
    requires SerialSyntaxOk(a) && SerialSyntaxOk(b) && SerialKey(a) == SerialKey(b)
    ensures ParseSerial(a) == ParseSerial(b)
  {
    if a[0] != '-' { KeyKeepsValue(a); }
    if b[0] != '-' { KeyKeepsValue(b); }
  }

  /** On the CA's own spellings the index key identifies the number. */
  lemma KeyInjective(a: int, b: int)
    requires SerialKey(SerialText(a)) == SerialKey(SerialText(b))
    ensures a == b
  {
    SerialRoundTrip(a);
    SerialRoundTrip(b);
    KeyDecidesNumber(SerialText(a), SerialText(b));
  }

  /** The index does not identify numbers on every spelling the load check lets through: it is
      case sensitive. */
  lemma KeyCaseSensitive()
    ensures SerialSyntaxOk("0a") && SerialSyntaxOk("0A") && ParseSerial("0a") == ParseSerial("0A")
    ensures SerialKey("0a") != SerialKey("0A")
  {
    LeadingZero("a");
    LeadingZero("A");
    assert "a"[..0] == "" && "A"[..0] == "";
    assert "0a" == "0" + "a" && "0A" == "0" + "A";
    assert "0a"[1..] == "a" && "0A"[1..] == "A";
  }

  /** Behind a sign it compares digit by digit, leading zeros included. */
  lemma SignedKeyLiteral(s: string, t: string)
    requires AllHex(s) && |s| % 2 == 0 && s != "" && AllHex(t) && |t| % 2 == 0 && t != ""
    ensures SerialKey("-" + s) == SerialKey("-" + t) <==> s == t
    ensures ParseSerial("-" + s) == ParseSerial("-" + t) <==> HexValue(s) == HexValue(t)
  {
    SignedSerial(s);
    SignedSerial(t);
    assert ("-" + s)[1..] == s && ("-" + t)[1..] == t;
  }

  // ----- status queries by typed serial number

  function Upper(c: char): (r: char) {
    if 'a' <= c <= 'z' then (c as int - 32) as char else c
  }

  function UpperText(s: string): (r: string)
    ensures |r| == |s| && forall i :: 0 <= i < |s| ==> r[i] == Upper(s[i])
  {
    seq(|s|, i requires 0 <= i < |s| => Upper(s[i]))
  }

  /** What a status query looks up: the typed text, padded to an even length, in upper case. */
  function QueryText(s: string): (r: string) {
    UpperText(if |s| % 2 != 0 then "0" + s else s)
  }

  predicate NoLeadingZero(s: string) {
    s == "" || s[0] != '0'
  }

  lemma {:induction false} PositiveValue(s: string)
    requires AllHex(s) && s != "" && s[0] != '0'
    ensures HexValue(s) > 0
  {
    if |s| > 1 {
      PositiveValue(s[..|s| - 1]);
    } else {
      assert s[..0] == "";
    }
  }

  lemma LastDigit(s: string)
    requires AllHex(s) && s != ""
    ensures HexValue(s) % 16 == DigitValue(s[|s| - 1]) && HexValue(s) / 16 == HexValue(s[..|s| - 1])
  {
    DivMod16(HexValue(s), HexValue(s[..|s| - 1]), DigitValue(s[|s| - 1]));
  }

  lemma DivMod16(x: nat, q: nat, r: nat)
    requires x == q * 16 + r && r < 16
    ensures x % 16 == r && x / 16 == q
  {
  }

  /** Upper case digits without leading zeros spell a number in one way only. */
  lemma {:induction false} UniqueSpelling(a: string, b: string)
    requires AllUpperHex(a) && AllUpperHex(b) && NoLeadingZero(a) && NoLeadingZero(b)
    requires HexValue(a) == HexValue(b)
    ensures a == b
  {
    if a == "" {
      if b != "" { PositiveValue(b); }
    } else if b == "" {
      PositiveValue(a);
    } else {
      var a', b' := a[..|a| - 1], b[..|b| - 1];
      var x, y := a[|a| - 1], b[|b| - 1];
      LastDigit(a);
      LastDigit(b);
      assert x == y;
      UniqueSpelling(a', b');
      assert a == a' + [x] && b == b' + [y];
    }
  }

  lemma {:induction false} KeyShape(s: string)
    requires AllUpperHex(s)
    ensures AllUpperHex(SerialKey(s)) && NoLeadingZero(SerialKey(s))
  {
    if s != "" && s[0] == '0' { KeyShape(s[1..]); }
  }

  lemma {:induction false} UpperKeepsValue(s: string)
    requires AllHex(s)
    ensures AllUpperHex(UpperText(s)) && HexValue(UpperText(s)) == HexValue(s)
  {
    if s == "" {
    } else {
      var u := UpperText(s);
      UpperKeepsValue(s[..|s| - 1]);
      assert u[..|u| - 1] == UpperText(s[..|s| - 1]);
      assert DigitValue(u[|u| - 1]) == DigitValue(s[|s| - 1]);
    }
  }

  /** Every way of typing a number in hexadecimal, in any case and with any number of leading zeros,
      looks up the key of the CA's own spelling. */
  lemma QueryFindsNumber(s: string)
    requires AllHex(s)
    ensures SerialKey(QueryText(s)) == SerialKey(SerialText(HexValue(s)))
  {
    QueryKey(s);
    NumberKeyShape(HexValue(s));
    UniqueSpelling(SerialKey(QueryText(s)), SerialKey(SerialText(HexValue(s))));
  }

  lemma QueryKey(s: string)
    requires AllHex(s)
    ensures var key := SerialKey(QueryText(s)); AllUpperHex(key) && NoLeadingZero(key) && HexValue(key) == HexValue(s)
  {
    LeadingZero(s);
    UpperKeepsValue(if |s| % 2 != 0 then "0" + s else s);
    KeyShape(QueryText(s));
    KeyKeepsValue(QueryText(s));
  }

  lemma NumberKeyShape(n: nat)
    ensures var key := SerialKey(SerialText(n)); AllUpperHex(key) && NoLeadingZero(key) && HexValue(key) == n
  {
    UnsignedKey(n);
    KeyShape(SerialText(n));
  }

  /** The text looked up has an even length: the typed text in capital letters, with a zero before it if need be. */
  lemma QueryTextIs(s: string)
    ensures |QueryText(s)| % 2 == 0
    ensures QueryText(s) == UpperText(s) || QueryText(s) == "0" + UpperText(s)
  {
    assert UpperText("0" + s) == "0" + UpperText(s);
  }

  // ----- when two spellings are one number

  /** A key that ignores letter case, leading zeros behind a sign, and the sign of zero. */
  function NumberKey(s: string): (k: (bool, string)) {
    var key := SerialKey(UpperText(DigitsOf(s)));
    (DigitsOf(s) != s && key != "", key)
  }

  lemma NumberKeyDigits(s: string)
    requires SerialSyntaxOk(s)
    ensures var d, key := DigitsOf(s), NumberKey(s).1;
      AllHex(d) && AllUpperHex(key) && NoLeadingZero(key) && HexValue(key) == HexValue(d)
  {
    var d := DigitsOf(s);
    UpperKeepsValue(d);
    KeyShape(UpperText(d));
    KeyKeepsValue(UpperText(d));
  }

  lemma NumberKeyValue(s: string)
    requires SerialSyntaxOk(s)
    ensures var (negative, key) := NumberKey(s);
      AllUpperHex(key) && NoLeadingZero(key) && ParseSerial(s) == if negative then 0 - HexValue(key) else HexValue(key)
    ensures NumberKey(s).0 ==> ParseSerial(s) < 0
  {
    NumberKeyDigits(s);
    if NumberKey(s).1 != "" { PositiveValue(NumberKey(s).1); }
  }

  /** Two texts that pass the load check spell one number exactly when these keys agree. The serial index
      compares `SerialKey` instead. */
  lemma NumberKeyExact(a: string, b: string)
    requires SerialSyntaxOk(a) && SerialSyntaxOk(b)
    ensures NumberKey(a) == NumberKey(b) <==> ParseSerial(a) == ParseSerial(b)
  {
    NumberKeyValue(a);
    NumberKeyValue(b);
    if ParseSerial(a) == ParseSerial(b) { UniqueSpelling(NumberKey(a).1, NumberKey(b).1); }
  }

  // ----- the conversion that CRL generation makes

  /** How many leading characters are hexadecimal digits. */
  function HexRun(s: string): (n: nat)
    ensures n <= |s| && AllHex(s[..n])
  {
    if s == "" || !IsHex(s[0]) then 0
    else
      var n := 1 + HexRun(s[1..]);
      assert s[..n] == [s[0]] + s[1..][..n - 1];
      n
  }

  /** `BN_hex2bn` on any text: the digits at its front, if there are any. */
  function Hex2bn(s: string): (r: Option<int>) {
    var d := DigitsOf(s);
    var n := HexRun(d);
    if n == 0 then None else Some(if d != s then 0 - HexValue(d[..n]) else HexValue(d[..n]))
  }

  lemma {:induction false} HexRunAll(s: string)
    requires AllHex(s)
    ensures HexRun(s) == |s|
  {
    if s == "" {
    } else {
      HexRunAll(s[1..]);
    }
  }

  /** It succeeds on every text that passes the load check, and gives its number. */
  lemma Hex2bnIs(s: string)
    requires SerialSyntaxOk(s)
    ensures Hex2bn(s) == Some(ParseSerial(s))
  {
    var d := DigitsOf(s);
    HexRunAll(d);
    assert d[..|d|] == d;
  }

  /** It reads a sign and all digits up to the first other character, whatever that is, and fails without a digit. */
  lemma Hex2bnFront(negative: bool, d: string, rest: string)
    requires AllHex(d) && (rest == "" || !IsHex(rest[0]))
    requires !negative && d == "" ==> rest == "" || rest[0] != '-'
    ensures Hex2bn((if negative then "-" else "") + (d + rest))
         == if d == "" then None else Some(if negative then 0 - HexValue(d) else HexValue(d))
  {
    FrontDigits(negative, d + rest);
    HexRunIs(d, rest);
    TakeFront((if negative then "-" else "") + (d + rest), d, rest);
  }

  lemma TakeFront(s: string, d: string, rest: string)
    requires DigitsOf(s) == d + rest && AllHex(d) && HexRun(d + rest) == |d|
    ensures Hex2bn(s) == if d == "" then None else Some(if DigitsOf(s) != s then 0 - HexValue(d) else HexValue(d))
  {
    assert (d + rest)[..|d|] == d;
  }

  lemma FrontDigits(negative: bool, d: string)
    requires !negative ==> d == "" || d[0] != '-'
    ensures var s := (if negative then "-" else "") + d; DigitsOf(s) == d && (DigitsOf(s) != s <==> negative)
  {
    if negative {
      assert ("-" + d)[1..] == d && |"-" + d| == |d| + 1;
    } else {
      assert "" + d == d;
    }
  }

  lemma {:induction false} HexRunIs(d: string, rest: string)
    requires AllHex(d) && (rest == "" || !IsHex(rest[0]))
    ensures HexRun(d + rest) == |d|
  {
    if d == "" {
      assert d + rest == rest;
    } else {
      assert (d + rest)[1..] == d[1..] + rest;
      HexRunIs(d[1..], rest);
    }
  }

  // ----- digits and spellings, character by character

  /** The hexadecimal digits of either case and their values. */
  lemma HexDigitsAre(c: char)
    ensures var capital, small := "0123456789ABCDEF", "0123456789abcdef";
      && (IsHex(c) <==> c in capital || c in small) && (IsUpperHex(c) <==> c in capital)
      && (forall v :: 0 <= v < 16 && (c == capital[v] || c == small[v]) ==> DigitValue(c) == v)
  {
  }

  /** The 26 small letters become the capital letters, and nothing else changes. */
  lemma UpperIs(c: char)
    ensures Upper(c) as int == if 0x61 <= c as int < 0x61 + 26 then c as int - 0x61 + 0x41 else c as int
  {
  }

  /** Pairs of hexadecimal digits. */
  predicate HexPairs(s: string) {
    s == "" || (|s| >= 2 && IsHex(s[0]) && IsHex(s[1]) && HexPairs(s[2..]))
  }

  lemma {:induction false} HexPairsIs(s: string)
    ensures HexPairs(s) <==> AllHex(s) && |s| % 2 == 0
    decreases |s|
  {
    if |s| >= 2 {
      HexPairsIs(s[2..]);
      assert s == [s[0]] + [s[1]] + s[2..];
    }
  }

  /** An optional sign and one or more pairs of digits. */
  predicate NumberWritten(s: string) {
    var d := if s != "" && s[0] == '-' then s[1..] else s;
    d != "" && HexPairs(d)
  }

  /** The load check accepts an optional sign and one or more pairs of digits. */
  lemma SyntaxExactly(s: string)
    ensures SerialSyntaxOk(s) <==> NumberWritten(s)
  {
    HexPairsIs(DigitsOf(s));
  }

  // ----- the one spelling that the CA uses

  /** Capital digits with no pair of zeros in front, unless it is the only one, and no sign for zero. */
  predicate OwnSpelling(s: string) {
    var d := DigitsOf(s);
    && SerialSyntaxOk(s) && AllUpperHex(d)
    && (|d| > 2 ==> d[0] != '0' || d[1] != '0') && (d == "00" ==> d == s)
  }

  lemma {:induction false} BytesStart(n: nat)
    requires n > 0
    ensures var s := HexBytes(n); |s| >= 2 && (s[0] != '0' || s[1] != '0')
  {
    if n >= 256 { BytesStart(n / 256); }
  }

  lemma OwnText(n: int)
    ensures OwnSpelling(SerialText(n)) && ParseSerial(SerialText(n)) == n
  {
    SerialRoundTrip(n);
    if n == 0 {
      assert DigitsOf("00") == "00";
    } else {
      var m := if n < 0 then -n else n;
      BytesStart(m);
      FrontDigits(n < 0, HexBytes(m));
      assert SerialText(n) == (if n < 0 then "-" else "") + HexBytes(m);
    }
  }

  /** Such digits are their key, with a zero before it if its length is odd. */
  lemma DigitsFromKey(d: string)
    requires AllUpperHex(d) && |d| % 2 == 0 && |d| >= 2 && (|d| > 2 ==> d[0] != '0' || d[1] != '0')
    ensures var key := SerialKey(d);
      d == if key == "" then "00" else if |key| % 2 == 0 then key else "0" + key
  {
    if d[0] == '0' {
      assert d == "0" + d[1..];
      if d[1] == '0' {
        assert d == "00" && d[1..][1..] == "";
        assert SerialKey(d[1..]) == SerialKey(d[1..][1..]) == "";
      }
    }
  }

  /** `SerialText(n)` is the only such spelling of `n`. */
  lemma SerialTextExactly(n: int, s: string)
    ensures s == SerialText(n) <==> OwnSpelling(s) && ParseSerial(s) == n
  {
    OwnText(n);
    if OwnSpelling(s) && ParseSerial(s) == n {
      SameSign(s, SerialText(n));
      SameDigits(DigitsOf(s), DigitsOf(SerialText(n)));
      assert s[0] == '-' ==> s == "-" + DigitsOf(s) && SerialText(n) == "-" + DigitsOf(SerialText(n));
    }
  }

  lemma SameDigits(d: string, e: string)
    requires AllUpperHex(d) && |d| % 2 == 0 && |d| >= 2 && (|d| > 2 ==> d[0] != '0' || d[1] != '0')
    requires AllUpperHex(e) && |e| % 2 == 0 && |e| >= 2 && (|e| > 2 ==> e[0] != '0' || e[1] != '0')
    requires AllHex(d) && AllHex(e) && HexValue(d) == HexValue(e)
    ensures d == e
  {
    KeyShape(d);
    KeyShape(e);
    KeyKeepsValue(d);
    KeyKeepsValue(e);
    UniqueSpelling(SerialKey(d), SerialKey(e));
    DigitsFromKey(d);
    DigitsFromKey(e);
  }

  lemma SameSign(s: string, t: string)
    requires OwnSpelling(s) && OwnSpelling(t) && ParseSerial(s) == ParseSerial(t)
    ensures HexValue(DigitsOf(s)) == HexValue(DigitsOf(t)) && (s[0] == '-' <==> t[0] == '-')
  {
    if s[0] == '-' { SignedBelowZero(s); }
    if t[0] == '-' { SignedBelowZero(t); }
  }

  lemma SignedBelowZero(s: string)
    requires OwnSpelling(s) && s[0] == '-'
    ensures ParseSerial(s) < 0
  {
    var d := DigitsOf(s);
    DigitsFromKey(d);
    KeyShape(d);
    KeyKeepsValue(d);
    PositiveValue(SerialKey(d));
  }
}
