/** The settings part of a SHA password hash, "[rounds=N$]salt": reading it, writing it back, and laying
    out the whole hash in its fixed buffer. */
module CryptSettings {
  import opened Text
  import opened CryptEncoding
  import opened Decimal

  const DOLLAR: byte := 0x24
  const ROUNDS_PREFIX: Bytes := [0x72, 0x6F, 0x75, 0x6E, 0x64, 0x73, 0x3D]  // "rounds="
  const SALT_LEN_MAX := 16
  const ROUNDS_DEFAULT := 5000
  const ROUNDS_MIN := 1000
  const ROUNDS_MAX := 999999999
  const ULONG_MAX := 0xFFFF_FFFF_FFFF_FFFF

  /** `strtoul(s, &end, 10)` with a 64-bit `unsigned long`: the value and the position of `end`. A negative
      number wraps around, and one that is too large is cut off. */
  function Strtoul(s: Bytes): (r: (nat, nat))
    ensures r.1 <= |s|
  {
    var n := ScanNumber(s);
    (if n.magnitude > ULONG_MAX then ULONG_MAX
     else if n.negative && n.magnitude > 0 then ULONG_MAX + 1 - n.magnitude
     else n.magnitude, n.end)
  }

  /** "%u". */
  function PrintedUnsigned(n: nat): (s: Bytes)
    ensures s == DecimalDigits(n)
  {
    var d := DecimalDigits(n);
    assert forall i :: 0 <= i < |d| ==> IsDigitCode(d[i]);
    d
  }

  // ----- settings

  datatype Settings = Settings(rounds: nat, custom: bool, salt: Bytes)

  function Clamp(n: nat): (r: nat)
    ensures ROUNDS_MIN <= r <= ROUNDS_MAX
  {
    if n > ROUNDS_MAX then ROUNDS_MAX else if n < ROUNDS_MIN then ROUNDS_MIN else n
  }

  function Cut16(s: Bytes): (r: Bytes) {
    if |s| > SALT_LEN_MAX then s[..SALT_LEN_MAX] else s
  }

  /** Reading "[rounds=N$]salt". A rounds prefix without "$" behind its number is an error. */
  function ReadSettings(text: Bytes): (r: Option<Settings>) {
    if ROUNDS_PREFIX <= text then
      var num := text[|ROUNDS_PREFIX|..];
      var (v, end) := Strtoul(num);
      if end < |num| && num[end] == DOLLAR then Some(Settings(Clamp(v), true, Cut16(num[end + 1..]))) else None
    else Some(Settings(ROUNDS_DEFAULT, false, Cut16(text)))
  }

  /** The settings as the program writes them. */
  function WriteSettings(s: Settings): (r: Bytes) {
    if s.custom then ROUNDS_PREFIX + PrintedUnsigned(s.rounds) + [DOLLAR] + s.salt else s.salt
  }

  lemma StrtoulPrinted(n: nat, rest: Bytes)
    requires n <= ULONG_MAX && rest != [] && !IsDigitCode(rest[0])
    ensures Strtoul(PrintedUnsigned(n) + rest) == (n, |PrintedUnsigned(n)|)
  {
    ScanDigits(false, n, rest);
  }

  lemma ReadCustom(rounds: nat, salt: Bytes)
    requires ROUNDS_MIN <= rounds <= ROUNDS_MAX && |salt| <= SALT_LEN_MAX
    ensures ReadSettings(WriteSettings(Settings(rounds, true, salt))) == Some(Settings(rounds, true, salt))
  {
    var d, rest := PrintedUnsigned(rounds), [DOLLAR] + salt;
    var out := WriteSettings(Settings(rounds, true, salt));
    StrtoulPrinted(rounds, rest);
    assert out == ROUNDS_PREFIX + (d + rest);
    PrefixCut(ROUNDS_PREFIX, d + rest);
    var num := d + rest;
    assert num[|d|] == DOLLAR && num[|d| + 1..] == salt;
  }

  lemma PrefixCut(a: Bytes, b: Bytes)
    ensures a <= a + b && (a + b)[|a|..] == b
  {
  }

  /** Settings that were read once are a fixed point: what the program writes reads back the same. */
  lemma SettingsFixedPoint(text: Bytes)
    requires ReadSettings(text).Some?
    ensures ReadSettings(WriteSettings(ReadSettings(text).value)) == ReadSettings(text)
  {
    var s := ReadSettings(text).value;
    if s.custom {
      ReadCustom(s.rounds, s.salt);
    } else {
      PlainStays(text, s.salt);
    }
  }

  lemma PlainStays(text: Bytes, salt: Bytes)
    requires !(ROUNDS_PREFIX <= text) && salt == Cut16(text)
    ensures !(ROUNDS_PREFIX <= salt) && Cut16(salt) == salt
  {
    assert salt <= text;
  }

  /** Nine digits are enough for every number of rounds. */
  lemma SettingsLength(text: Bytes)
    requires ReadSettings(text).Some?
    ensures var s := ReadSettings(text).value;
      |s.salt| <= 16 && |WriteSettings(s)| <= (if s.custom then 17 else 0) + |s.salt|
  {
    var s := ReadSettings(text).value;
    if s.custom {
      assert Power10(9) == 1000000000;
      DigitsLength(s.rounds, 9);
    }
  }

  // ----- what is read

  lemma StrtoulDigits(d: Bytes, rest: Bytes)
    requires d != [] && AllDigits(d) && (rest == [] || !IsDigitCode(rest[0]))
    ensures Strtoul(d + rest) == (if Value(d) > 0xFFFF_FFFF_FFFF_FFFF then 0xFFFF_FFFF_FFFF_FFFF else Value(d), |d|)
  {
    assert [] + ([] + (d + rest)) == d + rest;
    ScanIs([], [], d, rest);
  }

  /** "rounds=N$salt" with any number: it is raised to 1000 or lowered to 999999999, and the salt is cut to 16 bytes. */
  lemma ReadRounds(d: Bytes, salt: Bytes)
    requires d != [] && AllDigits(d)
    ensures var n := Value(d);
      ReadSettings([0x72, 0x6F, 0x75, 0x6E, 0x64, 0x73, 0x3D] + (d + ([0x24] + salt)))
      == Some(Settings(if n < 1000 then 1000 else if n > 999999999 then 999999999 else n, true,
                       if |salt| <= 16 then salt else salt[..16]))
  {
    StrtoulDigits(d, [0x24] + salt);
    PrefixCut(ROUNDS_PREFIX, d + ([0x24] + salt));
    BehindDollar(d, salt);
  }

  lemma BehindDollar(d: Bytes, salt: Bytes)
    ensures var num := d + ([0x24] + salt); |d| < |num| && num[|d|] == 0x24 && num[|d| + 1..] == salt
  {
  }

  /** The same without "$" behind the number is an error. */
  lemma ReadBroken(d: Bytes, rest: Bytes)
    requires d != [] && AllDigits(d) && (rest == [] || (!IsDigitCode(rest[0]) && rest[0] != 0x24))
    ensures ReadSettings([0x72, 0x6F, 0x75, 0x6E, 0x64, 0x73, 0x3D] + (d + rest)).None?
  {
    StrtoulDigits(d, rest);
    PrefixCut(ROUNDS_PREFIX, d + rest);
  }

  /** A text that does not start with "rounds=" is a salt, for 5000 rounds that are not printed. */
  lemma ReadPlain(text: Bytes)
    requires |text| < 7 || text[..7] != [0x72, 0x6F, 0x75, 0x6E, 0x64, 0x73, 0x3D]
    ensures var s := Settings(5000, false, if |text| <= 16 then text else text[..16]);
      ReadSettings(text) == Some(s) && WriteSettings(s) == s.salt
  {
  }

  /** A negative number wraps around modulo 2^64 before it is raised or lowered. */
  lemma ReadNegative(d: Bytes, salt: Bytes)
    requires d != [] && AllDigits(d) && 0 < Value(d) <= 0xFFFF_FFFF_FFFF_FFFF
    ensures var n := 0x1_0000_0000_0000_0000 - Value(d);
      var s := ReadSettings([0x72, 0x6F, 0x75, 0x6E, 0x64, 0x73, 0x3D] + ([0x2D] + (d + ([0x24] + salt))));
      s.Some? && s.value.rounds == if n < 1000 then 1000 else if n > 999999999 then 999999999 else n
  {
    StrtoulNegative(d, [0x24] + salt);
    PrefixCut(ROUNDS_PREFIX, [0x2D] + (d + ([0x24] + salt)));
    BehindDollar([0x2D] + d, salt);
    Regroup([0x2D], d, [0x24] + salt);
  }

  lemma Regroup(a: Bytes, b: Bytes, c: Bytes)
    ensures a + (b + c) == a + b + c
  {
  }

  lemma StrtoulNegative(d: Bytes, rest: Bytes)
    requires d != [] && AllDigits(d) && 0 < Value(d) <= 0xFFFF_FFFF_FFFF_FFFF && (rest == [] || !IsDigitCode(rest[0]))
    ensures Strtoul([0x2D] + (d + rest)) == (0x1_0000_0000_0000_0000 - Value(d), |d| + 1)
  {
    NothingBefore([0x2D] + (d + rest));
    ScanIs([], [0x2D], d, rest);
    Wrapped([0x2D] + (d + rest), Value(d), |d| + 1);
  }

  lemma NothingBefore(s: Bytes)
    ensures [] + s == s
  {
  }

  lemma Wrapped(s: Bytes, m: nat, end: nat)
    requires ScanNumber(s) == Scanned(true, m, end) && 0 < m <= 0xFFFF_FFFF_FFFF_FFFF
    ensures Strtoul(s) == (0x1_0000_0000_0000_0000 - m, end)
  {
  }
}
