/** The 6-bit text encodings of password digests: three bytes at a time in a scattered order. */
module CryptEncoding {

  type byte = x: int | 0 <= x < 256

  type Bytes = seq<byte>

  /** The 64 output characters, "./0-9A-Za-z" in ASCII. */
  function Cov(v: int): (c: byte)
    requires 0 <= v < 64
    ensures Uncov(c) == v
  {
    if v < 12 then 0x2E + v else if v < 38 then 0x41 + (v - 12) else 0x61 + (v - 38)
  }

  function Uncov(c: byte): (v: int) {
    if c < 0x41 then c - 0x2E else if c < 0x61 then c - 0x41 + 12 else c - 0x61 + 38
  }

  /** The `n` low base-64 digits of `w`, lowest first. */
  function Digits(w: nat, n: nat): (r: Bytes)
    ensures |r| == n
  {
    if n == 0 then [] else [Cov(w % 64)] + Digits(w / 64, n - 1)
  }

  function Number(s: Bytes): (w: int) {
    if s == [] then 0 else Uncov(s[0]) + 64 * Number(s[1..])
  }

  function Power64(n: nat): (p: nat) {
    if n == 0 then 1 else 64 * Power64(n - 1)
  }

  lemma {:induction false} NumberOfDigits(w: nat, n: nat)
    requires w < Power64(n)
    ensures Number(Digits(w, n)) == w
  {
    if n == 0 {
    } else {
      assert w / 64 < Power64(n - 1);
      NumberOfDigits(w / 64, n - 1);
      assert Digits(w, n)[1..] == Digits(w / 64, n - 1);
    }
  }

  /** One call of `b64_from_24bit`: the digest positions of the three bytes, high to low, and how many
      characters to write. The last group of a table has positions left out, which count as zero bytes. */
  datatype Group = Group(high: int, middle: int, low: int, chars: nat)

  const NONE := -1

  function At(buf: Bytes, i: int): (b: byte) {
    if 0 <= i < |buf| then buf[i] else 0
  }

  function Word(buf: Bytes, g: Group): (w: nat) {
    At(buf, g.high) * 65536 + At(buf, g.middle) * 256 + At(buf, g.low)
  }

  function Encode(buf: Bytes, table: seq<Group>): (r: Bytes) {
    if table == [] then []
    else
      var g := table[|table| - 1];
      Encode(buf, table[..|table| - 1]) + Digits(Word(buf, g), g.chars)
  }

  const SHA256_GROUPS: seq<Group> := [
    Group(0, 10, 20, 4), Group(21, 1, 11, 4), Group(12, 22, 2, 4), Group(3, 13, 23, 4), Group(24, 4, 14, 4),
    Group(15, 25, 5, 4), Group(6, 16, 26, 4), Group(27, 7, 17, 4), Group(18, 28, 8, 4), Group(9, 19, 29, 4),
    Group(NONE, 31, 30, 3)]

  const SHA512_GROUPS: seq<Group> := SHA512_FIRST + SHA512_REST

  const SHA512_FIRST: seq<Group> := [
    Group(0, 21, 42, 4), Group(22, 43, 1, 4), Group(44, 2, 23, 4), Group(3, 24, 45, 4), Group(25, 46, 4, 4),
    Group(47, 5, 26, 4), Group(6, 27, 48, 4), Group(28, 49, 7, 4), Group(50, 8, 29, 4), Group(9, 30, 51, 4),
    Group(31, 52, 10, 4)]

  const SHA512_REST: seq<Group> := [
    Group(53, 11, 32, 4), Group(12, 33, 54, 4), Group(34, 55, 13, 4), Group(56, 14, 35, 4),
    Group(15, 36, 57, 4), Group(37, 58, 16, 4), Group(59, 17, 38, 4), Group(18, 39, 60, 4), Group(40, 61, 19, 4),
    Group(62, 20, 41, 4), Group(NONE, NONE, 63, 2)]

  /** The permutation of the MD5 scheme, as the same kind of table. */
  const MD5_GROUPS: seq<Group> := [
    Group(0, 6, 12, 4), Group(1, 7, 13, 4), Group(2, 8, 14, 4), Group(3, 9, 15, 4), Group(4, 10, 5, 4),
    Group(NONE, NONE, 11, 2)]

  // ----- decoding

  predicate Mentions(g: Group, p: int) {
    p == g.high || p == g.middle || p == g.low
  }

  /** A table of full groups, and a last one that may be short. */
  ghost predicate TableOk(table: seq<Group>, size: nat) {
    && table != []
    && (forall k :: 0 <= k < |table| - 1 ==> table[k].chars == 4)
    && (forall k :: 0 <= k < |table| ==> Wide(table[k], size))
    && (forall p :: 0 <= p < size ==> Mentioned(table, p))
  }

  /** No two groups share a position. With three positions to a group, a table that mentions every position
      once is a permutation. */
  ghost predicate Once(table: seq<Group>) {
    forall k, l, p :: 0 <= k < |table| && 0 <= l < |table| && p >= 0 && Mentions(table[k], p) && Mentions(table[l], p)
        ==> k == l
  }

  ghost predicate Mentioned(table: seq<Group>, p: int) {
    exists k :: 0 <= k < |table| && Mentions(table[k], p)
  }

  /** The characters of a group hold its bytes. */
  predicate Wide(g: Group, size: nat) {
    && (g.chars == 4 || (g.chars == 3 && g.high == NONE) || (g.chars == 2 && g.high == NONE && g.middle == NONE))
    && g.high < size && g.middle < size && g.low < size
  }

  /** The first group that mentions position `p`, or `|table|`. */
  function Find(table: seq<Group>, p: int): (k: nat)
    ensures k <= |table|
    ensures k < |table| ==> Mentions(table[k], p)
    ensures k == |table| ==> forall i :: 0 <= i < |table| ==> !Mentions(table[i], p)
  {
    if table == [] || Mentions(table[0], p) then 0
    else
      assert forall i :: 1 <= i < |table| ==> table[i] == table[1..][i - 1];
      1 + Find(table[1..], p)
  }

  /** The byte for position `p` in an encoded digest. */
  function DecodeAt(text: Bytes, table: seq<Group>, p: int): (b: int) {
    var k := Find(table, p);
    if k == |table| || |text| < 4 * k + table[k].chars then 0
    else
      Slot(table[k], Number(text[4 * k..4 * k + table[k].chars]), p)
  }

  /** The byte of a word that belongs to position `p`. */
  function Slot(g: Group, w: int, p: int): (b: int) {
    if p == g.high then w / 65536 else if p == g.middle then w / 256 % 256 else w % 256
  }

  lemma {:induction false} EncodeSlice(buf: Bytes, table: seq<Group>, k: nat)
    requires k < |table| && forall i :: 0 <= i < |table| - 1 ==> table[i].chars == 4
    ensures |Encode(buf, table)| == 4 * (|table| - 1) + table[|table| - 1].chars
    ensures 4 * k + table[k].chars <= |Encode(buf, table)|
    ensures Encode(buf, table)[4 * k..4 * k + table[k].chars] == Digits(Word(buf, table[k]), table[k].chars)
    decreases |table|
  {
    var init, g := table[..|table| - 1], table[|table| - 1];
    if init == [] {
    } else {
      EncodeSlice(buf, init, if k < |init| then k else 0);
    }
    var a, b := Encode(buf, init), Digits(Word(buf, g), g.chars);
    assert |a| == 4 * |init|;
    assert Encode(buf, table) == a + b;
    if k < |init| { SliceLeft(a, b, 4 * k, 4 * k + 4); } else { SliceRight(a, b); }
  }

  lemma SliceLeft(a: Bytes, b: Bytes, i: nat, j: nat)
    requires i <= j <= |a|
    ensures (a + b)[i..j] == a[i..j]
  {
  }

  lemma SliceRight(a: Bytes, b: Bytes)
    ensures (a + b)[|a|..|a| + |b|] == b
  {
  }

  lemma WordFits(buf: Bytes, g: Group, size: nat)
    requires Wide(g, size)
    ensures Word(buf, g) < Power64(g.chars)
  {
    assert Power64(2) == 64 * 64 && Power64(3) == 64 * 64 * 64 && Power64(4) == 64 * 64 * 64 * 64;
  }

  lemma SplitWord(high: byte, middle: byte, low: byte)
    ensures var w := high * 65536 + middle * 256 + low; w / 65536 == high && w / 256 % 256 == middle && w % 256 == low
  {
    var h: int, m: int, l: int := high, middle, low;
    DivMod65536(h * 65536 + m * 256 + l, h, m * 256 + l);
    DivMod256(h * 65536 + m * 256 + l, h * 256 + m, l);
    DivMod256(h * 256 + m, h, m);
  }

  lemma DivMod256(x: int, q: int, r: int)
    requires x == 256 * q + r && 0 <= r < 256
    ensures x / 256 == q && x % 256 == r
  {
  }

  lemma DivMod65536(x: int, q: int, r: int)
    requires x == 65536 * q + r && 0 <= r < 65536
    ensures x / 65536 == q
  {
  }

  lemma SlotOfWord(buf: Bytes, g: Group, p: nat)
    requires Wide(g, |buf|) && p < |buf| && Mentions(g, p)
    ensures Slot(g, Number(Digits(Word(buf, g), g.chars)), p) == buf[p]
  {
    WordFits(buf, g, |buf|);
    NumberOfDigits(Word(buf, g), g.chars);
    SplitWord(At(buf, g.high), At(buf, g.middle), At(buf, g.low));
  }

  /** Encoding a digest with a table that mentions every position loses nothing. */
  lemma DecodeEncode(buf: Bytes, table: seq<Group>, p: nat)
    requires TableOk(table, |buf|) && p < |buf|
    ensures DecodeAt(Encode(buf, table), table, p) == buf[p]
  {
    var k := Find(table, p);
    assert Mentioned(table, p);
    EncodeSlice(buf, table, k);
    DecodeIs(Encode(buf, table), table, p, k, Digits(Word(buf, table[k]), table[k].chars));
    SlotOfWord(buf, table[k], p);
  }

  lemma DecodeIs(text: Bytes, table: seq<Group>, p: nat, k: nat, piece: Bytes)
    requires k == Find(table, p) < |table| && 4 * k + table[k].chars <= |text|
        && text[4 * k..4 * k + table[k].chars] == piece
    ensures DecodeAt(text, table, p) == Slot(table[k], Number(piece), p)
  {
  }

  lemma Sha256Row(k: nat)
    requires k < 10
    ensures var g := SHA256_GROUPS[k];
      Mentions(g, k) && Mentions(g, k + 10) && Mentions(g, k + 20) && Wide(g, 32) && g.chars == 4
    ensures forall p :: Mentions(SHA256_GROUPS[k], p) ==> p in {k, k + 10, k + 20}
  {
  }

  lemma Sha256TableOk()
    ensures TableOk(SHA256_GROUPS, 32) && Once(SHA256_GROUPS)
  {
    var t := SHA256_GROUPS;
    forall k, p | 0 <= k < 11 && p >= 0 && Mentions(t[k], p) ensures k == if p >= 30 then 10 else p % 10 {
      if k < 10 { Sha256Row(k); }
    }
    forall k | 0 <= k < 10 ensures t[k].chars == 4 && Wide(t[k], 32) { Sha256Row(k); }
    forall p | 0 <= p < 32 ensures Mentioned(t, p) {
      if p >= 30 { assert Mentions(t[10], p); } else { Sha256Row(p % 10); assert Mentions(t[p % 10], p); }
    }
  }

  lemma Sha512Row(k: nat)
    requires k < 21
    ensures var g := SHA512_GROUPS[k];
      Mentions(g, k) && Mentions(g, k + 21) && Mentions(g, k + 42) && Wide(g, 64) && g.chars == 4
    ensures forall p :: Mentions(SHA512_GROUPS[k], p) ==> p in {k, k + 21, k + 42}
  {
    if k < 11 {
      assert SHA512_GROUPS[k] == SHA512_FIRST[k];
    } else {
      assert SHA512_GROUPS[k] == SHA512_REST[k - 11];
    }
  }

  lemma Sha512Last()
    ensures |SHA512_GROUPS| == 22 && SHA512_GROUPS[21] == Group(NONE, NONE, 63, 2)
  {
    assert SHA512_GROUPS[21] == SHA512_REST[10];
  }

  lemma Sha512Once()
    ensures Once(SHA512_GROUPS)
  {
    var t := SHA512_GROUPS;
    Sha512Last();
    forall k, p | 0 <= k < 22 && p >= 0 && Mentions(t[k], p) ensures k == if p == 63 then 21 else p % 21 {
      if k < 21 { Sha512Row(k); }
    }
  }

  lemma Sha512Mentioned(p: nat)
    requires p < 64
    ensures Mentioned(SHA512_GROUPS, p)
  {
    Sha512Last();
    if p == 63 {
      assert Mentions(SHA512_GROUPS[21], p);
    } else {
      Sha512Row(p % 21);
      assert Mentions(SHA512_GROUPS[p % 21], p);
    }
  }

  lemma Sha512TableOk()
    ensures TableOk(SHA512_GROUPS, 64) && Once(SHA512_GROUPS)
  {
    Sha512Last();
    Sha512Once();
    forall k | 0 <= k < 21 ensures SHA512_GROUPS[k].chars == 4 && Wide(SHA512_GROUPS[k], 64) { Sha512Row(k); }
    forall p | 0 <= p < 64 ensures Mentioned(SHA512_GROUPS, p) { Sha512Mentioned(p); }
  }

  lemma Md5TableOk()
    ensures TableOk(MD5_GROUPS, 16) && Once(MD5_GROUPS)
  {
    var t := MD5_GROUPS;
    forall p | 0 <= p < 16 ensures Mentioned(t, p) {
      assert Mentions(t[if p == 5 then 4 else if p == 11 then 5 else p % 6], p);
    }
  }

  /** Different digests have different encodings, in all three schemes. */
  lemma EncodingInjective(a: Bytes, b: Bytes, table: seq<Group>)
    requires |a| == |b| && TableOk(table, |a|)
    requires Encode(a, table) == Encode(b, table)
    ensures a == b
  {
    forall p: nat | p < |a| ensures a[p] == b[p] {
      DecodeEncode(a, table, p);
      DecodeEncode(b, table, p);
    }
  }

  // ----- the alphabet and the tables, position by position

  /** "." and "/", then digits, capital and small letters in order. */
  lemma CovIs(v: int)
    requires 0 <= v < 64
    ensures v < 2 ==> Cov(v) == 0x2E + v
    ensures 2 <= v < 12 ==> Cov(v) == 0x30 + v - 2
    ensures 12 <= v < 38 ==> Cov(v) == 0x41 + v - 12
    ensures 38 <= v ==> Cov(v) == 0x61 + v - 38
  {
  }

  /** In the SHA-256 table each group is the one before it with its positions turned by one place and moved on by one;
      the first is (0, 10, 20) and the last holds the two positions left over. */
  lemma Sha256Turns(k: nat)
    requires k < 9
    ensures var g := SHA256_GROUPS[k]; SHA256_GROUPS[k + 1] == Group(g.low + 1, g.high + 1, g.middle + 1, 4)
    ensures |SHA256_GROUPS| == 11
    ensures SHA256_GROUPS[0] == Group(0, 10, 20, 4) && SHA256_GROUPS[10] == Group(-1, 31, 30, 3)
  {
  }

  /** In the SHA-512 table they are turned the other way, from (0, 21, 42) on. */
  lemma Sha512Turns(k: nat)
    requires k < 20
    ensures var g := SHA512_GROUPS[k]; SHA512_GROUPS[k + 1] == Group(g.middle + 1, g.low + 1, g.high + 1, 4)
    ensures |SHA512_GROUPS| == 22
    ensures SHA512_GROUPS[0] == Group(0, 21, 42, 4) && SHA512_GROUPS[21] == Group(-1, -1, 63, 2)
  {
    Sha512Last();
    assert SHA512_GROUPS[0] == SHA512_FIRST[0];
    if k < 10 {
      assert SHA512_GROUPS[k] == SHA512_FIRST[k] && SHA512_GROUPS[k + 1] == SHA512_FIRST[k + 1];
    } else if k == 10 {
      assert SHA512_GROUPS[10] == SHA512_FIRST[10] && SHA512_GROUPS[11] == SHA512_REST[0];
    } else {
      assert SHA512_GROUPS[k] == SHA512_REST[k - 11] && SHA512_GROUPS[k + 1] == SHA512_REST[k - 10];
    }
  }

  /** A full group writes its three bytes as one number, the first of them highest. */
  lemma GroupBytes(buf: Bytes, g: Group)
    requires 0 <= g.high < |buf| && 0 <= g.middle < |buf| && 0 <= g.low < |buf|
    ensures Word(buf, g) == (buf[g.high] as int) * 65536 + (buf[g.middle] as int) * 256 + (buf[g.low] as int)
    ensures Encode(buf, [g]) == Digits(Word(buf, g), g.chars)
  {
    assert [g][..0] == [];
    assert Encode(buf, []) + Digits(Word(buf, g), g.chars) == Digits(Word(buf, g), g.chars);
  }
}
