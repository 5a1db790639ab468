/** The MD5 password schemes (`md5crypt`), over an arbitrary 16-byte hash. */
module Md5Crypt {
  import opened Text
  import opened CryptEncoding
  import opened ShaCrypt
  import opened CryptSettings
  import opened PasswdHash

  const MD5_BUFFER := 6 + 9 + 24 + 2

  // ----- the scheme, declaratively

  /** "$magic$", or nothing for the scheme without a magic string. */
  function Tag(magic: Bytes): (r: Bytes) {
    if magic == [] then [] else [DOLLAR] + magic + [DOLLAR]
  }

  function Cut8(s: Bytes): (r: Bytes)
    ensures |r| <= 8
  {
    if |s| > 8 then s[..8] else s
  }

  ghost function Md5Start(h: Hash, pw: Bytes, magic: Bytes, salt: Bytes): (r: Bytes)
    requires HashOk(h)
  {
    h.digest(pw + Tag(magic) + salt + Cycle(DigestB(h, pw, salt), |pw|)
        + BitBlocks(|pw|, [0], pw[..if pw == [] then 0 else 1]))
  }

  ghost function Md5CryptText(h: Hash, pw: Bytes, magic: Bytes, salt: Bytes): (r: Bytes)
    requires HashOk(h)
  {
    Tag(magic) + salt + [DOLLAR] + Encode(Rounds(h, 1000, Md5Start(h, pw, magic, salt), pw, salt), MD5_GROUPS)
  }

  /** The scheme spelled out for a password of five bytes: the tag goes into the first digest, and the bits of the
      length are zero bytes and first bytes of the password. */
  lemma FiveByteStart(h: Hash, pw: Bytes, magic: Bytes, salt: Bytes)
    requires HashOk(h) && |pw| == 5 <= h.size
    ensures var front := h.digest(pw + salt + pw)[..5] + [0, pw[0], 0];
      Md5Start(h, pw, magic, salt)
      == h.digest(if magic == [] then pw + salt + front else pw + [0x24] + magic + [0x24] + salt + front)
  {
    var b := h.digest(pw + salt + pw);
    var front := b[..5] + [0, pw[0], 0];
    FiveBlocks([0], pw[..1]);
    assert [0] + pw[..1] + [0] == [0, pw[0], 0];
    var tagged := if magic == [] then pw else pw + [0x24] + magic + [0x24];
    assert pw + Tag(magic) == tagged;
    assert tagged + salt + b[..5] + [0, pw[0], 0] == tagged + salt + front;
  }

  /** The text of the scheme with magic string "1": a thousand rounds of password and salt. */
  lemma Md5TextIs(h: Hash, pw: Bytes, salt: Bytes)
    requires HashOk(h)
    ensures var digest := Rounds(h, 1000, Md5Start(h, pw, [0x31], salt), pw, salt);
      Md5CryptText(h, pw, [0x31], salt) == [0x24, 0x31, 0x24] + salt + [0x24] + Encode(digest, MD5_GROUPS)
  {
    assert Tag([0x31]) == [0x24, 0x31, 0x24];
  }

  // ----- the program

  /** One byte for every bit of the length: a zero byte or the first byte of the password. */
  method FeedLengthBits(md: Bytes, pw: Bytes) returns (md': Bytes)
    ensures md' == md + BitBlocks(|pw|, [0], pw[..if pw == [] then 0 else 1])
  {
    md' := md;
    var n := |pw|;
    ghost var first := pw[..if pw == [] then 0 else 1];
    while n != 0
      invariant 0 <= n <= |pw|
      invariant md' + BitBlocks(n, [0], first) == md + BitBlocks(|pw|, [0], first)
    {
      var block: Bytes := if n % 2 == 1 then [0] else [pw[0]];
      assert md' + (block + BitBlocks(n / 2, [0], first)) == md' + block + BitBlocks(n / 2, [0], first);
      md' := md' + block;
      n := n / 2;
    }
    assert md' + [] == md';
  }

  /** The output permutation: steps of 6 modulo 17, and two fix-ups for what the walk misses. */
  method Permute(buf: array<byte>) returns (perm: array<byte>)
    requires buf.Length == 64
    ensures fresh(perm) && perm.Length == 16
    ensures forall j :: 0 <= j < 16 ==> perm[j] == buf[Source(j)]
  {
    perm := new byte[16](_ => 0);
    var dest, source := 0, 0;
    while dest < 14
      invariant 0 <= dest <= 14 && source == 6 * dest % 17
      invariant forall j :: 0 <= j < dest ==> perm[j] == buf[Source(j)]
    {
      perm[dest] := buf[source];
      WalkStep(dest);
      dest, source := dest + 1, (source + 6) % 17;
    }
    perm[14] := buf[5];
    perm[15] := buf[11];
  }

  lemma DivMod17(x: nat, q: nat, r: nat)
    requires x == 17 * q + r && r < 17
    ensures x % 17 == r
  {
  }

  lemma WalkStep(j: nat)
    ensures (6 * j % 17 + 6) % 17 == 6 * (j + 1) % 17
  {
    var q, r := 6 * j / 17, 6 * j % 17;
    if r + 6 < 17 {
      DivMod17(r + 6, 0, r + 6);
      DivMod17(6 * (j + 1), q, r + 6);
    } else {
      DivMod17(r + 6, 1, r - 11);
      DivMod17(6 * (j + 1), q + 1, r - 11);
    }
  }

  function Source(j: nat): (p: nat)
    requires j < 16
    ensures p < 16
  {
    if j < 14 then 6 * j % 17 else if j == 14 then 5 else 11
  }

  /** The walk is the table of the scheme. */
  lemma WalkIsTable(k: nat)
    requires k < 5
    ensures MD5_GROUPS[k] == Group(Source(3 * k), Source(3 * k + 1), Source(3 * k + 2), 4)
    ensures MD5_GROUPS[5] == Group(NONE, NONE, Source(15), 2)
  {
    if k == 0 {} else if k == 1 {} else if k == 2 {} else if k == 3 {} else {}
  }

  lemma DivMod64(x: nat, q: nat, r: nat)
    requires x == 64 * q + r && r < 64
    ensures x / 64 == q && x % 64 == r
  {
  }

  /** The base-64 digits of a 24-bit word in terms of its bytes. */
  lemma ShiftWord(a: nat, b: nat, c: nat)
    requires a < 256 && b < 256 && c < 256
    ensures var w := a * 65536 + b * 256 + c;
      && w % 64 == c % 64
      && w / 64 % 64 == b % 16 * 4 + c / 64
      && w / 64 / 64 % 64 == a % 4 * 16 + b / 16
      && w / 64 / 64 / 64 % 64 == a / 4
  {
    var w := a * 65536 + b * 256 + c;
    var w1 := a * 1024 + b * 4 + c / 64;
    DivMod64(w, w1, c % 64);
    DivMod64(w1, a * 16 + b / 16, b % 16 * 4 + c / 64);
    DivMod64(a * 16 + b / 16, a / 4, a % 4 * 16 + b / 16);
  }

  /** Three bytes as one word. */
  function Word24(a: byte, b: byte, c: byte): (w: nat) {
    a * 65536 + b * 256 + c
  }

  /** The four characters written for three bytes are the digits of their 24-bit word. */
  lemma FourChars(a: byte, b: byte, c: byte)
    ensures [Cov(c % 64), Cov(b % 16 * 4 + c / 64), Cov(a % 4 * 16 + b / 16), Cov(a / 4)] == Digits(Word24(a, b, c), 4)
  {
    ShiftWord(a, b, c);
    DigitsOf4(Word24(a, b, c));
  }

  lemma DigitsOf4(w: nat)
    ensures Digits(w, 4) == [Cov(w % 64), Cov(w / 64 % 64), Cov(w / 64 / 64 % 64), Cov(w / 64 / 64 / 64 % 64)]
  {
    assert Digits(w / 64 / 64 / 64, 1) == [Cov(w / 64 / 64 / 64 % 64)] + Digits(w / 64 / 64 / 64 / 64, 0);
    assert Digits(w / 64 / 64, 2) == [Cov(w / 64 / 64 % 64)] + Digits(w / 64 / 64 / 64, 1);
    assert Digits(w / 64, 3) == [Cov(w / 64 % 64)] + Digits(w / 64 / 64, 2);
  }

  /** Four characters for three bytes. */
  method WriteGroup(out: array<byte>, cp: nat, a: byte, b: byte, c: byte)
    requires cp + 4 <= out.Length
    modifies out
    ensures out[..cp + 4] == old(out[..cp]) + Digits(Word24(a, b, c), 4)
  {
    ghost var before := out[..cp];
    out[cp] := Cov(c % 64);
    out[cp + 1] := Cov(b % 16 * 4 + c / 64);
    out[cp + 2] := Cov(a % 4 * 16 + b / 16);
    out[cp + 3] := Cov(a / 4);
    FourChars(a, b, c);
    assert out[..cp + 4] == before + [Cov(c % 64), Cov(b % 16 * 4 + c / 64), Cov(a % 4 * 16 + b / 16), Cov(a / 4)];
  }

  /** The two characters of the last byte, and the terminator. */
  method WriteShort(out: array<byte>, cp: nat, b: byte)
    requires cp + 2 < out.Length
    modifies out
    ensures out[..cp + 2] == old(out[..cp]) + [Cov(b % 64), Cov(b / 64)]
  {
    ghost var before := out[..cp];
    out[cp] := Cov(b % 64);
    out[cp + 1] := Cov(b / 64);
    out[cp + 2] := 0;
    assert out[..cp + 2] == before + [Cov(b % 64), Cov(b / 64)];
  }

  ghost function EncodedGroups(digest: Bytes, k: nat): (r: Bytes)
    requires k <= 6
  {
    Encode(digest, MD5_GROUPS[..k])
  }

  /** The bytes of a digest in the order of the walk. */
  ghost predicate Permuted(perm: seq<byte>, digest: Bytes) {
    |perm| == 16 && |digest| == 16 && forall j :: 0 <= j < 16 ==> perm[j] == digest[Source(j)]
  }

  lemma PermutedStep(perm: seq<byte>, digest: Bytes, k: nat)
    requires Permuted(perm, digest) && k < 5
    ensures EncodedGroups(digest, k + 1)
        == EncodedGroups(digest, k) + Digits(Word24(perm[3 * k], perm[3 * k + 1], perm[3 * k + 2]), 4)
  {
    EncodeStep(digest, k, perm[3 * k], perm[3 * k + 1], perm[3 * k + 2]);
  }

  lemma PermutedLast(perm: seq<byte>, digest: Bytes)
    requires Permuted(perm, digest)
    ensures Encode(digest, MD5_GROUPS) == EncodedGroups(digest, 5) + [Cov(perm[15] % 64), Cov(perm[15] / 64)]
  {
    EncodeLast(digest, perm[15]);
  }

  /** One group more. */
  method WriteNext(out: array<byte>, cp: nat, perm: seq<byte>, i: nat, ghost digest: Bytes, ghost k: nat,
                   ghost start: Bytes)
    requires cp + 4 <= out.Length && Permuted(perm, digest) && k < 5 && i == 3 * k
        && out[..cp] == start + EncodedGroups(digest, k)
    modifies out
    ensures out[..cp + 4] == start + EncodedGroups(digest, k + 1)
  {
    PermutedStep(perm, digest, k);
    WriteGroup(out, cp, perm[i], perm[i + 1], perm[i + 2]);
  }

  /** Writing the permuted digest: five full groups and a short one. */
  method WriteDigest(out: array<byte>, cp: nat, perm: seq<byte>, ghost digest: Bytes) returns (cp': nat)
    requires cp + 22 < out.Length && Permuted(perm, digest)
    modifies out
    ensures cp' == cp + 22 && out[..cp'] == old(out[..cp]) + Encode(digest, MD5_GROUPS)
  {
    cp' := cp;
    var i := 0;
    ghost var k, start := 0, out[..cp];
    while i < 15
      invariant 0 <= k <= 5 && i == 3 * k && cp' == cp + 4 * k
      invariant out[..cp'] == start + EncodedGroups(digest, k)
    {
      WriteNext(out, cp', perm, i, digest, k, start);
      cp' := cp' + 4;
      i, k := i + 3, k + 1;
    }
    PermutedLast(perm, digest);
    WriteShort(out, cp', perm[15]);
    cp' := cp' + 2;
  }

  lemma EncodeStep(digest: Bytes, k: nat, a: byte, b: byte, c: byte)
    requires k < 5 && |digest| == 16
    requires a == digest[Source(3 * k)] && b == digest[Source(3 * k + 1)] && c == digest[Source(3 * k + 2)]
    ensures EncodedGroups(digest, k + 1) == EncodedGroups(digest, k) + Digits(Word24(a, b, c), 4)
  {
    WalkIsTable(k);
    GroupWord(digest, Source(3 * k), Source(3 * k + 1), Source(3 * k + 2));
    EncodeSnoc(digest, MD5_GROUPS, k);
  }

  lemma GroupWord(digest: Bytes, i: nat, j: nat, l: nat)
    requires i < |digest| && j < |digest| && l < |digest|
    ensures Word(digest, Group(i, j, l, 4)) == Word24(digest[i], digest[j], digest[l])
  {
  }

  lemma EncodeSnoc(digest: Bytes, table: seq<Group>, k: nat)
    requires k < |table|
    ensures Encode(digest, table[..k + 1])
        == Encode(digest, table[..k]) + Digits(Word(digest, table[k]), table[k].chars)
  {
    assert table[..k + 1][..k] == table[..k];
  }

  lemma EncodeLast(digest: Bytes, b: byte)
    requires |digest| == 16 && b == digest[Source(15)]
    ensures Encode(digest, MD5_GROUPS) == EncodedGroups(digest, 5) + [Cov(b % 64), Cov(b / 64)]
  {
    WalkIsTable(0);
    assert |MD5_GROUPS| == 6;
    assert Digits(b, 2) == [Cov(b % 64)] + Digits(b / 64, 1);
    assert Digits(b / 64, 1) == [Cov(b / 64 % 64)] + Digits(b / 64 / 64, 0);
  }

  /** The digest computation. */
  method Md5Compute(h: Hash, pw: Bytes, magic: Bytes, salt: Bytes, buf: array<byte>)
    requires HashOk(h) && buf.Length == 64
    modifies buf
    ensures buf[..h.size] == Rounds(h, 1000, Md5Start(h, pw, magic, salt), pw, salt)
  {
    var md := pw;
    if |magic| > 0 {
      md := md + [DOLLAR];
      md := md + magic;
      md := md + [DOLLAR];
    }
    assert md == pw + Tag(magic);
    md := md + salt;
    Final(h, pw + salt + pw, buf);
    md := FeedCycle(md, buf, h.size, |pw|);
    md := FeedLengthBits(md, pw);
    Final(h, md, buf);
    RunRounds(h, 1000, buf, pw, salt);
  }

  /** "$magic$", given up if the magic string is too long. */
  method WriteTag(out: array<byte>, magic: Bytes) returns (len: nat)
    requires out.Length == MD5_BUFFER
    modifies out
    ensures |magic| <= 4 ==> len == |Tag(magic)| <= 6 && out[..len] == Tag(magic)
  {
    len := 0;
    if |magic| == 0 { return; }
    len := AppendText(out, len, [DOLLAR]);
    if |magic| > 4 { return; }
    len := AppendText(out, len, magic);
    len := AppendText(out, len, [DOLLAR]);
  }

  /** `md5crypt`. It fails exactly when the magic string is longer than four bytes; the salt is cut to eight
      bytes, the guard on the header never fires, and the text with its terminator fits in the buffer. */
  method Md5CryptMain(h: Hash, pw: Bytes, magic: Bytes, saltText: Bytes) returns (r: Option<Bytes>)
    requires HashOk(h) && h.size == 16
    ensures r == if |magic| <= 4 then Some(Md5CryptText(h, pw, magic, Cut8(saltText))) else None
    ensures r.Some? ==> |r.value| < MD5_BUFFER == 41
  {
    var out := new byte[MD5_BUFFER](_ => 0);
    var salt := Cut8(saltText);
    var len := WriteTag(out, magic);
    if |magic| > 4 { return None; }
    len := AppendText(out, len, salt);
    if len > 6 + 8 { return None; }
    ghost var header := out[..len];
    var buf := new byte[64](_ => 0);
    Md5Compute(h, pw, magic, salt, buf);
    var perm := Permute(buf);
    assert out[..len] == header;
    var cp := len;
    out[cp] := DOLLAR;
    cp := cp + 1;
    assert out[..cp] == header + [DOLLAR];
    cp := WriteDigest(out, cp, perm[..], buf[..16]);
    return Some(out[..cp]);
  }
}
