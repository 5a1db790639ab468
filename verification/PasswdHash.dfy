/** `shacrypt` and `md5crypt` as a whole: from password and salt text to the printed hash in a fixed buffer. */
module PasswdHash {
  import opened Text
  import opened CryptEncoding
  import opened ShaCrypt
  import opened CryptSettings

  // ----- writing into the static buffer

  /** `OPENSSL_strlcat` into a buffer holding `len` bytes and a terminator; text that does not fit is cut off. */
  method AppendText(out: array<byte>, len: nat, src: Bytes) returns (len': nat)
    requires len < out.Length
    modifies out
    ensures len <= len' < out.Length && out[len'] == 0
    ensures len + |src| < out.Length ==> len' == len + |src| && out[..len'] == old(out[..len]) + src
  {
    len' := len;
    while len' + 1 < out.Length && len' - len < |src|
      invariant len <= len' < out.Length && len' - len <= |src|
      invariant out[..len'] == old(out[..len]) + src[..len' - len]
    {
      out[len'] := src[len' - len];
      assert out[..len' + 1] == out[..len'] + [src[len' - len]];
      len' := len' + 1;
    }
    out[len'] := 0;
    assert len + |src| < out.Length ==> src[..len' - len] == src;
  }

  /** `b64_from_24bit`. */
  method B64From24Bit(out: array<byte>, cp: nat, buf: Bytes, g: Group) returns (cp': nat)
    requires cp + g.chars <= out.Length
    modifies out
    ensures cp' == cp + g.chars
    ensures out[..cp'] == old(out[..cp]) + Digits(Word(buf, g), g.chars)
  {
    var w := Word(buf, g);
    var i := g.chars;
    cp' := cp;
    while i > 0
      invariant 0 <= i <= g.chars && cp' == cp + g.chars - i && w >= 0
      invariant out[..cp'] + Digits(w, i) == old(out[..cp]) + Digits(Word(buf, g), g.chars)
    {
      ghost var before := out[..cp'];
      i := i - 1;
      out[cp'] := Cov(w % 64);
      assert out[..cp' + 1] == before + [Cov(w % 64)];
      assert before + ([Cov(w % 64)] + Digits(w / 64, i)) == out[..cp' + 1] + Digits(w / 64, i);
      cp' := cp' + 1;
      w := w / 64;
    }
    assert out[..cp'] + [] == out[..cp'];
  }

  ghost function Chars(table: seq<Group>): (n: nat) {
    if table == [] then 0 else Chars(table[..|table| - 1]) + table[|table| - 1].chars
  }

  lemma {:induction false} EncodeLength(buf: Bytes, table: seq<Group>)
    ensures |Encode(buf, table)| == Chars(table)
  {
    if table != [] { EncodeLength(buf, table[..|table| - 1]); }
  }

  lemma {:induction false} CharsPrefix(table: seq<Group>, k: nat)
    requires k <= |table|
    ensures Chars(table[..k]) <= Chars(table)
    decreases |table| - k
  {
    if k < |table| {
      assert table[..k + 1][..k] == table[..k];
      CharsPrefix(table, k + 1);
    } else {
      assert table[..k] == table;
    }
  }

  /** The calls of `b64_from_24bit` for all groups of a table. */
  method EncodeAll(out: array<byte>, cp: nat, buf: Bytes, table: seq<Group>) returns (cp': nat)
    requires cp + Chars(table) <= out.Length
    modifies out
    ensures cp' == cp + Chars(table)
    ensures out[..cp'] == old(out[..cp]) + Encode(buf, table)
  {
    cp' := cp;
    var k := 0;
    while k < |table|
      invariant 0 <= k <= |table| && cp' == cp + Chars(table[..k])
      invariant cp' <= out.Length
      invariant out[..cp'] == old(out[..cp]) + Encode(buf, table[..k])
    {
      assert table[..k + 1][..k] == table[..k];
      CharsPrefix(table, k + 1);
      ghost var before := Encode(buf, table[..k]);
      cp' := B64From24Bit(out, cp', buf, table[k]);
      assert out[..cp'] == old(out[..cp]) + (before + Digits(Word(buf, table[k]), table[k].chars));
      k := k + 1;
    }
    assert table[..k] == table;
  }

  // ----- shacrypt

  const SHA_BUFFER := 3 + 17 + 17 + 86 + 1

  function Groups(magic: byte): (t: seq<Group>) {
    if magic == 0x35 then SHA256_GROUPS else SHA512_GROUPS
  }

  lemma GroupsFit(magic: byte)
    ensures Chars(Groups(magic)) <= 86
  {
    assert |SHA256_GROUPS| == 11 && |SHA512_GROUPS| == 22;
    Sha256TableOk();
    Sha512TableOk();
    EncodeSlice([], Groups(magic), 0);
    EncodeLength([], Groups(magic));
  }

  /** The printed hash. */
  ghost function ShaCryptText(h: Hash, magic: byte, pw: Bytes, s: Settings): (r: Bytes)
    requires HashOk(h)
  {
    [DOLLAR, magic, DOLLAR] + WriteSettings(s) + [DOLLAR]
    + Encode(ShaCryptDigest(h, pw, s.salt, s.rounds), Groups(magic))
  }

  /** "$magic$" and the settings. */
  method WriteHeader(out: array<byte>, magic: byte, s: Settings) returns (len: nat)
    requires out.Length == SHA_BUFFER && |s.salt| <= 16 && |WriteSettings(s)| <= (if s.custom then 17 else 0) + |s.salt|
    modifies out
    ensures len == 3 + |WriteSettings(s)| < out.Length
    ensures out[..len] == [DOLLAR, magic, DOLLAR] + WriteSettings(s)
  {
    len := WriteMagic(out, magic);
    ghost var text := [DOLLAR, magic, DOLLAR];
    if s.custom {
      len := AppendText(out, len, ROUNDS_PREFIX + PrintedUnsigned(s.rounds));
      len := AppendText(out, len, [DOLLAR]);
    }
    HeaderText(text, s);
    len := AppendText(out, len, s.salt);
  }

  lemma HeaderText(text: Bytes, s: Settings)
    ensures var more := if s.custom then text + (ROUNDS_PREFIX + PrintedUnsigned(s.rounds)) + [DOLLAR] else text;
      more + s.salt == text + WriteSettings(s)
    ensures s.custom ==> |ROUNDS_PREFIX + PrintedUnsigned(s.rounds)| + 1 + |s.salt| == |WriteSettings(s)|
  {
  }

  method WriteMagic(out: array<byte>, magic: byte) returns (len: nat)
    requires out.Length > 3
    modifies out
    ensures len == 3 && out[..len] == [DOLLAR, magic, DOLLAR]
  {
    len := AppendText(out, 0, [DOLLAR]);
    len := AppendText(out, len, [magic]);
    len := AppendText(out, len, [DOLLAR]);
  }

  /** `shacrypt` once scheme and settings are known. The length guard never fires, and all that is written,
      with the terminator, fits in the buffer. */
  method PrintHash(sha: Hash, magic: byte, pw: Bytes, s: Settings) returns (r: Option<Bytes>)
    requires HashOk(sha) && |s.salt| <= 16 && |WriteSettings(s)| <= (if s.custom then 17 else 0) + |s.salt|
    ensures r == if pw != [] && s.salt != [] then Some(ShaCryptText(sha, magic, pw, s)) else None
    ensures r.Some? ==> |r.value| < SHA_BUFFER
  {
    var out := new byte[SHA_BUFFER](_ => 0);
    var cp := WriteHeader(out, magic, s);
    if cp > 3 + (if s.custom then 17 else 0) + |s.salt| {
      return None;
    }
    ghost var header := out[..cp];
    var buf := new byte[64](_ => 0);
    var ok := Compute(sha, pw, s.salt, s.rounds, buf);
    if !ok { return None; }
    assert out[..cp] == header;
    out[cp] := DOLLAR;
    cp := cp + 1;
    assert out[..cp] == header + [DOLLAR];
    GroupsFit(magic);
    cp := EncodeAll(out, cp, buf[..sha.size], Groups(magic));
    ghost var text := out[..cp];
    out[cp] := 0;
    assert out[..cp] == text;
    return Some(out[..cp]);
  }

  predicate Scheme(magic: Bytes) {
    |magic| == 1 && (magic[0] == 0x35 || magic[0] == 0x36)
  }

  /** `shacrypt`. It fails exactly on an unknown scheme, unreadable settings, or an empty password or salt. */
  method ShaCryptMain(sha256: Hash, sha512: Hash, pw: Bytes, magic: Bytes, saltText: Bytes) returns (r: Option<Bytes>)
    requires HashOk(sha256) && HashOk(sha512)
    ensures r.Some?
       <==> Scheme(magic) && ReadSettings(saltText).Some? && ReadSettings(saltText).value.salt != [] && pw != []
    ensures r.Some? ==> |r.value| < SHA_BUFFER == 124
    ensures r.Some?
        ==> r.value == ShaCryptText(if magic[0] == 0x35 then sha256 else sha512, magic[0], pw,
                                    ReadSettings(saltText).value)
  {
    if |magic| != 1 { return None; }
    var sha := sha512;
    if magic[0] == 0x35 {
      sha := sha256;
    } else if magic[0] != 0x36 {
      return None;
    }
    var settings := ReadSettings(saltText);
    if settings.None? { return None; }
    SettingsLength(saltText);
    r := PrintHash(sha, magic[0], pw, settings.value);
  }

  // ----- the printed text

  /** The scheme "5" prints "$5$", the settings, "$" and the digest by the SHA-256 table, and "6" by the other. */
  lemma TextIs(h: Hash, pw: Bytes, s: Settings)
    requires HashOk(h)
    ensures var digest := ShaCryptDigest(h, pw, s.salt, s.rounds);
      var settings := if s.custom
        then [0x72, 0x6F, 0x75, 0x6E, 0x64, 0x73, 0x3D] + PrintedUnsigned(s.rounds) + [0x24] + s.salt else s.salt;
      && ShaCryptText(h, 0x35, pw, s) == [0x24, 0x35, 0x24] + settings + [0x24] + Encode(digest, SHA256_GROUPS)
      && ShaCryptText(h, 0x36, pw, s) == [0x24, 0x36, 0x24] + settings + [0x24] + Encode(digest, SHA512_GROUPS)
  {
  }

  /** The schemes are "5" and "6". */
  lemma SchemeIs(magic: Bytes)
    ensures Scheme(magic) <==> magic == [0x35] || magic == [0x36]
  {
  }
}
