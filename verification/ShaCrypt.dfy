/** The digest computation of the SHA-256 and SHA-512 password schemes (`shacrypt`), over an arbitrary hash. */
module ShaCrypt {
  import opened Arithmetic
  import opened CryptEncoding

  /** A hash function with digests of `size` bytes. A digest context is the bytes fed to it so far. */
  datatype Hash = Hash(size: nat, digest: Bytes -> Bytes)

  ghost predicate HashOk(h: Hash) {
    0 < h.size <= 64 && forall m :: |h.digest(m)| == h.size
  }

  // ----- the scheme, declaratively

  /** The first `n` bytes of `d` repeated for ever. */
  function Cycle(d: Bytes, n: nat): (r: Bytes)
    requires d != []
    ensures |r| == n
    decreases n
  {
    if n <= |d| then d[..n] else d + Cycle(d, n - |d|)
  }

  lemma {:induction false} CycleAt(d: Bytes, n: nat, i: nat)
    requires d != [] && i < n
    ensures Cycle(d, n)[i] == d[i % |d|]
    decreases n
  {
    if |d| <= i {
      CycleAt(d, n - |d|, i - |d|);
      ModShift(i, |d|);
    } else {
      ModSmall(i, |d|);
    }
  }

  lemma ModSmall(i: nat, m: nat)
    requires i < m
    ensures i % m == i
  {
  }

  lemma ModShift(i: nat, m: nat)
    requires 0 < m <= i
    ensures (i - m) % m == i % m
  {
    var q, r := i / m, i % m;
    assert i == q * m + r;
    assert i - m == (q - 1) * m + r;
    var q', r' := (i - m) / m, (i - m) % m;
    assert (q - 1 - q') * m == r' - r;
    MulBound(q - 1 - q', m, r' - r);
  }

  lemma MulBound(k: int, m: int, d: int)
    requires m > 0 && k * m == d && -m < d < m
    ensures d == 0
  {
    if k >= 1 { MulMono(1, k, m); } else if k <= -1 { MulMono(k, -1, m); }
  }

  function Times(s: Bytes, n: nat): (r: Bytes) {
    if n == 0 then [] else Times(s, n - 1) + s
  }

  /** One block for every bit of `n`, lowest first: `one` for a set bit and `zero` for a clear one. */
  function BitBlocks(n: nat, one: Bytes, zero: Bytes): (r: Bytes) {
    if n == 0 then [] else (if n % 2 == 1 then one else zero) + BitBlocks(n / 2, one, zero)
  }

  function DigestB(h: Hash, pw: Bytes, salt: Bytes): (r: Bytes) {
    h.digest(pw + salt + pw)
  }

  ghost function DigestA(h: Hash, pw: Bytes, salt: Bytes): (r: Bytes)
    requires HashOk(h)
    ensures |r| == h.size
  {
    var b := DigestB(h, pw, salt);
    h.digest(pw + salt + Cycle(b, |pw|) + BitBlocks(|pw|, b, pw))
  }

  /** How often the salt goes into its sequence: 16 times and as often as the first byte of `A` says. */
  function SaltCount(first: byte): (n: nat) {
    var b: int := first;
    16 + b
  }

  /** The input of round `n`, given the digest of the round before. */
  function RoundInput(n: nat, prev: Bytes, p: Bytes, s: Bytes): (r: Bytes) {
    (if n % 2 == 1 then p else prev)
    + (if n % 3 != 0 then s else [])
    + (if n % 7 != 0 then p else [])
    + (if n % 2 == 1 then prev else p)
  }

  /** Only parity and divisibility by 3 and by 7 matter to a round. */
  lemma RoundsRepeat(m: nat, n: nat, prev: Bytes, p: Bytes, s: Bytes)
    requires m % 2 == n % 2 && (m % 3 == 0 <==> n % 3 == 0) && (m % 7 == 0 <==> n % 7 == 0)
    ensures RoundInput(m, prev, p, s) == RoundInput(n, prev, p, s)
  {
  }

  /** The eight kinds of rounds. */
  lemma RoundKinds(prev: Bytes, p: Bytes, s: Bytes)
    ensures RoundInput(0, prev, p, s) == prev + p
    ensures RoundInput(1, prev, p, s) == p + s + p + prev
    ensures RoundInput(2, prev, p, s) == prev + s + p + p
    ensures RoundInput(3, prev, p, s) == p + p + prev
    ensures RoundInput(6, prev, p, s) == prev + p + p
    ensures RoundInput(7, prev, p, s) == p + s + prev
    ensures RoundInput(14, prev, p, s) == prev + s + p
    ensures RoundInput(21, prev, p, s) == p + prev
  {
  }

  /** The digest after `n` rounds. */
  function Rounds(h: Hash, n: nat, a: Bytes, p: Bytes, s: Bytes): (r: Bytes) {
    if n == 0 then a else h.digest(RoundInput(n - 1, Rounds(h, n - 1, a, p, s), p, s))
  }

  /** The digest of the whole scheme. */
  ghost function ShaCryptDigest(h: Hash, pw: Bytes, salt: Bytes, rounds: nat): (r: Bytes)
    requires HashOk(h)
  {
    var a := DigestA(h, pw, salt);
    var p := Cycle(h.digest(Times(pw, |pw|)), |pw|);
    var s := Cycle(h.digest(Times(salt, SaltCount(a[0]))), |salt|);
    Rounds(h, rounds, a, p, s)
  }

  /** The salt goes in 16 times and once more for every unit of the first byte of `A`. */
  lemma SaltCountIs(first: byte)
    ensures SaltCount(first) == (first as int) + 16
  {
  }

  /** Copies of a text add up. */
  lemma {:induction false} TimesAdd(s: Bytes, m: nat, n: nat)
    ensures Times(s, m + n) == Times(s, m) + Times(s, n) && Times(s, 1) == s
  {
    if n == 0 {
      assert Times(s, m) + [] == Times(s, m);
    } else {
      TimesAdd(s, m, n - 1);
      assert Times(s, m) + (Times(s, n - 1) + s) == Times(s, m) + Times(s, n - 1) + s;
    }
  }

  /** The scheme spelled out for a password of five bytes, whose length has the bits 101, and three rounds. */
  lemma FiveBytes(h: Hash, pw: Bytes, salt: Bytes)
    requires HashOk(h) && |pw| == 5 <= h.size && |salt| <= h.size
    ensures var b := h.digest(pw + salt + pw);
      var a := h.digest(pw + salt + b[..5] + b + pw + b);
      var p, s := h.digest(pw + pw + pw + pw + pw)[..5], h.digest(Times(salt, (a[0] as int) + 16))[..|salt|];
      var one := h.digest(a + p);
      var two := h.digest(p + s + p + one);
      ShaCryptDigest(h, pw, salt, 3) == h.digest(two + s + p + p)
  {
    FiveDigest(h, pw, salt);
    FiveTimes(pw);
    var a := DigestA(h, pw, salt);
    ThreeRounds(h, a, Cycle(h.digest(Times(pw, 5)), 5), Cycle(h.digest(Times(salt, SaltCount(a[0]))), |salt|));
  }

  lemma FiveDigest(h: Hash, pw: Bytes, salt: Bytes)
    requires HashOk(h) && |pw| == 5 <= h.size
    ensures var b := h.digest(pw + salt + pw); DigestA(h, pw, salt) == h.digest(pw + salt + b[..5] + b + pw + b)
  {
    var b := h.digest(pw + salt + pw);
    FiveBlocks(b, pw);
    assert pw + salt + b[..5] + (b + pw + b) == pw + salt + b[..5] + b + pw + b;
  }

  lemma FiveBlocks(one: Bytes, zero: Bytes)
    ensures BitBlocks(5, one, zero) == one + zero + one
  {
    assert BitBlocks(1, one, zero) == one + BitBlocks(0, one, zero);
    assert BitBlocks(2, one, zero) == zero + BitBlocks(1, one, zero);
  }

  lemma FiveTimes(s: Bytes)
    ensures Times(s, 5) == s + s + s + s + s
  {
    assert Times(s, 2) == Times(s, 1) + s && Times(s, 3) == Times(s, 2) + s && Times(s, 4) == Times(s, 3) + s;
    assert Times(s, 1) == [] + s == s;
  }

  lemma ThreeRounds(h: Hash, a: Bytes, p: Bytes, s: Bytes)
    ensures var one := h.digest(a + p);
      Rounds(h, 3, a, p, s) == h.digest(h.digest(p + s + p + one) + s + p + p)
  {
    var one := h.digest(a + p);
    var two := h.digest(p + s + p + one);
    RoundKinds(a, p, s);
    RoundKinds(one, p, s);
    RoundKinds(two, p, s);
    assert Rounds(h, 0, a, p, s) == a;
    assert Rounds(h, 1, a, p, s) == one;
    assert Rounds(h, 2, a, p, s) == two;
  }

  // ----- the program

  /** `EVP_DigestFinal_ex`: the digest overwrites the front of a buffer. */
  method Final(h: Hash, md: Bytes, buf: array<byte>)
    requires HashOk(h) && buf.Length == 64
    modifies buf
    ensures buf[..h.size] == h.digest(md)
  {
    var d := h.digest(md);
    var i := 0;
    while i < |d|
      invariant 0 <= i <= |d|
      invariant buf[..i] == d[..i]
    {
      buf[i] := d[i];
      i := i + 1;
    }
    assert d[..i] == d;
  }

  /** Feeding a digest as often as fits and then a part of it. The loop stops at exactly one digest length. */
  method FeedCycle(md: Bytes, buf: array<byte>, size: nat, len: nat) returns (md': Bytes)
    requires 0 < size <= buf.Length
    ensures md' == md + Cycle(buf[..size], len)
  {
    md' := md;
    var n := len;
    while n > size
      invariant 0 <= n <= len
      invariant md' + Cycle(buf[..size], n) == md + Cycle(buf[..size], len)
    {
      CycleStep(md', buf[..size], n);
      md' := md' + buf[..size];
      n := n - size;
    }
    assert buf[..size][..n] == buf[..n];
    md' := md' + buf[..n];
  }

  /** `memcpy` of the first `n` bytes of a digest behind what is already there. */
  method CopyBehind(bytes: array<byte>, cp: nat, temp: array<byte>, n: nat)
    requires n <= temp.Length && cp + n <= bytes.Length && bytes != temp
    modifies bytes
    ensures bytes[..cp + n] == old(bytes[..cp]) + temp[..n]
  {
    forall i | 0 <= i < n { bytes[cp + i] := temp[i]; }
  }

  lemma CycleStep(front: Bytes, d: Bytes, n: nat)
    requires d != [] && n > |d|
    ensures front + Cycle(d, n) == front + d + Cycle(d, n - |d|)
  {
  }

  /** Filling a sequence in place with copies of a digest and then a part of it. */
  method FillCycle(temp: array<byte>, size: nat, len: nat) returns (bytes: array<byte>)
    requires 0 < size <= temp.Length
    ensures fresh(bytes) && bytes[..] == Cycle(temp[..size], len)
  {
    bytes := new byte[len](_ => 0);
    var cp, n := 0, len;
    ghost var d := temp[..size];
    while n > size
      invariant 0 <= n && cp + n == len
      invariant bytes[..cp] + Cycle(d, n) == Cycle(d, len)
    {
      CycleStep(bytes[..cp], d, n);
      CopyBehind(bytes, cp, temp, size);
      n, cp := n - size, cp + size;
    }
    CopyBehind(bytes, cp, temp, n);
    assert temp[..n] == d[..n];
    assert bytes[..] == bytes[..cp + n];
  }

  /** Feeding a text `times` times. */
  method FeedTimes(text: Bytes, times: nat) returns (md: Bytes)
    ensures md == Times(text, times)
  {
    md := [];
    var n := times;
    while n > 0
      invariant 0 <= n <= times
      invariant md == Times(text, times - n)
    {
      md := md + text;
      n := n - 1;
    }
  }

  /** The walk over the bits of the password length. */
  method FeedBits(md: Bytes, len: nat, buf: array<byte>, size: nat, pw: Bytes) returns (md': Bytes)
    requires size <= buf.Length
    ensures md' == md + BitBlocks(len, buf[..size], pw)
  {
    md' := md;
    var n := len;
    while n != 0
      invariant md' + BitBlocks(n, buf[..size], pw) == md + BitBlocks(len, buf[..size], pw)
    {
      var block := if n % 2 == 1 then buf[..size] else pw;
      assert md' + (block + BitBlocks(n / 2, buf[..size], pw)) == md' + block + BitBlocks(n / 2, buf[..size], pw);
      md' := md' + block;
      n := n / 2;
    }
    assert md' + [] == md';
  }

  /** The rounds, each overwriting the digest of the one before. */
  method RunRounds(h: Hash, rounds: nat, buf: array<byte>, p: Bytes, s: Bytes)
    requires HashOk(h) && buf.Length == 64
    modifies buf
    ensures buf[..h.size] == Rounds(h, rounds, old(buf[..h.size]), p, s)
  {
    var n := 0;
    while n < rounds
      invariant 0 <= n <= rounds
      invariant buf[..h.size] == Rounds(h, n, old(buf[..h.size]), p, s)
    {
      var md2 := if n % 2 == 1 then p else buf[..h.size];
      if n % 3 != 0 { md2 := md2 + s; }
      if n % 7 != 0 { md2 := md2 + p; }
      md2 := md2 + if n % 2 == 1 then buf[..h.size] else p;
      assert md2 == RoundInput(n, buf[..h.size], p, s);
      Final(h, md2, buf);
      n := n + 1;
    }
  }

  /** From the first digest context to the last round. Empty passwords and salts end in an error, because a
      buffer of no bytes cannot be allocated. */
  method Compute(h: Hash, pw: Bytes, salt: Bytes, rounds: nat, buf: array<byte>) returns (ok: bool)
    requires HashOk(h) && buf.Length == 64
    modifies buf
    ensures ok <==> pw != [] && salt != []
    ensures ok ==> buf[..h.size] == ShaCryptDigest(h, pw, salt, rounds)
  {
    var temp := new byte[64](_ => 0);
    var md := pw + salt;
    Final(h, pw + salt + pw, buf);
    md := FeedCycle(md, buf, h.size, |pw|);
    md := FeedBits(md, |pw|, buf, h.size, pw);
    Final(h, md, buf);
    ghost var a := buf[..h.size];
    assert a == DigestA(h, pw, salt);

    var md2 := FeedTimes(pw, |pw|);
    Final(h, md2, temp);
    if |pw| == 0 { return false; }
    var p := FillCycle(temp, h.size, |pw|);

    md2 := FeedTimes(salt, SaltCount(buf[0]));
    Final(h, md2, temp);
    if |salt| == 0 { return false; }
    var s := FillCycle(temp, h.size, |salt|);
    assert buf[0] == a[0];

    RunRounds(h, rounds, buf, p[..], s[..]);
    return true;
  }
}
