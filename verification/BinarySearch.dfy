/** `ossl_bsearch`: binary search with an arbitrary comparison, and its two flags. */
module BinarySearch {
  import opened Arithmetic
  import opened Text

  const INT_MAX := 0x7FFF_FFFF

  /** `cmp(x)` is the result of comparing the key with element `x`. Its sign does not rise along the array. */
  ghost predicate Monotone<T>(a: seq<T>, cmp: T -> int) {
    forall i, j :: 0 <= i < j < |a| ==> (cmp(a[i]) < 0 ==> cmp(a[j]) < 0) && (cmp(a[i]) <= 0 ==> cmp(a[j]) <= 0)
  }

  /** Where the key would have to be inserted: behind all smaller elements and before all others. */
  ghost predicate InsertionPoint<T>(a: seq<T>, cmp: T -> int, p: int) {
    && 0 <= p <= |a|
    && (forall i :: 0 <= i < p ==> cmp(a[i]) > 0)
    && (forall i :: p <= i < |a| ==> cmp(a[i]) <= 0)
  }

  function Pow2(n: nat): (p: nat)
    ensures p > 0
  {
    if n == 0 then 1 else 2 * Pow2(n - 1)
  }

  /** The result without the flags' adjustments: the last element looked at, and how it compares. */
  datatype Probe = Probe(at: int, c: int)

  /** The halving loop over elements of `size` bytes. `probes` counts its comparisons, of which there are at most
      floor(log2 num) + 1; `peak` is the largest index sum it forms, which stays within `int` for every comparison
      exactly up to 2^30 elements; `far` is the largest byte offset it forms, which reaches that of the last element
      for a key behind all elements and never exceeds it. */
  method Halve<T>(a: seq<T>, cmp: T -> int, ghost size: nat)
    returns (r: Probe, ghost probes: nat, ghost peak: int, ghost far: int)
    requires a != [] && Monotone(a, cmp)
    ensures 0 <= r.at < |a| && r.c == cmp(a[r.at])
    ensures r.c != 0 ==> forall i :: 0 <= i < |a| ==> cmp(a[i]) != 0
    ensures r.c > 0 ==> InsertionPoint(a, cmp, r.at + 1)
    ensures r.c < 0 ==> InsertionPoint(a, cmp, r.at)
    ensures probes > 0 && Pow2(probes - 1) <= |a|
    ensures |a| <= 0x4000_0000 ==> peak <= INT_MAX
    ensures |a| > 0x4000_0000 && cmp(a[|a| - 1]) > 0 ==> peak > INT_MAX
    ensures far <= (|a| - 1) * size && (cmp(a[|a| - 1]) > 0 ==> far == (|a| - 1) * size)
  {
    var l, h, i, c := 0, |a|, 0, 0;
    probes, peak, far := 0, 0, 0;
    ghost var pow := 1;
    while l < h
      invariant 0 <= l <= h <= |a|
      invariant forall k :: 0 <= k < l ==> cmp(a[k]) > 0
      invariant forall k :: h <= k < |a| ==> cmp(a[k]) < 0
      invariant h < |a| ==> cmp(a[|a| - 1]) < 0
      invariant probes == 0 ==> l == 0 && h == |a|
      invariant probes > 0 ==> 0 <= i < |a| && c == cmp(a[i]) && c != 0 && (c > 0 ==> l == i + 1) && (c < 0 ==> h == i)
      invariant (h - l) * pow <= |a| && pow == Pow2(probes) && (probes > 0 ==> Pow2(probes - 1) <= |a|)
      invariant peak <= 2 * |a| - 1 && 2 * (l - 1) <= peak
      invariant 0 <= far <= (|a| - 1) * size && (probes > 0 ==> i * size <= far)
    {
      HalfFits(h - l, pow, |a|);
      if l + h > peak { peak := l + h; }
      i := (l + h) / 2;
      MulMono(i, |a| - 1, size);
      if i * size > far { far := i * size; }
      c := cmp(a[i]);
      probes := probes + 1;
      ghost var half := pow;
      pow := 2 * pow;
      if c < 0 {
        Halved(i - l, h - l, half, |a|);
        h := i;
      } else if c > 0 {
        Halved(h - i - 1, h - l, half, |a|);
        l := i + 1;
      } else {
        return Probe(i, c), probes, peak, far;
      }
    }
    return Probe(i, c), probes, peak, far;
  }

  lemma HalfFits(w: int, p: nat, n: nat)
    requires w >= 1 && w * p <= n
    ensures p <= n
  {
    MulMono(1, w, p);
  }

  lemma Halved(w': int, w: int, p: nat, n: nat)
    requires 0 <= w' && 2 * w' <= w && w * p <= n
    ensures w' * (2 * p) <= n
  {
    MulMono(2 * w', w, p);
  }

  /** `ossl_bsearch`, with positions in place of addresses. A match is found exactly if there is one, and it is the
      leftmost one if asked for; without a match, the result is nothing or, if asked for, an element next to
      where the key would be inserted. */
  method Search<T>(a: seq<T>, cmp: T -> int, valueOnNomatch: bool, firstOnMatch: bool) returns (r: Option<nat>)
    requires Monotone(a, cmp)
    ensures r.Some? ==> r.value < |a|
    ensures (exists i :: 0 <= i < |a| && cmp(a[i]) == 0) ==> r.Some? && cmp(a[r.value]) == 0
    ensures firstOnMatch && r.Some? && cmp(a[r.value]) == 0 ==> forall i :: 0 <= i < r.value ==> cmp(a[i]) > 0
    ensures (forall i :: 0 <= i < |a| ==> cmp(a[i]) != 0) ==> (r.Some? <==> valueOnNomatch && a != [])
    ensures r.Some? && cmp(a[r.value]) != 0 ==> InsertionPoint(a, cmp, r.value) || InsertionPoint(a, cmp, r.value + 1)
  {
    if a == [] { return None; }
    var p, probes, peak, far := Halve(a, cmp, 1);
    if p.c != 0 && !valueOnNomatch { return None; }
    var i := p.at;
    if p.c == 0 && firstOnMatch {
      while i > 0 && cmp(a[i - 1]) == 0
        invariant 0 <= i <= p.at && cmp(a[i]) == 0
      {
        i := i - 1;
      }
    }
    return Some(i);
  }
}
