/** NUL-terminated buffers: the C strings in them, and the searches and cuts that parsers make in place. */
module CBuffer {
  import opened Text

  /** The distance from position `i` to the next terminator, or to the end of the buffer. */
  function StringLength(buf: seq<char>, i: nat): (n: nat)
    requires i <= |buf|
    ensures i + n <= |buf| && (i + n < |buf| ==> buf[i + n] == '\0')
    ensures forall j :: i <= j < i + n ==> buf[j] != '\0'
    decreases |buf| - i
  {
    if i == |buf| || buf[i] == '\0' then 0 else 1 + StringLength(buf, i + 1)
  }

  /** The C string starting at position `i` of a NUL-terminated buffer. */
  function CString(buf: seq<char>, i: nat): (s: string)
    requires i <= |buf|
  {
    buf[i..i + StringLength(buf, i)]
  }

  /** A NUL-free run followed by a terminator is exactly the C string that starts there. */
  lemma CStringIs(buf: seq<char>, i: nat, s: string)
    requires NoNul(s) && i + |s| < |buf|
    requires buf[i..i + |s|] == s && buf[i + |s|] == '\0'
    ensures CString(buf, i) == s
  {
    assert forall j :: 0 <= j < |s| ==> buf[i + j] == s[j];
  }

  /** A C string lies in its buffer, NUL-free, with a terminator right after it. */
  lemma CStringExtent(buf: seq<char>, i: nat)
    requires i < |buf| && buf[|buf| - 1] == '\0'
    ensures var s := CString(buf, i); i + |s| < |buf| && buf[i + |s|] == '\0' && buf[i..i + |s|] == s && NoNul(s)
  {
    assert i + StringLength(buf, i) < |buf|;
  }

  /** Writing a terminator into a C string ends it there. */
  lemma CutFront(buf: seq<char>, i: nat, k: nat)
    requires i < |buf| && buf[|buf| - 1] == '\0' && k < |CString(buf, i)|
    ensures i + k < |buf| && CString(buf[i + k := '\0'], i) == CString(buf, i)[..k]
  {
    CStringExtent(buf, i);
    var s := CString(buf, i);
    assert buf[i + k := '\0'][i..i + k] == buf[i..i + |s|][..k];
    CStringIs(buf[i + k := '\0'], i, s[..k]);
  }

  /** What follows that terminator is a C string of its own. */
  lemma CutBack(buf: seq<char>, i: nat, k: nat)
    requires i < |buf| && buf[|buf| - 1] == '\0' && k < |CString(buf, i)|
    ensures i + k + 1 < |buf| && CString(buf[i + k := '\0'], i + k + 1) == CString(buf, i)[k + 1..]
  {
    CStringExtent(buf, i);
    var s := CString(buf, i);
    assert buf[i + k := '\0'][i + k + 1..i + |s|] == buf[i..i + |s|][k + 1..];
    CStringIs(buf[i + k := '\0'], i + k + 1, s[k + 1..]);
  }

  /** Part of the way through a C string starts the rest of it. */
  lemma CStringFrom(buf: seq<char>, i: nat, n: nat)
    requires i < |buf| && buf[|buf| - 1] == '\0'
    requires n <= |CString(buf, i)|
    ensures i + n < |buf| && CString(buf, i + n) == CString(buf, i)[n..]
  {
    CStringExtent(buf, i);
    var s := CString(buf, i);
    assert buf[i + n..i + |s|] == buf[i..i + |s|][n..];
    CStringIs(buf, i + n, s[n..]);
  }

  /** `strchr` on a NUL-terminated buffer. */
  method Strchr(buf: array<char>, from: nat, c: char) returns (k: nat)
    requires c != '\0'
    requires from < buf.Length && buf[buf.Length - 1] == '\0'
    ensures from <= k < buf.Length
    ensures k - from == Find(CString(buf[..], from), c)
    ensures buf[k] == c <==> c in CString(buf[..], from)
  {
    k := from;
    ghost var s := CString(buf[..], from);
    CStringExtent(buf[..], from);
    assert forall i :: 0 <= i < |s| ==> s[i] == buf[..][from..from + |s|][i];
    while buf[k] != '\0' && buf[k] != c
      invariant from <= k <= from + |s|
      invariant forall i :: 0 <= i < k - from ==> s[i] != c
      decreases buf.Length - k
    {
      k := k + 1;
    }
    if buf[k] == c {
      assert s == s[..k - from] + [c] + s[k - from + 1..];
      FindFirst(s[..k - from], c, s[k - from + 1..]);
    }
  }

  /** A C string is empty exactly at a terminator, and otherwise starts with the character there. */
  lemma FirstChar(buf: seq<char>, i: nat)
    requires i < |buf| && buf[|buf| - 1] == '\0'
    ensures CString(buf, i) == "" <==> buf[i] == '\0'
    ensures CString(buf, i) != ""
        ==> CString(buf, i)[0] == buf[i] && i + 1 < |buf| && CString(buf, i + 1) == CString(buf, i)[1..]
  {
    CStringExtent(buf, i);
    var s := CString(buf, i);
    if s != "" {
      assert s[0] == buf[i..i + |s|][0];
      CStringFrom(buf, i, 1);
    }
  }

  /** A C string depends only on the buffer up to its terminator. */
  lemma SamePrefix(a: seq<char>, b: seq<char>, i: nat, n: nat)
    requires |a| == |b| && i < n <= |a| && a[..n] == b[..n] && a[|a| - 1] == '\0'
    requires i + |CString(a, i)| < n
    ensures CString(b, i) == CString(a, i)
  {
    CStringExtent(a, i);
    var s := CString(a, i);
    assert forall j :: 0 <= j < n ==> b[j] == a[..n][j];
    assert b[i..i + |s|] == s;
    CStringIs(b, i, s);
  }

  /** The text up to the first `c`, and the text after it if there is one. */
  function SplitAt(s: string, c: char): (r: (string, Option<string>)) {
    var k := Find(s, c);
    (s[..k], if k < |s| then Some(s[k + 1..]) else None)
  }

  lemma SplitAtIs(a: string, c: char, b: string)
    requires c !in a
    ensures SplitAt(a + [c] + b, c) == (a, Some(b)) && SplitAt(a, c) == (a, None)
  {
    FindFirst(a, c, b);
    var s := a + [c] + b;
    assert s[..|a|] == a && s[|a| + 1..] == b;
    assert a[..|a|] == a;
  }

  /** One cut of a buffer: the C string at `from` ends at its first `c`, what follows is a C string of its own,
      and nothing before `from` changes. */
  ghost predicate IsCut(before: seq<char>, after: seq<char>, from: nat, c: char, next: Option<nat>)
    requires from < |before|
  {
    var s := CString(before, from);
    && |after| == |before| && after[|after| - 1] == '\0' && after[..from] == before[..from]
    && CString(after, from) == SplitAt(s, c).0
    && (next.None? <==> SplitAt(s, c).1.None?)
    && (next.Some?
        ==> next.value == from + |SplitAt(s, c).0| + 1 < |after| && CString(after, next.value) == SplitAt(s, c).1.value)
  }

  lemma CutPieces(before: seq<char>, after: seq<char>, from: nat, c: char, s: string, k: nat)
    requires from < |before| && s == CString(before, from) && k == Find(s, c) < |s|
    requires from + k + 1 < |before| == |after| && after[|after| - 1] == '\0' && after[..from] == before[..from]
    requires CString(after, from) == s[..k] && CString(after, from + k + 1) == s[k + 1..]
    ensures IsCut(before, after, from, c, Some(from + k + 1))
  {
    assert SplitAt(s, c) == (s[..k], Some(s[k + 1..])) && |s[..k]| == k;
  }

  lemma CutFound(buf: seq<char>, after: seq<char>, from: nat, c: char, s: string, k: nat)
    requires from < |buf| && buf[|buf| - 1] == '\0' && s == CString(buf, from) && k == Find(s, c) < |s|
    requires from + k + 1 < |buf| && after == buf[from + k := '\0']
    ensures IsCut(buf, after, from, c, Some(from + k + 1))
  {
    CutFront(buf, from, k);
    CutBack(buf, from, k);
    CutPieces(buf, after, from, c, s, k);
  }

  lemma CutMissing(buf: seq<char>, from: nat, c: char)
    requires from < |buf| && buf[|buf| - 1] == '\0' && c !in CString(buf, from)
    ensures IsCut(buf, buf, from, c, None)
  {
    var s := CString(buf, from);
    assert s[..|s|] == s;
  }

  /** Overwriting the first `c` of a C string with a terminator. */
  method CutAtChar(buf: array<char>, from: nat, c: char) returns (next: Option<nat>)
    requires from < buf.Length && buf[buf.Length - 1] == '\0' && c != '\0'
    modifies buf
    ensures IsCut(old(buf[..]), buf[..], from, c, next)
  {
    ghost var before := buf[..];
    var k := Strchr(buf, from, c);
    next := if buf[k] == c then Some(k + 1) else None;
    ghost var after := if next.Some? then before[k := '\0'] else before;
    assert IsCut(before, after, from, c, next) by {
      CStringExtent(before, from);
      if next.Some? {
        CutFound(before, after, from, c, CString(before, from), k - from);
      } else {
        CutMissing(before, from, c);
      }
    }
    if next.Some? {
      buf[k] := '\0';
    }
    assert buf[..] == after;
  }
}
