/** C text: NUL-free character sequences, and the character classes and searches of the C
    library that the modelled programs rely on. */
module Text {

  datatype Option<+T> = None | Some(value: T)

  /** `isspace` in the C locale. */
  predicate IsSpace(c: char) {
    c == ' ' || '\t' <= c <= '\r'
  }

  /** Blank, tab, line feed, vertical tab, form feed and carriage return. */
  lemma SpaceIs(c: char)
    ensures IsSpace(c) <==> c as int in {0x20, 0x09, 0x0A, 0x0B, 0x0C, 0x0D}
  {
  }

  function Lower(c: char): (r: char) {
    if 'A' <= c <= 'Z' then (c as int + 32) as char else c
  }

  /** The 26 capital letters become the small letters, and nothing else changes. */
  lemma LowerIs(c: char)
    ensures Lower(c) as int == if 0x41 <= c as int < 0x41 + 26 then c as int - 0x41 + 0x61 else c as int
  {
  }

  /** `OPENSSL_strcasecmp(a, b) == 0`. */
  predicate EqualIgnoreCase(a: string, b: string) {
    |a| == |b| && forall i :: 0 <= i < |a| ==> Lower(a[i]) == Lower(b[i])
  }

  /** `strchr`: the position of the first `c` in `s`, or `|s|` if there is none. */
  function Find(s: string, c: char): (k: nat)
    ensures k <= |s|
    ensures c !in s[..k]
    ensures k < |s| ==> s[k] == c
    ensures c in s <==> k < |s|
  {
    if s == "" || s[0] == c then 0
    else
      assert s == [s[0]] + s[1..];
      var k := 1 + Find(s[1..], c);
      assert s[..k] == [s[0]] + s[1..][..k - 1];
      k
  }

  /** A prefix free of `c`, followed by `c`, is what `Find` cuts off. */
  lemma {:induction false} FindFirst(a: string, c: char, b: string)
    requires c !in a
    ensures Find(a + [c] + b, c) == |a|
  {
    var s := a + [c] + b;
    if a == "" {
      assert s[0] == c;
    } else {
      assert s[0] == a[0];
      assert s[1..] == a[1..] + [c] + b;
      FindFirst(a[1..], c, b);
    }
  }

  /** `items` in front of a result. */
  function Prepend<T>(items: seq<T>, rest: Option<seq<T>>): (r: Option<seq<T>>) {
    if rest.None? then None else Some(items + rest.value)
  }

  lemma PrependMore<T>(items: seq<T>, item: T, rest: Option<seq<T>>)
    ensures Prepend(items, Prepend([item], rest)) == Prepend(items + [item], rest)
  {
    if rest.Some? { assert items + ([item] + rest.value) == items + [item] + rest.value; }
  }

  lemma PrependNothing<T>(rest: Option<seq<T>>)
    ensures Prepend([], rest) == rest
  {
    if rest.Some? { assert [] + rest.value == rest.value; }
  }

  predicate NoNul(s: string) {
    '\0' !in s
  }

  /** `OPENSSL_strlcat` (and, from an empty `dst`, `OPENSSL_strlcpy`) into a buffer of `size` bytes. */
  method Strlcat(dst: string, src: string, size: nat) returns (r: string)
    ensures |dst| + |src| < size ==> r == dst + src
    ensures |dst| + |src| >= size > |dst| ==> r == (dst + src)[..size - 1]
    ensures |dst| >= size ==> r == dst
  {
    if |dst| + |src| < size {
      r := dst + src;
    } else if |dst| < size {
      r := (dst + src)[..size - 1];
    } else {
      r := dst;
    }
  }
}
