/** The `-geninfo` argument of `cmp`: a comma-separated list of OID:int:N and OID:str:TEXT items, parsed in place. */
module Geninfo {
  import opened Text
  import opened CBuffer
  import opened Decimal

  datatype Value = Int(n: int) | Str(text: string)

  datatype Item = Item(oid: string, value: Value)

  const LONG_MAX := 0x7FFF_FFFF_FFFF_FFFF
  const LONG_MIN := -0x8000_0000_0000_0000

  // ----- numbers in character text

  function Codes(s: string): (r: seq<int>)
    ensures |r| == |s| && forall i :: 0 <= i < |s| ==> r[i] == s[i] as int
  {
    seq(|s|, i requires 0 <= i < |s| => s[i] as int)
  }

  /** `strtol(s, &end, 10)` with a 64-bit `long`: values out of range are cut off. */
  function Strtol(s: string): (r: (int, nat))
    ensures r.1 <= |s| && LONG_MIN <= r.0 <= LONG_MAX
  {
    var n := ScanNumber(Codes(s));
    var v: int := if n.negative then 0 - n.magnitude else n.magnitude;
    (if v > LONG_MAX then LONG_MAX else if v < LONG_MIN then LONG_MIN else v, n.end)
  }

  /** "%ld". */
  function PrintedLong(n: int): (s: string)
    ensures Codes(s) == SignedDigits(n < 0, if n < 0 then -n else n)
  {
    var d := SignedDigits(n < 0, if n < 0 then -n else n);
    assert forall i :: 0 <= i < |d| ==> 0 <= d[i] < 128;
    var s := seq(|d|, i requires 0 <= i < |d| => d[i] as char);
    assert Codes(s) == d;
    s
  }

  // ----- the simple form

  function SkipSpaces(s: string): (r: string)
    ensures |r| <= |s| && r == s[|s| - |r|..]
    ensures r != "" ==> !IsSpace(r[0])
  {
    if s != "" && IsSpace(s[0]) then SkipSpaces(s[1..]) else s
  }

  /** `s` starts with `prefix` in some letter case. */
  predicate HasCasePrefix(s: string, prefix: string) {
    |prefix| <= |s| && EqualIgnoreCase(s[..|prefix|], prefix)
  }

  /** An integer `n` that ends at `end`, and what follows it and its comma. */
  function IntUpTo(v: string, n: int, end: nat): (r: Option<(Value, string)>)
    requires end <= |v|
    ensures r.Some? ==> |r.value.1| <= |v|
  {
    if end == 0 then None
    else if end == |v| then Some((Int(n), ""))
    else if v[end] != ',' then None
    else Some((Int(n), v[end + 1..]))
  }

  function ReadInt(v: string): (r: Option<(Value, string)>)
    ensures r.Some? ==> |r.value.1| <= |v|
  {
    IntUpTo(v, Strtol(v).0, Strtol(v).1)
  }

  /** A string at the front of a text, up to its comma or the end. */
  function ReadStr(v: string): (r: (Value, string))
    ensures |r.1| <= |v|
  {
    var (text, rest) := SplitAt(v, ',');
    (Str(text), if rest.Some? then rest.value else "")
  }

  function ReadValue(s: string): (r: Option<(Value, string)>)
    ensures r.Some? ==> |r.value.1| <= |s|
  {
    match TagOf(s)
    case IntTag => ReadInt(s[4..])
    case StrTag => Some(ReadStr(s[4..]))
    case NoTag => None
  }

  datatype Tag = IntTag | StrTag | NoTag

  function TagOf(s: string): (t: Tag)
    ensures !t.NoTag? ==> |s| >= 4
  {
    if HasCasePrefix(s, "int:") then IntTag else if HasCasePrefix(s, "str:") then StrTag else NoTag
  }

  /** An item from the text before a colon and the text behind it. */
  function MakeItem(isOid: string -> bool, oid: string, tail: Option<string>): (r: Option<(Item, string)>)
    ensures r.Some? ==> tail.Some? && |r.value.1| <= |tail.value|
  {
    if tail.None? || !isOid(oid) then None
    else match ReadValue(tail.value)
         case None => None
         case Some((v, rest)) => Some((Item(oid, v), rest))
  }

  /** The item at the front of a text, and what follows it. */
  function ReadItem(isOid: string -> bool, s: string): (r: Option<(Item, string)>)
    ensures r.Some? ==> |r.value.1| < |s|
  {
    var (oid, tail) := SplitAt(SkipSpaces(s), ':');
    MakeItem(isOid, oid, tail)
  }

  /** A way of reading one item off the front of a text. */
  type Reader = string -> Option<(Item, string)>

  /** All items of a text; at least one is required. A reader that does not advance gets nowhere. */
  function ReadAll(read: Reader, s: string): (r: Option<seq<Item>>)
    decreases |s|
  {
    match read(s)
    case None => None
    case Some((item, rest)) =>
      if rest == "" then Some([item])
      else if |rest| >= |s| then None
      else Prepend([item], ReadAll(read, rest))
  }

  /** The items read before the end or the first error: what the program has put into its context by then. */
  function Pushed(read: Reader, s: string): (r: seq<Item>)
    decreases |s|
  {
    match read(s)
    case None => []
    case Some((item, rest)) => if rest == "" || |rest| >= |s| then [item] else [item] + Pushed(read, rest)
  }

  function ReadItems(isOid: string -> bool, s: string): (r: Option<seq<Item>>) {
    ReadAll(t => ReadItem(isOid, t), s)
  }

  ghost predicate ReadsItems(read: Reader, isOid: string -> bool) {
    forall s {:trigger ReadItem(isOid, s)} :: read(s) == ReadItem(isOid, s)
  }

  function PrintItem(item: Item): (s: string) {
    item.oid + ":" + PrintValue(item.value)
  }

  function PrintItems(items: seq<Item>): (s: string)
    requires items != []
  {
    if |items| == 1 then PrintItem(items[0]) else PrintItem(items[0]) + "," + PrintItems(items[1..])
  }

  // ----- the program

  /** Skipping white space at the cursor. */
  method SkipBlanks(buf: array<char>, from: nat) returns (ptr: nat)
    requires from < buf.Length && buf[buf.Length - 1] == '\0'
    ensures from <= ptr < buf.Length && CString(buf[..], ptr) == SkipSpaces(CString(buf[..], from))
  {
    ptr := from;
    ghost var all := buf[..];
    while IsSpace(buf[ptr])
      invariant from <= ptr < buf.Length && buf[..] == all
      invariant SkipSpaces(CString(all, ptr)) == SkipSpaces(CString(all, from))
      decreases buf.Length - ptr
    {
      BlankStep(all, ptr);
      ptr := ptr + 1;
    }
    BlankStop(all, ptr);
  }

  lemma BlankStep(buf: seq<char>, i: nat)
    requires i < |buf| && buf[|buf| - 1] == '\0' && IsSpace(buf[i])
    ensures i + 1 < |buf| && SkipSpaces(CString(buf, i + 1)) == SkipSpaces(CString(buf, i))
  {
    FirstChar(buf, i);
  }

  lemma BlankStop(buf: seq<char>, i: nat)
    requires i < |buf| && buf[|buf| - 1] == '\0' && !IsSpace(buf[i])
    ensures SkipSpaces(CString(buf, i)) == CString(buf, i)
  {
    FirstChar(buf, i);
  }

  lemma IntCursor(buf: seq<char>, from: nat, end: nat)
    requires from < |buf| && buf[|buf| - 1] == '\0' && end <= |CString(buf, from)|
    ensures var v := CString(buf, from);
      && from + end < |buf| && (buf[from + end] == '\0' <==> end == |v|)
      && (end == |v| ==> CString(buf, from + end) == "")
      && (end < |v|
          ==> v[end] == buf[from + end] && from + end + 1 < |buf| && CString(buf, from + end + 1) == v[end + 1..])
  {
    var v := CString(buf, from);
    CStringFrom(buf, from, end);
    FirstChar(buf, from + end);
    if end < |v| {
      assert v[end..][0] == v[end] && v[end..][1..] == v[end + 1..];
    }
  }

  /** The cursor moves behind an integer and its comma. */
  method SkipInt(buf: array<char>, from: nat, n: int, end: nat) returns (r: Option<Value>, ptr: nat)
    requires from < buf.Length && buf[buf.Length - 1] == '\0' && end <= |CString(buf[..], from)|
    ensures r.Some? <==> IntUpTo(CString(buf[..], from), n, end).Some?
    ensures r.Some?
        ==> from < ptr < buf.Length && (r.value, CString(buf[..], ptr)) == IntUpTo(CString(buf[..], from), n, end).value
  {
    IntCursor(buf[..], from, end);
    ptr := from + end;
    if end == 0 { return None, ptr; }
    if buf[ptr] != '\0' {
      if buf[ptr] != ',' { return None, ptr; }
      ptr := ptr + 1;
    }
    return Some(Int(n)), ptr;
  }

  /** Reading an integer at the cursor. */
  method TakeInt(buf: array<char>, from: nat) returns (r: Option<Value>, ptr: nat)
    requires from < buf.Length && buf[buf.Length - 1] == '\0'
    ensures r.Some? <==> ReadInt(CString(buf[..], from)).Some?
    ensures r.Some?
        ==> from < ptr < buf.Length && (r.value, CString(buf[..], ptr)) == ReadInt(CString(buf[..], from)).value
  {
    var (n, end) := Strtol(CString(buf[..], from));
    r, ptr := SkipInt(buf, from, n, end);
  }

  /** Reading a string at the cursor: its comma is overwritten. */
  method TakeStr(buf: array<char>, from: nat) returns (r: Value, ptr: nat)
    requires from < buf.Length && buf[buf.Length - 1] == '\0'
    modifies buf
    ensures buf[buf.Length - 1] == '\0'
    ensures from <= ptr < buf.Length && (r, CString(buf[..], ptr)) == ReadStr(old(CString(buf[..], from)))
  {
    var v := CString(buf[..], from);
    ghost var before := buf[..];
    CStringFrom(before, from, |v|);
    var next := CutAtChar(buf, from, ',');
    if next.None? {
      CStringFrom(buf[..], from, |CString(buf[..], from)|);
      ptr := from + |CString(buf[..], from)|;
    } else {
      ptr := next.value;
    }
    r := Str(CString(buf[..], from));
  }

  /** Reading a value at the cursor. */
  method TakeValue(buf: array<char>, from: nat) returns (r: Option<Value>, ptr: nat)
    requires from < buf.Length && buf[buf.Length - 1] == '\0'
    modifies buf
    ensures buf[buf.Length - 1] == '\0'
    ensures r.Some? <==> ReadValue(old(CString(buf[..], from))).Some?
    ensures r.Some?
        ==> from < ptr < buf.Length && (r.value, CString(buf[..], ptr)) == ReadValue(old(CString(buf[..], from))).value
  {
    var s := CString(buf[..], from);
    ptr := from;
    r := None;
    match TagOf(s) {
      case IntTag =>
        CStringFrom(buf[..], ptr, 4);
        r, ptr := TakeInt(buf, ptr + 4);
      case StrTag =>
        CStringFrom(buf[..], ptr, 4);
        var text;
        text, ptr := TakeStr(buf, ptr + 4);
        r := Some(text);
      case NoTag =>
    }
  }

  /** Reading an item at the cursor: its colon is overwritten, and the comma of a string. */
  method TakeItem(isOid: string -> bool, buf: array<char>, from: nat, ghost read: Reader)
    returns (r: Option<Item>, ptr: nat)
    requires from < buf.Length && buf[buf.Length - 1] == '\0' && ReadsItems(read, isOid)
    modifies buf
    ensures buf[buf.Length - 1] == '\0'
    ensures r.Some? <==> read(old(CString(buf[..], from))).Some?
    ensures r.Some?
        ==> from < ptr < buf.Length && (r.value, CString(buf[..], ptr)) == read(old(CString(buf[..], from))).value
    ensures r.Some? ==> |CString(buf[..], ptr)| < |old(CString(buf[..], from))|
  {
    ghost var s := CString(buf[..], from);
    assert read(s) == ReadItem(isOid, s);
    ptr := SkipBlanks(buf, from);
    var oidAt := ptr;
    var next := CutAtChar(buf, ptr, ':');
    if next.None? { return None, ptr; }
    ptr := next.value;
    var oid := CString(buf[..], oidAt);
    if !isOid(oid) { return None, ptr; }
    var value;
    value, ptr := TakeValue(buf, ptr);
    if value.None? { return None, ptr; }
    return Some(Item(oid, value.value)), ptr;
  }

  /** The loop over the items; the cursor advances with every one. */
  method TakeItems(isOid: string -> bool, buf: array<char>, ghost read: Reader) returns (ok: bool, items: seq<Item>)
    requires buf.Length > 0 && buf[buf.Length - 1] == '\0' && ReadsItems(read, isOid)
    modifies buf
    ensures ReadAll(read, old(CString(buf[..], 0))) == if ok then Some(items) else None
    ensures items == Pushed(read, old(CString(buf[..], 0)))
  {
    items := [];
    var ptr := 0;
    ghost var left := CString(buf[..], 0);
    ghost var want, push := ReadAll(read, left), Pushed(read, left);
    PrependNothing(want);
    assert [] + push == push;
    while true
      invariant 0 <= ptr < buf.Length && buf[buf.Length - 1] == '\0'
      invariant left == CString(buf[..], ptr) && want == Prepend(items, ReadAll(read, left))
          && push == items + Pushed(read, left)
      decreases buf.Length - ptr
    {
      var item;
      item, ptr := TakeItem(isOid, buf, ptr, read);
      if item.None? { return false, items; }
      ghost var rest := CString(buf[..], ptr);
      FirstChar(buf[..], ptr);
      NextItem(read, left, items, item.value, rest);
      items := items + [item.value];
      if buf[ptr] == '\0' { return true, items; }
      left := rest;
    }
  }

  /** `handle_opt_geninfo`. */
  method ParseGeninfo(isOid: string -> bool, buf: array<char>) returns (ok: bool, items: seq<Item>)
    requires buf.Length > 0 && buf[buf.Length - 1] == '\0'
    modifies buf
    ensures ReadItems(isOid, old(CString(buf[..], 0))) == if ok then Some(items) else None
    ensures items == Pushed(t => ReadItem(isOid, t), old(CString(buf[..], 0)))
  {
    ok, items := TakeItems(isOid, buf, t => ReadItem(isOid, t));
  }

  /** Having read `items`, reading one more moves on in the text. */
  lemma NextItem(read: Reader, s: string, items: seq<Item>, item: Item, rest: string)
    requires read(s) == Some((item, rest)) && |rest| < |s|
    ensures Prepend(items, ReadAll(read, s))
        == if rest == "" then Some(items + [item]) else Prepend(items + [item], ReadAll(read, rest))
    ensures items + Pushed(read, s) == items + [item] + if rest == "" then [] else Pushed(read, rest)
  {
    PrependMore(items, item, ReadAll(read, rest));
  }

  // ----- printing and parsing

  /** What follows a comma. */
  function Behind(rest: string): (r: string) {
    if rest == "" then "" else rest[1..]
  }

  /** An item that the list format can carry. */
  ghost predicate Printable(isOid: string -> bool, item: Item) {
    && isOid(item.oid) && ':' !in item.oid && (item.oid != "" ==> !IsSpace(item.oid[0]))
    && PrintableValue(item.value)
  }

  ghost predicate PrintableValue(v: Value) {
    && (v.Int? ==> LONG_MIN <= v.n <= LONG_MAX)
    && (v.Str? ==> ',' !in v.text)
  }

  lemma ReadValuePrintable(s: string)
    requires ReadValue(s).Some?
    ensures PrintableValue(ReadValue(s).value.0)
  {
  }

  /** Parsing yields only such items. */
  lemma ReadPrintable(isOid: string -> bool, s: string)
    requires ReadItem(isOid, s).Some?
    ensures Printable(isOid, ReadItem(isOid, s).value.0)
  {
    var t := SkipSpaces(s);
    var (oid, tail) := SplitAt(t, ':');
    ReadValuePrintable(tail.value);
    assert oid != "" ==> oid[0] == t[0];
  }

  lemma {:induction false} AllCarried(isOid: string -> bool, read: Reader, s: string)
    requires ReadsItems(read, isOid) && ReadAll(read, s).Some?
    ensures Carried(isOid, ReadAll(read, s).value)
    decreases |s|
  {
    assert read(s) == ReadItem(isOid, s);
    ReadPrintable(isOid, s);
    var (item, rest) := read(s).value;
    if rest == "" {
    } else {
      AllCarried(isOid, read, rest);
      CarriedCons(isOid, item, ReadAll(read, rest).value);
    }
  }

  /** The format can carry every item of the list. */
  ghost predicate Carried(isOid: string -> bool, items: seq<Item>) {
    forall i :: 0 <= i < |items| ==> Printable(isOid, items[i])
  }

  lemma CarriedCons(isOid: string -> bool, item: Item, items: seq<Item>)
    requires Printable(isOid, item) && Carried(isOid, items)
    ensures Carried(isOid, [item] + items)
  {
  }

  lemma CodesConcat(a: string, b: string)
    ensures Codes(a + b) == Codes(a) + Codes(b)
  {
  }

  lemma StrtolOf(s: string, n: int, end: nat)
    requires LONG_MIN <= n <= LONG_MAX
    requires ScanNumber(Codes(s)) == Scanned(n < 0, if n < 0 then -n else n, end)
    ensures Strtol(s) == (n, end)
  {
  }

  lemma StrtolPrinted(n: int, rest: string)
    requires LONG_MIN <= n <= LONG_MAX && (rest == "" || rest[0] == ',')
    ensures Strtol(PrintedLong(n) + rest) == (n, |PrintedLong(n)|) && PrintedLong(n) != ""
  {
    var m := if n < 0 then -n else n;
    var d := PrintedLong(n);
    assert |d| == |Codes(d)| == |SignedDigits(n < 0, m)| > 0;
    ScanDigits(n < 0, m, Codes(rest));
    CodesConcat(d, rest);
    StrtolOf(d + rest, n, |d|);
  }

  /** A printed value is read back, whether a comma or the end follows. */
  lemma ReadPrintedInt(n: int, rest: string)
    requires LONG_MIN <= n <= LONG_MAX && (rest == "" || rest[0] == ',')
    ensures ReadInt(PrintedLong(n) + rest) == Some((Int(n), Behind(rest)))
  {
    StrtolPrinted(n, rest);
    IntThenRest(PrintedLong(n), n, rest);
  }

  lemma IntThenRest(d: string, n: int, rest: string)
    requires d != "" && (rest == "" || rest[0] == ',')
    ensures IntUpTo(d + rest, n, |d|) == Some((Int(n), Behind(rest)))
  {
    if rest != "" { assert (d + rest)[|d|] == ',' && (d + rest)[|d| + 1..] == rest[1..]; }
  }

  lemma ReadPrintedStr(text: string, rest: string)
    requires ',' !in text && (rest == "" || rest[0] == ',')
    ensures ReadStr(text + rest) == (Str(text), Behind(rest))
  {
    if rest == "" {
      SplitAtIs(text, ',', "");
      assert text + rest == text;
    } else {
      SplitAtIs(text, ',', rest[1..]);
      assert text + rest == text + [','] + rest[1..];
    }
  }

  function PrintValue(v: Value): (s: string) {
    match v case Int(n) => "int:" + PrintedLong(n) case Str(text) => "str:" + text
  }

  lemma PrefixThen(prefix: string, tail: string)
    ensures HasCasePrefix(prefix + tail, prefix) && (prefix + tail)[|prefix|..] == tail
  {
    assert (prefix + tail)[..|prefix|] == prefix;
  }

  lemma ReadIntText(tail: string)
    ensures ReadValue("int:" + tail) == ReadInt(tail)
  {
    PrefixThen("int:", tail);
  }

  lemma ReadStrText(tail: string)
    ensures ReadValue("str:" + tail) == Some(ReadStr(tail))
  {
    PrefixThen("str:", tail);
    var s := "str:" + tail;
    assert s[..4][0] == 's' && Lower('s') != Lower("int:"[0]);
  }

  lemma ReadPrintedValue(v: Value, rest: string)
    requires PrintableValue(v) && (rest == "" || rest[0] == ',')
    ensures ReadValue(PrintValue(v) + rest) == Some((v, Behind(rest)))
  {
    match v {
      case Int(n) =>
        ReadIntText(PrintedLong(n) + rest);
        Concat3("int:", PrintedLong(n), rest);
        ReadPrintedInt(n, rest);
      case Str(text) =>
        ReadStrText(text + rest);
        Concat3("str:", text, rest);
        ReadPrintedStr(text, rest);
    }
  }

  lemma Concat3(a: string, b: string, c: string)
    ensures a + b + c == a + (b + c)
  {
  }

  lemma ReadPrintedItem(isOid: string -> bool, item: Item, rest: string)
    requires Printable(isOid, item) && (rest == "" || rest[0] == ',')
    ensures ReadItem(isOid, PrintItem(item) + rest) == Some((item, Behind(rest)))
  {
    var tail := PrintValue(item.value) + rest;
    var s := item.oid + [':'] + tail;
    assert PrintItem(item) + rest == s;
    assert !IsSpace(s[0]) by { assert s[0] == if item.oid == "" then ':' else item.oid[0]; }
    SplitAtIs(item.oid, ':', tail);
    ReadPrintedValue(item.value, rest);
    MadeItem(isOid, item, tail, rest);
  }

  lemma MadeItem(isOid: string -> bool, item: Item, tail: string, rest: string)
    requires isOid(item.oid) && ReadValue(tail) == Some((item.value, Behind(rest)))
    ensures MakeItem(isOid, item.oid, Some(tail)) == Some((item, Behind(rest)))
  {
  }

  /** The reader gives back every printed item of the list, whether a comma or the end follows. */
  ghost predicate Inverts(read: Reader, items: seq<Item>) {
    forall i, rest :: 0 <= i < |items| && (rest == "" || rest[0] == ',') ==>
      read(PrintItem(items[i]) + rest) == Some((items[i], Behind(rest)))
  }

  lemma InvertsTail(read: Reader, items: seq<Item>)
    requires items != [] && Inverts(read, items)
    ensures Inverts(read, items[1..])
  {
    forall i, rest | 0 <= i < |items[1..]| && (rest == "" || rest[0] == ',')
      ensures read(PrintItem(items[1..][i]) + rest) == Some((items[1..][i], Behind(rest)))
    {
      assert items[1..][i] == items[i + 1];
    }
  }

  lemma InvertsFirst(read: Reader, items: seq<Item>, rest: string)
    requires items != [] && Inverts(read, items) && (rest == "" || rest[0] == ',')
    ensures read(PrintItem(items[0]) + rest) == Some((items[0], Behind(rest)))
  {
  }

  lemma PrintCons(items: seq<Item>)
    requires items != []
    ensures PrintItems(items) != ""
    ensures PrintItems(items) == PrintItem(items[0]) + if |items| == 1 then "" else "," + PrintItems(items[1..])
  {
  }

  /** One item read, and the rest. */
  lemma ReadCons(read: Reader, s: string, item: Item, rest: string, items: seq<Item>)
    requires read(s) == Some((item, rest)) && rest != "" && |rest| < |s| && ReadAll(read, rest) == Some(items)
    ensures ReadAll(read, s) == Some([item] + items)
  {
  }

  lemma {:induction false} RoundTrip(read: Reader, items: seq<Item>)
    requires items != [] && Inverts(read, items)
    ensures ReadAll(read, PrintItems(items)) == Some(items)
  {
    PrintCons(items);
    if |items| == 1 {
      InvertsFirst(read, items, "");
      assert items == [items[0]] && PrintItem(items[0]) + "" == PrintItem(items[0]);
    } else {
      var tail := PrintItems(items[1..]);
      InvertsTail(read, items);
      RoundTrip(read, items[1..]);
      PrintCons(items[1..]);
      InvertsFirst(read, items, "," + tail);
      assert Behind("," + tail) == tail;
      ReadCons(read, PrintItems(items), items[0], tail, items[1..]);
      assert items == [items[0]] + items[1..];
    }
  }

  /** A list that was printed parses back to itself exactly when the format can carry every item of it. */
  lemma GeninfoRoundTrip(isOid: string -> bool, items: seq<Item>)
    requires items != []
    ensures ReadItems(isOid, PrintItems(items)) == Some(items) <==> Carried(isOid, items)
  {
    var read: Reader := t => ReadItem(isOid, t);
    if ReadItems(isOid, PrintItems(items)) == Some(items) {
      AllCarried(isOid, read, PrintItems(items));
    }
    if Carried(isOid, items) {
      forall i, rest | 0 <= i < |items| && (rest == "" || rest[0] == ',')
        ensures read(PrintItem(items[i]) + rest) == Some((items[i], Behind(rest)))
      {
        ReadPrintedItem(isOid, items[i], rest);
      }
      RoundTrip(read, items);
    }
  }

  // ----- every text that can be read

  /** The tags count in any letter case, and there are no others. */
  lemma TagsAre(s: string)
    ensures ReadValue(s) ==
      if |s| >= 4 && EqualIgnoreCase(s[..4], "int:") then ReadInt(s[4..])
      else if |s| >= 4 && EqualIgnoreCase(s[..4], "str:") then Some(ReadStr(s[4..]))
      else None
  {
  }

  /** A 64-bit integer for any number. */
  function Cut64(n: int): (r: int) {
    if n > 0x7FFF_FFFF_FFFF_FFFF then 0x7FFF_FFFF_FFFF_FFFF
    else if n < -0x8000_0000_0000_0000 then -0x8000_0000_0000_0000 else n
  }

  lemma StrtolIs(v: string, negative: bool, m: nat, end: nat)
    requires ScanNumber(Codes(v)) == Scanned(negative, m, end)
    ensures Strtol(v) == (Cut64(if negative then 0 - m else m), end)
  {
  }

  /** White space, a sign and digits are an integer, cut to 64 bits, if a comma or the end follows them. */
  lemma IntExactly(v: string, spaces: seq<int>, sign: seq<int>, d: seq<int>, rest: string)
    requires (forall i :: 0 <= i < |spaces| ==> IsSpaceCode(spaces[i])) && IsSign(sign) && d != [] && AllDigits(d)
    requires Codes(v) == spaces + (sign + (d + Codes(rest))) && (rest == "" || !IsDigitCode(rest[0] as int))
    ensures var n := Cut64(if sign == [0x2D] then 0 - Decimal.Value(d) else Decimal.Value(d));
      ReadInt(v) ==
        if rest == "" then Some((Int(n), "")) else if rest[0] == ',' then Some((Int(n), rest[1..])) else None
  {
    var end := IntLocated(v, spaces, sign, d, rest);
    IntRead(v, sign == [0x2D], Decimal.Value(d), end, rest);
  }

  lemma IntLocated(v: string, spaces: seq<int>, sign: seq<int>, d: seq<int>, rest: string) returns (end: nat)
    requires (forall i :: 0 <= i < |spaces| ==> IsSpaceCode(spaces[i])) && IsSign(sign) && d != [] && AllDigits(d)
    requires Codes(v) == spaces + (sign + (d + Codes(rest))) && (rest == "" || !IsDigitCode(rest[0] as int))
    ensures 0 < end <= |v| && v[end..] == rest
    ensures ScanNumber(Codes(v)) == Scanned(sign == [0x2D], Decimal.Value(d), end)
  {
    end := |spaces| + |sign| + |d|;
    ScanIs(spaces, sign, d, Codes(rest));
    FrontLength(Codes(v), spaces, sign, d, Codes(rest));
    RestFrom(v, rest, end);
  }

  lemma IntRead(v: string, negative: bool, m: nat, end: nat, rest: string)
    requires ScanNumber(Codes(v)) == Scanned(negative, m, end) && 0 < end <= |v| && v[end..] == rest
    ensures var n := Cut64(if negative then 0 - m else m);
      ReadInt(v) ==
        if rest == "" then Some((Int(n), "")) else if rest[0] == ',' then Some((Int(n), rest[1..])) else None
  {
    StrtolIs(v, negative, m, end);
    IntBefore(v, Strtol(v).0, end, rest);
  }

  lemma FrontLength(s: seq<int>, a: seq<int>, b: seq<int>, c: seq<int>, rest: seq<int>)
    requires s == a + (b + (c + rest))
    ensures |a| + |b| + |c| + |rest| == |s| && s[|a| + |b| + |c|..] == rest
  {
  }

  lemma IntBefore(v: string, n: int, end: nat, rest: string)
    requires 0 < end <= |v| && v[end..] == rest
    ensures IntUpTo(v, n, end)
         == if rest == "" then Some((Int(n), "")) else if rest[0] == ',' then Some((Int(n), rest[1..])) else None
  {
    if rest != "" { assert v[end] == rest[0] && v[end + 1..] == rest[1..]; }
  }

  lemma RestFrom(v: string, rest: string, end: nat)
    requires end + |rest| == |v| && Codes(v)[end..] == Codes(rest)
    ensures v[end..] == rest
  {
    forall i | 0 <= i < |rest| ensures v[end + i] == rest[i] {
      assert Codes(v)[end..][i] == Codes(rest)[i];
    }
  }

  /** Without digits there is no integer. */
  lemma NoInt(v: string, spaces: seq<int>, sign: seq<int>, rest: seq<int>)
    requires (forall i :: 0 <= i < |spaces| ==> IsSpaceCode(spaces[i])) && IsSign(sign)
    requires Codes(v) == spaces + (sign + rest) && (rest == [] || !IsDigitCode(rest[0]))
    requires sign == [] && rest != [] ==> !IsSpaceCode(rest[0]) && rest[0] != 0x2B && rest[0] != 0x2D
    ensures ReadInt(v).None?
  {
    ScanNothing(spaces, sign, rest);
  }

  lemma {:induction false} SkipsBlanks(blanks: string, rest: string)
    requires (forall c :: c in blanks ==> IsSpace(c)) && (rest == "" || !IsSpace(rest[0]))
    ensures SkipSpaces(blanks + rest) == rest
  {
    if blanks == "" {
      assert blanks + rest == rest;
    } else {
      assert (blanks + rest)[1..] == blanks[1..] + rest;
      SkipsBlanks(blanks[1..], rest);
    }
  }

  /** An item is an identifier up to the first colon, with white space before it skipped, and a value behind it. */
  lemma ItemExactly(isOid: string -> bool, blanks: string, oid: string, tail: string)
    requires (forall c :: c in blanks ==> IsSpace(c)) && ':' !in oid && (oid == "" || !IsSpace(oid[0]))
    ensures ReadItem(isOid, blanks + oid).None?
    ensures ReadItem(isOid, blanks + (oid + [':'] + tail)) ==
      if !isOid(oid) || ReadValue(tail).None? then None
      else Some((Item(oid, ReadValue(tail).value.0), ReadValue(tail).value.1))
  {
    SkipsBlanks(blanks, oid);
    var rest := oid + [':'] + tail;
    assert rest[0] == if oid == "" then ':' else oid[0];
    SkipsBlanks(blanks, rest);
    SplitAtIs(oid, ':', tail);
  }

  /** A list that can be read has been pushed as a whole. */
  lemma {:induction false} PushedAll(read: Reader, s: string)
    requires ReadAll(read, s).Some?
    ensures Pushed(read, s) == ReadAll(read, s).value
    decreases |s|
  {
    var (item, rest) := read(s).value;
    if rest != "" { PushedAll(read, rest); }
  }

  /** One that cannot has been pushed up to the text that is no item. */
  lemma {:induction false} PushedBefore(read: Reader, items: seq<Item>, bad: string)
    requires Inverts(read, items) && items != [] && bad != "" && read(bad).None?
    ensures ReadAll(read, PrintItems(items) + ("," + bad)).None?
    ensures Pushed(read, PrintItems(items) + ("," + bad)) == items
  {
    PrintCons(items);
    if |items| == 1 {
      PushedStep(read, items, bad);
      assert items == [items[0]];
    } else {
      var rest := PrintItems(items[1..]) + ("," + bad);
      InvertsTail(read, items);
      PushedBefore(read, items[1..], bad);
      PushedStep(read, items, rest);
      Concat3(PrintItem(items[0]), "," + PrintItems(items[1..]), "," + bad);
      Concat3(",", PrintItems(items[1..]), "," + bad);
      assert items == [items[0]] + items[1..];
    }
  }

  lemma PushedStep(read: Reader, items: seq<Item>, rest: string)
    requires items != [] && Inverts(read, items) && rest != ""
    ensures var s := PrintItem(items[0]) + ("," + rest);
      && Pushed(read, s) == [items[0]] + Pushed(read, rest)
      && (ReadAll(read, rest).None? ==> ReadAll(read, s).None?)
  {
    InvertsFirst(read, items, "," + rest);
    assert Behind("," + rest) == rest;
  }
}
