/** The text form of a table: one line per row, fields separated by tabs, tabs inside a field
    preceded by a backslash (`TXT_DB_write`, `TXT_DB_read`). */
module TextDb {
  import opened Text

  type Fields = seq<string>

  // ----- writing

  function Escape(s: string): (r: string) {
    if s == "" then ""
    else (if s[0] == '\t' then "\\\t" else [s[0]]) + Escape(s[1..])
  }

  /** The fields, each followed by a tab except that the line's end follows the last. */
  function LineOf(row: Fields): (r: string) {
    if row == [] then ""
    else if |row| == 1 then Escape(row[0])
    else Escape(row[0]) + "\t" + LineOf(row[1..])
  }

  function TableText(rows: seq<Fields>): (r: string) {
    if rows == [] then "" else LineOf(rows[0]) + "\n" + TableText(rows[1..])
  }

  // ----- reading

  /** The reader's position within a line: the finished fields, the field being copied, and whether
      the character before the cursor was a backslash. */
  datatype Scan = Scan(done: Fields, cur: string, esc: bool)

  /** Scanning from state `st` to the end of the line, for `num` fields. A tab after the last
      expected field must end the line. */
  function ScanLine(st: Scan, line: string, num: nat): (r: Option<Fields>)
    requires |st.done| < num
    requires st.esc ==> st.cur != ""
    decreases line
  {
    if line == "" then
      if |st.done| + 1 == num then Some(st.done + [st.cur]) else None
    else if line[0] == '\t' && !st.esc then
      if |st.done| + 1 >= num then if |line| == 1 then Some(st.done + [st.cur]) else None
      else ScanLine(Scan(st.done + [st.cur], "", false), line[1..], num)
    else if line[0] == '\t' then
      ScanLine(Scan(st.done, st.cur[..|st.cur| - 1] + "\t", false), line[1..], num)
    else
      ScanLine(Scan(st.done, st.cur + [line[0]], line[0] == '\\'), line[1..], num)
  }

  function ParseLine(line: string, num: nat): (r: Option<Fields>)
    requires num > 0
  {
    ScanLine(Scan([], "", false), line, num)
  }

  const BUFSIZE := 512

  /** The size of the read buffer after it has taken in a line of `need` bytes. */
  function Grown(size: nat, need: nat): (r: nat)
    ensures r >= size
    decreases need - size
  {
    if need < size then size else Grown(size + BUFSIZE, need)
  }

  /** The lines of a text, each ended by a line break; an unfinished last line is dropped. */
  function Lines(text: string): (r: seq<string>)
    decreases |text|
  {
    var k := Find(text, '\n');
    if k == |text| then [] else [text[..k]] + Lines(text[k + 1..])
  }

  predicate IsComment(line: string) {
    line != "" && line[0] == '#'
  }

  /** Reading lines with a buffer of `size` bytes. A comment is skipped as far as one `BIO_gets` returns it: the
      rest of one that does not fit in the buffer is read as a line of its own. */
  function ParseLines(lines: seq<string>, num: nat, size: nat): (r: Option<seq<Fields>>)
    requires num > 0 && size >= 2
    decreases |lines|, if lines == [] then 0 else |lines[0]|
  {
    if lines == [] then Some([])
    else if !IsComment(lines[0]) then
      match ParseLine(lines[0], num)
      case None => None
      case Some(row) => Prepend([row], ParseLines(lines[1..], num, Grown(size, |lines[0]| + 1)))
    else if |lines[0]| + 1 < size then ParseLines(lines[1..], num, size)
    else ParseLines([lines[0][size - 1..]] + lines[1..], num, size)
  }

  function ParseTable(text: string, num: nat): (r: Option<seq<Fields>>)
    requires num > 0
  {
    ParseLines(Lines(text), num, BUFSIZE)
  }

  // ----- the programs

  /** `TXT_DB_write`: character by character into one buffer per row. */
  method WriteTable(rows: seq<Fields>) returns (out: string)
    requires forall i :: 0 <= i < |rows| ==> rows[i] != []
    ensures out == TableText(rows)
  {
    out := "";
    var i := 0;
    while i < |rows|
      invariant 0 <= i <= |rows|
      invariant out + TableText(rows[i..]) == TableText(rows)
    {
      var buf := WriteRow(rows[i]);
      assert rows[i..][0] == rows[i] && rows[i..][1..] == rows[i + 1..];
      assert out + (LineOf(rows[i]) + "\n" + TableText(rows[i + 1..])) == out + buf + TableText(rows[i + 1..]);
      out := out + buf;
      i := i + 1;
    }
    assert rows[i..] == [];
    assert out + "" == out;
  }

  /** One field behind what is already in the buffer. */
  method WriteField(start: string, f: string) returns (buf: string)
    ensures buf == start + Escape(f)
  {
    buf := start;
    var k := 0;
    assert f[0..] == f;
    while k < |f|
      invariant 0 <= k <= |f|
      invariant buf + Escape(f[k..]) == start + Escape(f)
    {
      assert f[k..][0] == f[k] && f[k..][1..] == f[k + 1..];
      ghost var before := buf;
      if f[k] == '\t' {
        buf := buf + "\\";
      }
      buf := buf + [f[k]];
      assert before + Escape(f[k..]) == buf + Escape(f[k + 1..]);
      k := k + 1;
    }
    assert f[k..] == "" && buf + "" == buf;
  }

  lemma LineStep(row: Fields, j: nat, start: string)
    requires j < |row|
    ensures start + LineOf(row[j..]) + (if j + 1 == |row| then "\t" else "")
         == start + Escape(row[j]) + "\t" + if j + 1 < |row| then LineOf(row[j + 1..]) else ""
  {
    assert row[j..][0] == row[j] && row[j..][1..] == row[j + 1..];
  }

  /** One row: every field ends in a tab, and the last tab is then overwritten. */
  method WriteRow(row: Fields) returns (buf: string)
    requires row != []
    ensures buf == LineOf(row) + "\n"
  {
    buf := "";
    var j := 0;
    while j < |row|
      invariant 0 <= j <= |row|
      invariant j < |row| ==> buf + LineOf(row[j..]) == LineOf(row)
      invariant j == |row| ==> buf == LineOf(row) + "\t"
    {
      ghost var start := buf;
      buf := WriteField(buf, row[j]);
      buf := buf + "\t";
      LineStep(row, j, start);
      j := j + 1;
    }
    buf := buf[..|buf| - 1] + "\n";
    assert buf[..|buf| - 1] == LineOf(row);
  }

  /** `TXT_DB_read`, one line: fields are copied out, and a tab behind a backslash overwrites it. */
  method ReadLine(line: string, num: nat) returns (row: Option<Fields>)
    requires num > 0
    ensures row == ParseLine(line, num)
  {
    var done: Fields, cur, esc := [], "", false;
    var f := 0;
    assert line[0..] == line;
    while f < |line|
      invariant 0 <= f <= |line|
      invariant |done| < num
      invariant esc ==> cur != ""
      invariant ScanLine(Scan(done, cur, esc), line[f..], num) == ParseLine(line, num)
    {
      assert line[f..][1..] == line[f + 1..];
      if line[f] == '\t' {
        if esc {
          cur := cur[..|cur| - 1];
        } else {
          f := f + 1;
          done := done + [cur];
          if |done| >= num {
            return if |done| == num && f == |line| then Some(done) else None;
          }
          cur := "";
          continue;
        }
      }
      esc := line[f] == '\\';
      cur := cur + [line[f]];
      f := f + 1;
    }
    assert line[f..] == "";
    return if |done| + 1 == num then Some(done + [cur]) else None;
  }

  /** `BIO_gets` into `limit` bytes: the text up to its first line break, or as much as fits. */
  function Gets(s: string, limit: nat): (r: string)
    requires limit >= 2
    ensures r <= s && |r| < limit && (r == "" <==> s == "")
  {
    var k := Find(s, '\n');
    var n := if k < |s| then k + 1 else k;
    s[..if n < limit then n else limit - 1]
  }

  lemma GetsShape(s: string, limit: nat)
    requires limit >= 2 && s != ""
    ensures var r := Gets(s, limit);
      && '\n' !in r[..|r| - 1]
      && (r[|r| - 1] != '\n' ==> '\n' !in r && (r == s || |r| == limit - 1))
  {
    var k := Find(s, '\n');
    var r := Gets(s, limit);
    if |r| <= k {
      assert r <= s[..k];
    } else {
      assert r[..|r| - 1] == s[..k];
    }
  }

  lemma LinesFirst(line: string, rest: string)
    requires '\n' !in line
    ensures Lines(line + "\n" + rest) == [line] + Lines(rest)
  {
    var text := line + ['\n'] + rest;
    FindFirst(line, '\n', rest);
    assert text[..|line|] == line && text[|line| + 1..] == rest;
  }

  lemma NoLines(text: string)
    requires '\n' !in text
    ensures Lines(text) == []
  {
  }

  /** The buffer with which the chunk behind `line` is read. */
  function NextSize(line: string, size: nat): (r: nat) {
    if line == "" then size else size + BUFSIZE
  }

  /** What is known while a line is being gathered with a buffer that had `size0` bytes at its start: the line has
      no break yet, is no comment, and fills the buffer unless the text ends with it. */
  ghost predicate Gathering(line: string, rest: string, size0: nat, size: nat) {
    && 2 <= size0 <= size && |line| < size && '\n' !in line && !IsComment(line)
    && (line == "" ==> size == size0)
    && (line != "" ==> rest == "" || |line| == size - 1)
    && SameGrowth(size0, size, |line|)
  }

  /** Lines of more than `n` bytes make both buffers grow to the same size. */
  ghost predicate SameGrowth(a: nat, b: nat, n: nat) {
    forall need: nat :: need > n ==> Grown(a, need) == Grown(b, need)
  }

  lemma NextGrowth(line: string, rest: string, size0: nat, size: nat, n: nat)
    requires Gathering(line, rest, size0, size) && rest != "" && n >= |line|
    ensures SameGrowth(size0, NextSize(line, size), n)
  {
    forall need: nat | need > n ensures Grown(size0, need) == Grown(NextSize(line, size), need) {
      assert Grown(size0, need) == Grown(size, need);
    }
  }

  /** A chunk without a line break leaves the line unfinished; the buffer has grown if the line needs it. */
  lemma MoreToCome(line: string, rest: string, size0: nat, size: nat, chunk: string, after: string)
    requires Gathering(line, rest, size0, size) && rest == chunk + after && chunk != ""
    requires chunk == Gets(rest, NextSize(line, size) - |line|) && chunk[|chunk| - 1] != '\n'
        && !IsComment(line + chunk)
    ensures Gathering(line + chunk, after, size0, NextSize(line, size))
  {
    NextGrowth(line, rest, size0, size, |line + chunk|);
    GetsShape(rest, NextSize(line, size) - |line|);
    assert after == "" || |chunk| == NextSize(line, size) - |line| - 1;
  }

  /** A chunk with a line break finishes the line. */
  lemma LineDone(line: string, rest: string, size0: nat, size: nat, chunk: string, after: string)
    requires Gathering(line, rest, size0, size) && rest == chunk + after && chunk != ""
    requires chunk == Gets(rest, NextSize(line, size) - |line|) && chunk[|chunk| - 1] == '\n'
    ensures var whole := line + chunk[..|chunk| - 1];
      Lines(line + rest) == [whole] + Lines(after) && Grown(size0, |whole| + 1) == NextSize(line, size)
  {
    var whole := line + chunk[..|chunk| - 1];
    NextGrowth(line, rest, size0, size, |line|);
    GetsShape(rest, NextSize(line, size) - |line|);
    assert line + rest == whole + "\n" + after;
    LinesFirst(whole, after);
    assert Grown(size0, |whole| + 1) == Grown(NextSize(line, size), |whole| + 1);
  }

  /** One chunk of a comment. */
  lemma CommentChunk(rest: string, size: nat, chunk: string, after: string, num: nat)
    requires size >= 2 && num > 0 && IsComment(rest) && chunk == Gets(rest, size) && rest == chunk + after
    ensures ParseLines(Lines(rest), num, size) == ParseLines(Lines(after), num, size)
  {
    GetsShape(rest, size);
    if chunk[|chunk| - 1] == '\n' {
      var line := chunk[..|chunk| - 1];
      assert rest == line + "\n" + after;
      LinesFirst(line, after);
      assert ([line] + Lines(after))[1..] == Lines(after);
    } else if '\n' !in rest {
      NoLines(rest);
      NoLines(after);
    } else {
      LongComment(rest, size, chunk, after, num);
    }
  }

  /** A chunk of a comment that does not fit in the buffer. */
  lemma LongComment(rest: string, size: nat, chunk: string, after: string, num: nat)
    requires size >= 2 && num > 0 && IsComment(rest) && rest == chunk + after && |chunk| == size - 1
    requires '\n' !in chunk && '\n' in rest
    ensures ParseLines(Lines(rest), num, size) == ParseLines(Lines(after), num, size)
  {
    var k := Find(after, '\n');
    var tail, others := after[..k], after[k + 1..];
    assert after == tail + "\n" + others && rest == chunk + tail + "\n" + others;
    LinesFirst(tail, others);
    LinesFirst(chunk + tail, others);
    var lines := [chunk + tail] + Lines(others);
    assert lines[0][size - 1..] == tail && lines[1..] == Lines(others);
    assert IsComment(lines[0]);
  }

  /** One finished line. */
  lemma ParseStep(line: string, lines: seq<string>, num: nat, size: nat, size': nat)
    requires num > 0 && size >= 2 && !IsComment(line) && Grown(size, |line| + 1) == size'
    ensures ParseLines([line] + lines, num, size) ==
      match ParseLine(line, num) case None => None case Some(row) => Prepend([row], ParseLines(lines, num, size'))
  {
    assert ([line] + lines)[1..] == lines;
  }

  /** The reading loop: with `rows` done and `line` gathered, `rest` will lead to the wanted result. */
  ghost predicate Reading(want: Option<seq<Fields>>, rows: seq<Fields>, line: string, rest: string, num: nat,
                          size0: nat, size: nat) {
    && num > 0 && Gathering(line, rest, size0, size)
    && want == Prepend(rows, ParseLines(Lines(line + rest), num, size0))
  }

  lemma StartReading(text: string, num: nat)
    requires num > 0
    ensures Reading(ParseTable(text, num), [], "", text, num, BUFSIZE, BUFSIZE)
  {
    assert "" + text == text;
    PrependNothing(ParseTable(text, num));
  }

  lemma NothingLeft(want: Option<seq<Fields>>, rows: seq<Fields>, line: string, num: nat, size0: nat, size: nat)
    requires Reading(want, rows, line, "", num, size0, size)
    ensures want == Some(rows)
  {
    assert line + "" == line;
    NoLines(line);
    assert rows + [] == rows;
  }

  lemma SkipChunk(want: Option<seq<Fields>>, rows: seq<Fields>, rest: string, num: nat, size: nat, chunk: string,
                  after: string)
    requires Reading(want, rows, "", rest, num, size, size) && IsComment(rest)
    requires rest == chunk + after && chunk == Gets(rest, size)
    ensures Reading(want, rows, "", after, num, size, size)
  {
    assert "" + rest == rest && "" + after == after;
    CommentChunk(rest, size, chunk, after, num);
  }

  lemma KeepChunk(want: Option<seq<Fields>>, rows: seq<Fields>, line: string, rest: string, num: nat,
                  size0: nat, size: nat, chunk: string, after: string)
    requires Reading(want, rows, line, rest, num, size0, size) && rest == chunk + after && chunk != ""
    requires chunk == Gets(rest, NextSize(line, size) - |line|) && chunk[|chunk| - 1] != '\n'
        && !IsComment(line + chunk)
    ensures Reading(want, rows, line + chunk, after, num, size0, NextSize(line, size))
  {
    MoreToCome(line, rest, size0, size, chunk, after);
    assert line + rest == line + chunk + after;
  }

  lemma TakeLine(want: Option<seq<Fields>>, rows: seq<Fields>, line: string, rest: string, num: nat,
                 size0: nat, size: nat, chunk: string, after: string)
    requires Reading(want, rows, line, rest, num, size0, size) && rest == chunk + after && chunk != ""
    requires chunk == Gets(rest, NextSize(line, size) - |line|) && chunk[|chunk| - 1] == '\n'
        && !IsComment(line + chunk)
    ensures var row := ParseLine(line + chunk[..|chunk| - 1], num);
      && (row.None? ==> want == None)
      && (row.Some? ==> Reading(want, rows + [row.value], "", after, num, NextSize(line, size), NextSize(line, size)))
  {
    LineDone(line, rest, size0, size, chunk, after);
    TakeWhole(want, rows, line + chunk[..|chunk| - 1], Lines(after), num, size0, NextSize(line, size));
    assert "" + after == after;
  }

  lemma TakeWhole(want: Option<seq<Fields>>, rows: seq<Fields>, line: string, lines: seq<string>, num: nat, size0: nat,
                  size: nat)
    requires num > 0 && size0 >= 2 && !IsComment(line) && Grown(size0, |line| + 1) == size
    requires want == Prepend(rows, ParseLines([line] + lines, num, size0))
    ensures var row := ParseLine(line, num);
      want == if row.None? then None else Prepend(rows + [row.value], ParseLines(lines, num, size))
  {
    ParseStep(line, lines, num, size0, size);
    if ParseLine(line, num).Some? { PrependMore(rows, ParseLine(line, num).value, ParseLines(lines, num, size)); }
  }

  /** One `BIO_gets` into the rest of the buffer, which grows first if a line is being gathered. */
  method ReadChunk(line: string, rest: string, size: nat) returns (grown: nat, chunk: string, after: string)
    requires 2 <= size && |line| < size && !IsComment(line)
    ensures grown == NextSize(line, size) && grown - |line| >= 2 && chunk == Gets(rest, grown - |line|)
    ensures rest == chunk + after && (chunk == "" <==> rest == "") && |after| <= |rest|
    ensures chunk != "" && !(line == "" && chunk[0] == '#') ==> !IsComment(line + chunk)
  {
    grown := NextSize(line, size);
    chunk := Gets(rest, grown - |line|);
    after := rest[|chunk|..];
  }

  /** `TXT_DB_read`. */
  method ReadTable(text: string, num: nat) returns (r: Option<seq<Fields>>)
    requires num > 0
    ensures r == ParseTable(text, num)
  {
    var rows: seq<Fields> := [];
    var rest, size, line := text, BUFSIZE, "";
    ghost var size0, want := BUFSIZE, ParseTable(text, num);
    StartReading(text, num);
    while true
      invariant 2 <= size0 <= size && Reading(want, rows, line, rest, num, size0, size)
      decreases |rest|
    {
      var grown, chunk, after := ReadChunk(line, rest, size);
      if chunk == "" {
        NothingLeft(want, rows, line, num, size0, size);
        return Some(rows);
      } else if line == "" && chunk[0] == '#' {
        SkipChunk(want, rows, rest, num, size, chunk, after);
      } else if chunk[|chunk| - 1] != '\n' {
        KeepChunk(want, rows, line, rest, num, size0, size, chunk, after);
        line, size := line + chunk, grown;
      } else {
        TakeLine(want, rows, line, rest, num, size0, size, chunk, after);
        var row := ReadLine(line + chunk[..|chunk| - 1], num);
        if row.None? { return None; }
        rows, line, size := rows + [row.value], "", grown;
        size0 := size;
      }
      rest := after;
    }
  }

  // ----- what the two promise of each other

  predicate EndsInBackslash(s: string) {
    s != "" && s[|s| - 1] == '\\'
  }

  /** A row survives a line exactly when no field but its last ends in a backslash. */
  predicate LineSafe(row: Fields) {
    forall j :: 0 <= j < |row| - 1 ==> !EndsInBackslash(row[j])
  }

  /** No field contains a line break. */
  predicate OneLine(row: Fields) {
    forall j :: 0 <= j < |row| ==> '\n' !in row[j]
  }

  /** A row survives the file exactly when it also has no line break and does not look like a comment. */
  predicate Storable(row: Fields) {
    && row != []
    && LineSafe(row)
    && OneLine(row)
    && !LooksLikeComment(row)
  }

  /** Scanning one escaped character copies the character. */
  lemma ScanChar(st: Scan, c: char, rest: string, num: nat)
    requires |st.done| < num
    requires st.esc <==> EndsInBackslash(st.cur)
    ensures ScanLine(st, (if c == '\t' then "\\\t" else [c]) + rest, num)
         == ScanLine(Scan(st.done, st.cur + [c], c == '\\'), rest, num)
  {
    if c == '\t' {
      var line := "\\\t" + rest;
      var mid := Scan(st.done, st.cur + "\\", true);
      assert line[0] == '\\' && line[1..] == "\t" + rest;
      assert ScanLine(st, line, num) == ScanLine(mid, "\t" + rest, num);
      assert ("\t" + rest)[1..] == rest;
      assert mid.cur[..|mid.cur| - 1] + "\t" == st.cur + [c];
    } else {
      assert ([c] + rest)[1..] == rest;
    }
  }

  lemma ScanHead(st: Scan, f: string, rest: string, num: nat)
    requires |st.done| < num && f != ""
    requires st.esc <==> EndsInBackslash(st.cur)
    ensures ScanLine(st, Escape(f) + rest, num)
         == ScanLine(Scan(st.done, st.cur + [f[0]], f[0] == '\\'), Escape(f[1..]) + rest, num)
  {
    var first := if f[0] == '\t' then "\\\t" else [f[0]];
    assert Escape(f) + rest == first + (Escape(f[1..]) + rest);
    ScanChar(st, f[0], Escape(f[1..]) + rest, num);
  }

  /** Scanning an escaped field copies the field. */
  lemma {:induction false} ScanField(st: Scan, f: string, rest: string, num: nat)
    requires |st.done| < num
    requires st.esc <==> EndsInBackslash(st.cur)
    ensures ScanLine(st, Escape(f) + rest, num)
         == ScanLine(Scan(st.done, st.cur + f, EndsInBackslash(st.cur + f)), rest, num)
    decreases f
  {
    if f == "" {
      assert Escape(f) + rest == rest && st.cur + f == st.cur;
    } else {
      ScanHead(st, f, rest, num);
      ScanField(Scan(st.done, st.cur + [f[0]], f[0] == '\\'), f[1..], rest, num);
      assert st.cur + [f[0]] + f[1..] == st.cur + f;
    }
  }

  /** What has been copied for good: all of the current field but a final backslash. */
  function Settled(st: Scan): (s: string)
    requires st.esc ==> st.cur != ""
  {
    if st.esc then st.cur[..|st.cur| - 1] else st.cur
  }

  /** Finished fields and settled text stay in the result. */
  lemma {:induction false} ScanKeeps(st: Scan, line: string, num: nat)
    requires |st.done| < num
    requires st.esc ==> st.cur != ""
    requires ScanLine(st, line, num).Some?
    ensures var r := ScanLine(st, line, num).value; |r| == num && st.done <= r && Settled(st) <= r[|st.done|]
    decreases line
  {
    if line == "" {
    } else {
      if line[0] == '\t' && !st.esc {
        if |st.done| + 1 < num {
          ScanKeeps(Scan(st.done + [st.cur], "", false), line[1..], num);
        }
      } else if line[0] == '\t' {
        ScanKeeps(Scan(st.done, st.cur[..|st.cur| - 1] + "\t", false), line[1..], num);
      } else {
        ScanKeeps(Scan(st.done, st.cur + [line[0]], line[0] == '\\'), line[1..], num);
      }
    }
  }

  /** A field that ends in a backslash swallows the separator behind it. */
  lemma Swallowed(done: Fields, f: string, rest: string, num: nat)
    requires |done| < num && EndsInBackslash(f) && ScanLine(Scan(done, f, true), "\t" + rest, num).Some?
    ensures var r := ScanLine(Scan(done, f, true), "\t" + rest, num).value; |r| == num && r[|done|] != f
  {
    var st := Scan(done, f[..|f| - 1] + "\t", false);
    assert ("\t" + rest)[1..] == rest;
    ScanKeeps(st, rest, num);
    var r := ScanLine(st, rest, num).value;
    assert r[|done|][|f| - 1] == st.cur[|f| - 1] == '\t';
  }

  lemma LineSafeCons(row: Fields)
    requires |row| > 1
    ensures LineSafe(row) <==> !EndsInBackslash(row[0]) && LineSafe(row[1..])
  {
    if !EndsInBackslash(row[0]) && LineSafe(row[1..]) {
      forall j | 0 <= j < |row| - 1 ensures !EndsInBackslash(row[j]) {
        if j > 0 { assert row[j] == row[1..][j - 1]; }
      }
    }
    if LineSafe(row) {
      forall j | 0 <= j < |row[1..]| - 1 ensures !EndsInBackslash(row[1..][j]) {
        assert row[1..][j] == row[j + 1];
      }
    }
  }

  /** The first field of a line, and the tab behind it if there are more. */
  lemma ScanFirst(done: Fields, row: Fields, num: nat)
    requires row != [] && |done| + |row| == num
    ensures var f := row[0];
      ScanLine(Scan(done, "", false), LineOf(row), num)
      == ScanLine(Scan(done, f, EndsInBackslash(f)), if |row| == 1 then "" else "\t" + LineOf(row[1..]), num)
  {
    var f := row[0];
    var rest := if |row| == 1 then "" else "\t" + LineOf(row[1..]);
    assert LineOf(row) == Escape(f) + rest;
    ScanField(Scan(done, "", false), f, rest, num);
    assert "" + f == f;
  }

  /** After the fields `done`, the reader gets the remaining fields right exactly when they are safe. */
  lemma {:induction false} ScanFields(done: Fields, row: Fields, num: nat)
    requires row != [] && |done| + |row| == num
    ensures ScanLine(Scan(done, "", false), LineOf(row), num) == Some(done + row) <==> LineSafe(row)
    decreases row
  {
    var f := row[0];
    ScanFirst(done, row, num);
    if |row| == 1 {
      assert done + row == done + [f];
    } else {
      var rest := LineOf(row[1..]);
      LineSafeCons(row);
      assert (done + row)[|done|] == f;
      assert done + row == done + [f] + row[1..];
      if EndsInBackslash(f) {
        if ScanLine(Scan(done, f, true), "\t" + rest, num).Some? { Swallowed(done, f, rest, num); }
      } else {
        assert ("\t" + rest)[1..] == rest;
        ScanFields(done + [f], row[1..], num);
      }
    }
  }

  lemma {:induction false} EscapeOneLine(f: string)
    ensures '\n' in Escape(f) <==> '\n' in f
  {
    if f == "" {
    } else {
      EscapeOneLine(f[1..]);
      assert f == [f[0]] + f[1..];
    }
  }

  lemma {:induction false} LineOneLine(row: Fields)
    requires OneLine(row)
    ensures '\n' !in LineOf(row)
  {
    if row == [] {
    } else {
      EscapeOneLine(row[0]);
      assert OneLine(row[1..]);
      LineOneLine(row[1..]);
    }
  }

  predicate Lacks(row: Fields, c: char) {
    forall j :: 0 <= j < |row| ==> c !in row[j]
  }

  /** Fields contain no characters that their line does not contain. */
  lemma {:induction false} ScanLacks(st: Scan, line: string, num: nat, c: char)
    requires |st.done| < num
    requires st.esc ==> st.cur != ""
    requires c != '\t' && Lacks(st.done, c) && c !in st.cur && c !in line
    requires ScanLine(st, line, num).Some?
    ensures Lacks(ScanLine(st, line, num).value, c)
    decreases line
  {
    if line == "" {
    } else {
      if line[0] == '\t' && !st.esc {
        if |st.done| + 1 < num {
          ScanLacks(Scan(st.done + [st.cur], "", false), line[1..], num, c);
        }
      } else if line[0] == '\t' {
        ScanLacks(Scan(st.done, st.cur[..|st.cur| - 1] + "\t", false), line[1..], num, c);
      } else {
        ScanLacks(Scan(st.done, st.cur + [line[0]], line[0] == '\\'), line[1..], num, c);
      }
    }
  }

  ghost predicate AllOneLine(rows: seq<Fields>) {
    forall i :: 0 <= i < |rows| ==> OneLine(rows[i])
  }

  ghost predicate LinesLack(lines: seq<string>, c: char) {
    forall i :: 0 <= i < |lines| ==> c !in lines[i]
  }

  lemma {:induction false} TextLacks(text: string, c: char)
    requires c == '\n' || c !in text
    ensures LinesLack(Lines(text), c)
    decreases |text|
  {
    var k := Find(text, '\n');
    if k == |text| {
    } else {
      TextLacks(text[k + 1..], c);
      FirstLacks(text[..k], Lines(text[k + 1..]), c);
    }
  }

  lemma FirstLacks(line: string, lines: seq<string>, c: char)
    requires c !in line && LinesLack(lines, c)
    ensures LinesLack([line] + lines, c)
  {
  }

  /** Every row that was read comes from a line that is no comment, or from the end of a long comment. */
  lemma {:induction false} RowLine(lines: seq<string>, num: nat, size: nat, i: nat, c: char) returns (line: string)
    requires num > 0 && size >= 2 && ParseLines(lines, num, size).Some? && i < |ParseLines(lines, num, size).value|
    requires LinesLack(lines, c)
    ensures ParseLine(line, num) == Some(ParseLines(lines, num, size).value[i]) && !IsComment(line) && c !in line
    decreases |lines|, |lines[0]|
  {
    if !IsComment(lines[0]) {
      if i == 0 {
        line := lines[0];
      } else {
        line := RowLine(lines[1..], num, Grown(size, |lines[0]| + 1), i - 1, c);
      }
    } else if |lines[0]| + 1 < size {
      line := RowLine(lines[1..], num, size, i, c);
    } else {
      line := RowLine([lines[0][size - 1..]] + lines[1..], num, size, i, c);
    }
  }

  ghost predicate AllLack(rows: seq<Fields>, c: char) {
    forall i :: 0 <= i < |rows| ==> Lacks(rows[i], c)
  }

  /** Rows that were read contain no line break, nor any character that the text does not contain. */
  lemma TableLacks(text: string, num: nat, c: char)
    requires num > 0 && c != '\t' && (c == '\n' || c !in text)
    requires ParseTable(text, num).Some?
    ensures AllLack(ParseTable(text, num).value, c)
  {
    var rows := ParseTable(text, num).value;
    TextLacks(text, c);
    forall i | 0 <= i < |rows| ensures Lacks(rows[i], c) {
      var line := RowLine(Lines(text), num, BUFSIZE, i, c);
      ScanLacks(Scan([], "", false), line, num, c);
    }
  }

  ghost predicate Width(rows: seq<Fields>, num: nat) {
    forall i :: 0 <= i < |rows| ==> |rows[i]| == num
  }

  /** Every row that was read has the expected number of fields. */
  lemma ParseWidth(text: string, num: nat)
    requires num > 0 && ParseTable(text, num).Some?
    ensures Width(ParseTable(text, num).value, num)
  {
    var rows := ParseTable(text, num).value;
    TextLacks(text, '\n');
    forall i | 0 <= i < |rows| ensures |rows[i]| == num {
      var line := RowLine(Lines(text), num, BUFSIZE, i, '\n');
      ScanKeeps(Scan([], "", false), line, num);
    }
  }

  /** The row would be taken for a comment. */
  predicate LooksLikeComment(row: Fields) {
    row != [] && row[0] != "" && row[0][0] == '#'
  }

  lemma FirstIs(st: Scan, line: string, num: nat, c: char)
    requires num > 0 && st.done == [] && (st.esc ==> st.cur != "") && Settled(st) != "" && Settled(st)[0] == c != '#'
    requires ScanLine(st, line, num).Some?
    ensures !LooksLikeComment(ScanLine(st, line, num).value)
  {
    ScanKeeps(st, line, num);
  }

  /** A line that is no comment gives a row that does not look like one. */
  lemma LineNoComment(line: string, num: nat)
    requires num > 0 && ParseLine(line, num).Some? && (line == "" || line[0] != '#')
    ensures !LooksLikeComment(ParseLine(line, num).value)
  {
    if line == "" {
    } else if line[0] == '\t' {
      assert [] + [""] == [""];
      if num > 1 { ScanKeeps(Scan([""], "", false), line[1..], num); }
    } else {
      assert "" + [line[0]] == [line[0]];
      if line[0] != '\\' {
        FirstIs(Scan([], [line[0]], false), line[1..], num, line[0]);
      } else {
        BackslashNoComment(line[1..], num);
      }
    }
  }

  lemma BackslashNoComment(rest: string, num: nat)
    requires num > 0 && ScanLine(Scan([], "\\", true), rest, num).Some?
    ensures !LooksLikeComment(ScanLine(Scan([], "\\", true), rest, num).value)
  {
    if rest == "" {
    } else if rest[0] == '\t' {
      assert "\\"[..0] + "\t" == "\t";
      FirstIs(Scan([], "\t", false), rest[1..], num, '\t');
    } else {
      var cur := "\\" + [rest[0]];
      FirstIs(Scan([], cur, rest[0] == '\\'), rest[1..], num, '\\');
    }
  }

  /** No row that was read looks like a comment. */
  lemma ParseNoComment(text: string, num: nat, i: nat)
    requires num > 0 && ParseTable(text, num).Some? && i < |ParseTable(text, num).value|
    ensures !LooksLikeComment(ParseTable(text, num).value[i])
  {
    TextLacks(text, '\n');
    var line := RowLine(Lines(text), num, BUFSIZE, i, '\n');
    LineNoComment(line, num);
  }

  /** The lines of rows. */
  function RowLines(rows: seq<Fields>): (r: seq<string>) {
    if rows == [] then [] else [LineOf(rows[0])] + RowLines(rows[1..])
  }

  /** The lines of a table and further text. */
  lemma {:induction false} TableThen(rows: seq<Fields>, text: string)
    requires AllOneLine(rows)
    ensures Lines(TableText(rows) + text) == RowLines(rows) + Lines(text)
  {
    if rows == [] {
      assert TableText(rows) + text == text && [] + Lines(text) == Lines(text);
    } else {
      var line, rest := LineOf(rows[0]), TableText(rows[1..]);
      LineOneLine(rows[0]);
      assert AllOneLine(rows[1..]);
      TableThen(rows[1..], text);
      LinesFirst(line, rest + text);
      LineThen(line, rest, text);
      ConsThen(line, RowLines(rows[1..]), Lines(text));
    }
  }

  lemma ConsThen(line: string, a: seq<string>, b: seq<string>)
    ensures [line] + (a + b) == [line] + a + b
  {
  }

  /** A table and the start of a further line. */
  lemma TableLines(rows: seq<Fields>, part: string)
    requires AllOneLine(rows) && '\n' !in part
    ensures Lines(TableText(rows) + part) == RowLines(rows)
  {
    TableThen(rows, part);
    NoLines(part);
    assert RowLines(rows) + [] == RowLines(rows);
  }

  lemma LineThen(line: string, rest: string, part: string)
    ensures line + "\n" + rest + part == line + "\n" + (rest + part)
  {
  }

  /** Every front part of a table's text is some of its rows and the start of a further line. */
  lemma {:induction false} Truncated(rows: seq<Fields>, n: nat) returns (k: nat, part: string)
    requires AllOneLine(rows) && n <= |TableText(rows)|
    ensures k <= |rows| && TableText(rows)[..n] == TableText(rows[..k]) + part && '\n' !in part
    ensures k == |rows| <==> n == |TableText(rows)|
  {
    if rows == [] {
      k, part := 0, "";
    } else {
      var line, rest := LineOf(rows[0]), TableText(rows[1..]);
      LineOneLine(rows[0]);
      assert TableText(rows) == line + "\n" + rest;
      if n <= |line| {
        k, part := 0, line[..n];
        assert TableText(rows)[..n] == part && rows[..0] == [];
      } else {
        var m := n - |line| - 1;
        k, part := Truncated(rows[1..], m);
        assert TableText(rows)[..n] == line + "\n" + rest[..m];
        TakeCons(rows, k);
        k := k + 1;
      }
    }
  }

  lemma TakeCons(rows: seq<Fields>, k: nat)
    requires rows != [] && k < |rows|
    ensures TableText(rows[..k + 1]) == LineOf(rows[0]) + "\n" + TableText(rows[1..][..k])
  {
    assert rows[..k + 1][0] == rows[0] && rows[..k + 1][1..] == rows[1..][..k];
  }

  /** One written row. */
  lemma RowRoundTrip(row: Fields, num: nat)
    requires row != [] && |row| == num
    ensures IsComment(LineOf(row)) <==> LooksLikeComment(row)
    ensures ParseLine(LineOf(row), num) == Some(row) <==> LineSafe(row)
  {
    ScanFields([], row, num);
    assert [] + row == row;
    var line := LineOf(row);
    if row[0] == "" {
      assert Escape(row[0]) == "";
      assert line != "" ==> line[0] == '\t';
    } else {
      assert Escape(row[0])[0] == (if row[0][0] == '\t' then '\\' else row[0][0]);
      assert line[0] == Escape(row[0])[0];
    }
  }

  ghost predicate AllStorable(rows: seq<Fields>) {
    forall i :: 0 <= i < |rows| ==> Storable(rows[i])
  }

  ghost predicate AllLineSafe(rows: seq<Fields>) {
    forall i :: 0 <= i < |rows| ==> LineSafe(rows[i])
  }

  lemma AllLineSafeCons(rows: seq<Fields>)
    requires rows != []
    ensures AllLineSafe(rows) <==> LineSafe(rows[0]) && AllLineSafe(rows[1..])
  {
    assert rows == [rows[0]] + rows[1..];
  }

  /** Rows that look like no comment are read back exactly when they are safe. */
  lemma {:induction false} PlainRoundTrip(rows: seq<Fields>, num: nat, size: nat)
    requires num > 0 && size >= 2 && Width(rows, num)
    requires forall i :: 0 <= i < |rows| ==> !LooksLikeComment(rows[i])
    ensures ParseLines(RowLines(rows), num, size) == Some(rows) <==> AllLineSafe(rows)
    decreases rows
  {
    if rows == [] {
    } else {
      var line, rest := LineOf(rows[0]), rows[1..];
      var size' := Grown(size, |line| + 1);
      RowRoundTrip(rows[0], num);
      ParseStep(line, RowLines(rest), num, size, size');
      PlainRoundTrip(rest, num, size');
      AllLineSafeCons(rows);
      if ParseLine(line,
          num).Some? { RowsCons(rows, ParseLine(line, num).value, ParseLines(RowLines(rest), num, size')); }
    }
  }

  lemma RowsCons(rows: seq<Fields>, row: Fields, rest: Option<seq<Fields>>)
    requires rows != []
    ensures Prepend([row], rest) == Some(rows) <==> row == rows[0] && rest == Some(rows[1..])
  {
    assert rows == [rows[0]] + rows[1..];
    if rest.Some? { assert ([row] + rest.value)[1..] == rest.value; }
  }

  /** Saving and loading a table gives the table back exactly when every row is storable. */
  lemma TableRoundTrip(rows: seq<Fields>, num: nat)
    requires num > 0 && Width(rows, num)
    ensures ParseTable(TableText(rows), num) == Some(rows) <==> AllStorable(rows)
  {
    if !AllOneLine(rows) {
      if ParseTable(TableText(rows), num) == Some(rows) { TableLacks(TableText(rows), num, '\n'); }
      var i :| 0 <= i < |rows| && !OneLine(rows[i]);
      assert !Storable(rows[i]);
    } else if exists i :: 0 <= i < |rows| && LooksLikeComment(rows[i]) {
      var i :| 0 <= i < |rows| && LooksLikeComment(rows[i]);
      if ParseTable(TableText(rows), num) == Some(rows) { ParseNoComment(TableText(rows), num, i); }
      assert !Storable(rows[i]);
    } else {
      TableLines(rows, "");
      assert TableText(rows) + "" == TableText(rows);
      PlainRoundTrip(rows, num, BUFSIZE);
      assert forall i :: 0 <= i < |rows| ==> (Storable(rows[i]) <==> LineSafe(rows[i]));
    }
  }

  /** The start of a further line is dropped without notice. */
  lemma UnfinishedDropped(rows: seq<Fields>, num: nat, part: string)
    requires num > 0 && Width(rows, num) && AllStorable(rows) && '\n' !in part
    ensures ParseTable(TableText(rows) + part, num) == Some(rows)
  {
    assert forall i :: 0 <= i < |rows| ==> Storable(rows[i]);
    TableLines(rows, part);
    PlainRoundTrip(rows, num, BUFSIZE);
  }

  // ----- comments

  /** What is read of a line with a buffer of `size` bytes after the comment chunks at its front: nothing, or a line
      that is no comment. */
  function Remains(line: string, size: nat): (r: Option<string>)
    requires size >= 2
    ensures r.Some? ==> !IsComment(r.value)
    decreases line
  {
    if !IsComment(line) then Some(line)
    else if |line| + 1 < size then None
    else Remains(line[size - 1..], size)
  }

  /** A comment that is skipped as a whole: each chunk of it that fills the buffer starts with the comment sign, and so
      does the last one, which does not. */
  predicate Skipped(comment: string, size: nat)
    requires size >= 2
    decreases comment
  {
    IsComment(comment) && (|comment| + 1 < size || Skipped(comment[size - 1..], size))
  }

  lemma {:induction false} SkippedRemains(line: string, size: nat)
    requires size >= 2
    ensures Skipped(line, size) <==> Remains(line, size).None?
    decreases line
  {
    if IsComment(line) && |line| + 1 >= size { SkippedRemains(line[size - 1..], size); }
  }

  /** A line is read as what remains of it. */
  lemma {:induction false} RemainsRead(line: string, lines: seq<string>, num: nat, size: nat)
    requires num > 0 && size >= 2
    ensures ParseLines([line] + lines, num, size) ==
      match Remains(line, size)
      case None => ParseLines(lines, num, size)
      case Some(rest) => ParseLines([rest] + lines, num, size)
    decreases line
  {
    var all := [line] + lines;
    assert all[0] == line && all[1..] == lines;
    if IsComment(line) && |line| + 1 >= size { RemainsRead(line[size - 1..], lines, num, size); }
  }

  /** The size of the buffer behind some rows. */
  function SizeAfter(rows: seq<Fields>, size: nat): (r: nat)
    ensures r >= size
  {
    if rows == [] then size else SizeAfter(rows[1..], Grown(size, |LineOf(rows[0])| + 1))
  }

  lemma RowThen(row: Fields, lines: seq<string>, num: nat, size: nat)
    requires num > 0 && size >= 2 && |row| == num && Storable(row)
    ensures var line := LineOf(row);
      ParseLines([line] + lines, num, size) == Prepend([row], ParseLines(lines, num, Grown(size, |line| + 1)))
  {
    RowRoundTrip(row, num);
    ParseStep(LineOf(row), lines, num, size, Grown(size, |LineOf(row)| + 1));
  }

  /** Reading on behind rows that were written. */
  lemma {:induction false} RowsThen(rows: seq<Fields>, lines: seq<string>, num: nat, size: nat)
    requires num > 0 && size >= 2 && Width(rows, num) && AllStorable(rows)
    ensures ParseLines(RowLines(rows) + lines, num, size)
        == Prepend(rows, ParseLines(lines, num, SizeAfter(rows, size)))
    decreases rows
  {
    if rows == [] {
      assert RowLines(rows) + lines == lines;
      PrependNothing(ParseLines(lines, num, size));
    } else {
      var line, rest := LineOf(rows[0]), rows[1..];
      assert Storable(rows[0]) && AllStorable(rest) && Width(rest, num);
      RowThen(rows[0], RowLines(rest) + lines, num, size);
      RowsThen(rest, lines, num, Grown(size, |line| + 1));
      RowLinesFirst(rows, lines);
      PrependBoth(rows, ParseLines(lines, num, SizeAfter(rows, size)));
    }
  }

  lemma RowLinesFirst(rows: seq<Fields>, lines: seq<string>)
    requires rows != []
    ensures RowLines(rows) + lines == [LineOf(rows[0])] + (RowLines(rows[1..]) + lines)
  {
  }

  lemma PrependBoth(rows: seq<Fields>, rest: Option<seq<Fields>>)
    requires rows != []
    ensures Prepend([rows[0]], Prepend(rows[1..], rest)) == Prepend(rows, rest)
  {
    if rest.Some? { assert [rows[0]] + (rows[1..] + rest.value) == rows + rest.value; }
  }

  /** A table, a line and further text. */
  lemma BehindRows(rows: seq<Fields>, line: string, rest: string, num: nat)
    requires num > 0 && Width(rows, num) && AllStorable(rows) && '\n' !in line
    ensures ParseTable(TableText(rows) + (line + "\n" + rest), num)
         == Prepend(rows, ParseLines([line] + Lines(rest), num, SizeAfter(rows, BUFSIZE)))
    ensures ParseTable(TableText(rows) + rest, num)
        == Prepend(rows, ParseLines(Lines(rest), num, SizeAfter(rows, BUFSIZE)))
  {
    assert AllOneLine(rows) by { assert forall i :: 0 <= i < |rows| ==> Storable(rows[i]); }
    TableThen(rows, line + "\n" + rest);
    LinesFirst(line, rest);
    RowsThen(rows, [line] + Lines(rest), num, BUFSIZE);
    TableThen(rows, rest);
    RowsThen(rows, Lines(rest), num, BUFSIZE);
  }

  /** A comment anywhere in a table makes no difference, whatever follows it, exactly when it is skipped as a whole by
      the buffer that the rows before it have left. */
  lemma CommentIgnoredExactly(rows: seq<Fields>, comment: string, num: nat)
    requires num > 0 && Width(rows, num) && AllStorable(rows) && '\n' !in comment && IsComment(comment)
    ensures Skipped(comment, SizeAfter(rows, BUFSIZE))
       <==> forall rest ::
              ParseTable(TableText(rows) + (comment + "\n" + rest), num) == ParseTable(TableText(rows) + rest, num)
  {
    var size := SizeAfter(rows, BUFSIZE);
    SkippedRemains(comment, size);
    if Skipped(comment, size) {
      forall rest
        ensures ParseTable(TableText(rows) + (comment + "\n" + rest), num) == ParseTable(TableText(rows) + rest, num)
      {
        BehindRows(rows, comment, rest, num);
        RemainsRead(comment, Lines(rest), num, size);
      }
    } else {
      BehindRows(rows, comment, "", num);
      NoLines("");
      RemainsRead(comment, [], num, size);
      SomethingRead(rows, Remains(comment, size).value, num, size);
      assert ParseTable(TableText(rows) + (comment + "\n" + ""), num) != ParseTable(TableText(rows) + "", num);
    }
  }

  /** What remains of a comment is a further row or an error. */
  lemma SomethingRead(rows: seq<Fields>, line: string, num: nat, size: nat)
    requires num > 0 && size >= 2 && !IsComment(line)
    ensures Prepend(rows, ParseLines([line] + [], num, size)) != Prepend(rows, ParseLines([], num, size))
  {
    ParseStep(line, [], num, size, Grown(size, |line| + 1));
    assert rows + [] == rows;
  }

  /** A text of one comment is refused if what remains of it is neither a comment nor a row. */
  lemma LongCommentRefused(comment: string)
    requires |comment| == 600 && IsComment(comment) && forall i :: 1 <= i < 600 ==> comment[i] == 'c'
    ensures ParseTable(comment + "\n", 6).None?
  {
    var line := comment[BUFSIZE - 1..];
    assert comment + "\n" + "" == comment + "\n";
    LinesFirst(comment, "");
    RemainsRead(comment, Lines(""), 6, BUFSIZE);
    assert Remains(comment, BUFSIZE) == Some(line);
    ParseStep(line, Lines(""), 6, BUFSIZE, Grown(BUFSIZE, |line| + 1));
    NoTabsOneField(Scan([], "", false), line, 6);
  }

  // ----- texts without a character

  lemma {:induction false} EscapeLacks(s: string, c: char)
    requires c !in s && c != '\\'
    ensures c !in Escape(s)
  {
    if s == "" {
    } else {
      EscapeLacks(s[1..], c);
    }
  }

  lemma {:induction false} LineLacks(row: Fields, c: char)
    requires Lacks(row, c) && c != '\\' && c != '\t'
    ensures c !in LineOf(row)
  {
    if row == [] {
    } else {
      EscapeLacks(row[0], c);
      LineLacks(row[1..], c);
    }
  }

  /** The text of a table contains no characters but those of its fields, backslashes, tabs and line breaks. */
  lemma {:induction false} WrittenLacks(rows: seq<Fields>, c: char)
    requires AllLack(rows, c) && c != '\\' && c != '\t' && c != '\n'
    ensures c !in TableText(rows)
  {
    if rows == [] {
    } else {
      LineLacks(rows[0], c);
      WrittenLacks(rows[1..], c);
    }
  }

  lemma {:induction false} NoTabsOneField(st: Scan, line: string, num: nat)
    requires |st.done| + 1 < num && (st.esc ==> st.cur != "") && '\t' !in line
    ensures ScanLine(st, line, num).None?
    decreases line
  {
    if line == "" {
    } else {
      NoTabsOneField(Scan(st.done, st.cur + [line[0]], line[0] == '\\'), line[1..], num);
    }
  }

  // ----- reading and writing back

  lemma {:induction false} EscapeConcat(a: string, b: string)
    ensures Escape(a + b) == Escape(a) + Escape(b)
  {
    if a == "" {
      assert a + b == b;
    } else {
      assert (a + b)[1..] == a[1..] + b;
      EscapeConcat(a[1..], b);
    }
  }

  /** The text of finished fields. */
  function DoneText(done: Fields): (r: string) {
    if done == [] then "" else Escape(done[0]) + "\t" + DoneText(done[1..])
  }

  lemma {:induction false} DoneSnoc(done: Fields, f: string)
    ensures LineOf(done + [f]) == DoneText(done) + Escape(f)
    ensures DoneText(done + [f]) == DoneText(done) + Escape(f) + "\t"
  {
    if done == [] {
      assert done + [f] == [f] && [f][1..] == [];
    } else {
      assert (done + [f])[1..] == done[1..] + [f];
      DoneSnoc(done[1..], f);
    }
  }

  /** What the reader has read to get into a state. */
  function TextOf(st: Scan): (r: string) {
    DoneText(st.done) + Escape(st.cur)
  }

  lemma TabRead(st: Scan)
    ensures TextOf(Scan(st.done + [st.cur], "", false)) == TextOf(st) + "\t"
  {
    DoneSnoc(st.done, st.cur);
  }

  lemma EscapedTabRead(st: Scan)
    requires EndsInBackslash(st.cur)
    ensures TextOf(Scan(st.done, st.cur[..|st.cur| - 1] + "\t", false)) == TextOf(st) + "\t"
  {
    var init := st.cur[..|st.cur| - 1];
    assert st.cur == init + "\\";
    EscapedTab(init);
    Concat4(DoneText(st.done), Escape(init), "\\", "\t");
  }

  lemma EscapedTab(s: string)
    ensures Escape(s + "\\") == Escape(s) + "\\" && Escape(s + "\t") == Escape(s) + ("\\" + "\t")
  {
    EscapeConcat(s, "\\");
    EscapeConcat(s, "\t");
    assert "\\"[1..] == "" && "\t"[1..] == "";
    assert Escape("\\") == "\\" && Escape("\t") == "\\" + "\t";
  }

  lemma Concat4(a: string, b: string, c: string, d: string)
    ensures a + (b + (c + d)) == a + (b + c) + d
  {
  }

  lemma CharRead(st: Scan, c: char)
    requires c != '\t'
    ensures TextOf(Scan(st.done, st.cur + [c], c == '\\')) == TextOf(st) + [c]
  {
    EscapeConcat(st.cur, [c]);
    assert Escape([c]) == [c];
    assert DoneText(st.done) + (Escape(st.cur) + [c]) == DoneText(st.done) + Escape(st.cur) + [c];
  }

  /** A line that can be read is the line that its fields are written as, with at most one more tab at its end. */
  lemma {:induction false} ScanWrites(st: Scan, line: string, num: nat)
    requires |st.done| < num && (st.esc <==> EndsInBackslash(st.cur))
    requires ScanLine(st, line, num).Some?
    ensures var row := ScanLine(st, line, num).value;
      TextOf(st) + line == LineOf(row) || TextOf(st) + line == LineOf(row) + "\t"
    decreases line
  {
    DoneSnoc(st.done, st.cur);
    if line == "" {
      assert TextOf(st) + line == TextOf(st);
    } else if line[0] == '\t' && !st.esc && |st.done| + 1 >= num {
      assert line == "\t";
    } else {
      var next :=
        if line[0] == '\t' && !st.esc then Scan(st.done + [st.cur], "", false)
        else if line[0] == '\t' then Scan(st.done, st.cur[..|st.cur| - 1] + "\t", false)
        else Scan(st.done, st.cur + [line[0]], line[0] == '\\');
      if line[0] != '\t' { CharRead(st, line[0]); } else if st.esc { EscapedTabRead(st); } else { TabRead(st); }
      ScanWrites(next, line[1..], num);
      assert TextOf(st) + line == TextOf(st) + [line[0]] + line[1..];
    }
  }

  lemma LineReadBack(line: string, num: nat)
    requires num > 0 && ParseLine(line, num).Some?
    ensures var row := ParseLine(line, num).value; line == LineOf(row) || line == LineOf(row) + "\t"
  {
    ScanWrites(Scan([], "", false), line, num);
    assert TextOf(Scan([], "", false)) + line == line;
  }

  // ----- which lines can be read

  /** The tabs that separate fields: those not behind a backslash. */
  function Separators(line: string, esc: bool): (n: nat) {
    if line == "" then 0
    else (if line[0] == '\t' && !esc then 1 else 0) + Separators(line[1..], line[0] == '\\')
  }

  /** The last character is one of them. */
  predicate EndsInTab(line: string, esc: bool) {
    line != "" && if |line| == 1 then line == "\t" && !esc else EndsInTab(line[1..], line[0] == '\\')
  }

  lemma {:induction false} NoMoreTabs(line: string, esc: bool)
    ensures EndsInTab(line, esc) ==> Separators(line, esc) > 0
    ensures EndsInTab(line, esc) && Separators(line, esc) == 1 && line[0] == '\t' && !esc ==> |line| == 1
  {
    if |line| > 1 { NoMoreTabs(line[1..], line[0] == '\\'); }
  }

  lemma {:induction false} ScanExactly(st: Scan, line: string, num: nat)
    requires |st.done| < num && (st.esc ==> st.cur != "")
    ensures ScanLine(st, line, num).Some?
       <==> var tabs := |st.done| + Separators(line, st.esc);
            tabs + 1 == num || (tabs == num && EndsInTab(line, st.esc))
    decreases line
  {
    if line == "" {
    } else {
      NoMoreTabs(line, st.esc);
      if line[0] == '\t' && !st.esc {
        if |st.done| + 1 < num { ScanExactly(Scan(st.done + [st.cur], "", false), line[1..], num); }
      } else if line[0] == '\t' {
        ScanExactly(Scan(st.done, st.cur[..|st.cur| - 1] + "\t", false), line[1..], num);
      } else {
        ScanExactly(Scan(st.done, st.cur + [line[0]], line[0] == '\\'), line[1..], num);
      }
    }
  }

  /** A line can be read as `num` fields exactly when `num - 1` tabs separate them, or one more that ends the line. */
  lemma LineReadExactly(line: string, num: nat)
    requires num > 0
    ensures ParseLine(line, num).Some?
       <==> Separators(line, false) == num - 1 || (Separators(line, false) == num && EndsInTab(line, false))
  {
    ScanExactly(Scan([], "", false), line, num);
  }

  // ----- the buffer

  /** The buffer grows in steps of 512 bytes, and no further than the line needs. */
  lemma {:induction false} GrownIs(size: nat, need: nat)
    ensures var r := Grown(size, need);
      r % 512 == size % 512 && need < r && (r == size || r - 512 <= need)
    decreases need - size
  {
    if need >= size { GrownIs(size + BUFSIZE, need); }
  }

  /** At the start of a file, a comment without further comment signs makes no difference exactly up to 510 bytes. */
  lemma CommentLimit(comment: string, num: nat)
    requires num > 0 && '\n' !in comment && IsComment(comment) && '#' !in comment[1..]
    ensures (forall rest :: ParseTable(comment + "\n" + rest, num) == ParseTable(rest, num)) <==> |comment| <= 510
  {
    CommentIgnoredExactly([], comment, num);
    forall rest
      ensures TableText([]) + (comment + "\n" + rest) == comment + "\n" + rest && TableText([]) + rest == rest
    {
    }
    if |comment| > 510 {
      var rest := comment[511..];
      if rest != "" { assert rest[0] == comment[1..][510]; }
      assert !Skipped(comment, BUFSIZE);
    }
  }

  // ----- the format

  lemma {:induction false} EscapePlain(s: string)
    requires '\t' !in s
    ensures Escape(s) == s
  {
    if s != "" { EscapePlain(s[1..]); }
  }

  /** Tabs separate fields, line feeds end rows, and a tab in a field has a backslash before it. */
  lemma FormatIs(a: string, b: string, c: string)
    requires '\t' !in a && '\t' !in b && '\t' !in c
    ensures TableText([[a, b + "\t" + c], [c]]) == a + "\t" + (b + "\\\t" + c) + "\n" + (c + "\n")
  {
    EscapePlain(a);
    EscapePlain(c);
    var first, second := [a, b + "\t" + c], [c];
    assert first[1..] == [b + "\t" + c] && [first, second][1..] == [second] && [second][1..] == [];
    EscapeInner(b, c);
    assert LineOf(first) == a + "\t" + (b + "\\\t" + c);
    assert TableText([second]) == c + "\n" + TableText([]);
  }

  lemma EscapeInner(b: string, c: string)
    requires '\t' !in b && '\t' !in c
    ensures Escape(b + "\t" + c) == b + "\\\t" + c
  {
    EscapePlain(b);
    EscapePlain(c);
    EscapeConcat(b + "\t", c);
    EscapedTab(b);
    assert "\\" + "\t" == "\\\t";
  }
}
