/** Reading a comma- or space-separated list of configuration sections from its end (`prev_item`), and looking a
    name up in the last section that defines it (`conf_get_string`). */
module SectionList {
  import opened Text
  import opened CBuffer

  const SECTION_NAME_MAX := 40

  predicate IsSeparator(c: char) {
    c == ',' || IsSpace(c)
  }

  predicate EndsInSeparator(s: string) {
    s != "" && IsSeparator(s[|s| - 1])
  }

  /** The length of the leading run without separators. */
  function TokenLength(s: string): (n: nat)
    ensures n <= |s| && (n < |s| ==> IsSeparator(s[n]))
    ensures forall i :: 0 <= i < n ==> !IsSeparator(s[i])
  {
    if s == "" || IsSeparator(s[0]) then 0 else 1 + TokenLength(s[1..])
  }

  /** The tokens of a list, read from the left. */
  function Tokens(s: string): (r: seq<string>)
    decreases |s|
  {
    if s == "" then []
    else if IsSeparator(s[0]) then Tokens(s[1..])
    else
      var n := TokenLength(s);
      [s[..n]] + Tokens(s[n..])
  }

  /** Where the last token starts: behind the last separator. */
  function LastStart(s: string): (i: nat)
    ensures i <= |s| && (i > 0 ==> IsSeparator(s[i - 1]))
    ensures forall j :: i <= j < |s| ==> !IsSeparator(s[j])
  {
    if s == "" || IsSeparator(s[|s| - 1]) then |s| else LastStart(s[..|s| - 1])
  }

  /** The length of a list without its trailing separators. */
  function TrimmedLength(s: string): (n: nat)
    ensures n <= |s| && !EndsInSeparator(s[..n])
    ensures forall i :: n <= i < |s| ==> IsSeparator(s[i])
  {
    if EndsInSeparator(s) then
      assert s[..|s| - 1][..TrimmedLength(s[..|s| - 1])] == s[..TrimmedLength(s[..|s| - 1])];
      TrimmedLength(s[..|s| - 1])
    else
      assert s[..|s|] == s;
      |s|
  }

  /** A section name, cut to what its buffer holds. */
  function CutName(s: string): (r: string) {
    if |s| > SECTION_NAME_MAX then s[..SECTION_NAME_MAX] else s
  }

  /** What repeated calls of `prev_item` yield. */
  function Backwards(s: string): (r: seq<string>)
    decreases |s|
  {
    if s == "" then []
    else
      var i := LastStart(s);
      BackwardsShrinks(s);
      [CutName(s[i..])] + Backwards(s[..TrimmedLength(s[..i])])
  }

  lemma BackwardsShrinks(s: string)
    requires s != ""
    ensures TrimmedLength(s[..LastStart(s)]) < |s|
  {
    var i := LastStart(s);
    if i == |s| {
      assert EndsInSeparator(s) && s[..i] == s;
    }
  }

  // ----- the programs

  /** The first scan of `prev_item`, to the start of the token. */
  method ScanToken(opt: string, end: nat) returns (beg: nat)
    requires end <= |opt|
    ensures beg == LastStart(opt[..end]) <= end
  {
    beg := end;
    ghost var s := opt[..end];
    assert s[..end] == s;
    while beg > 0
      invariant 0 <= beg <= end && LastStart(s) == LastStart(s[..beg])
    {
      beg := beg - 1;
      assert s[..beg + 1][..beg] == s[..beg];
      if IsSeparator(opt[beg]) {
        beg := beg + 1;
        break;
      }
    }
  }

  /** The second scan, over the separators before it. */
  method ScanSeparators(opt: string, start: nat) returns (beg: nat)
    requires start <= |opt|
    ensures beg == TrimmedLength(opt[..start]) <= start
  {
    beg := start;
    ghost var s := opt[..start];
    assert s[..start] == s;
    while beg > 0
      invariant 0 <= beg <= start && TrimmedLength(s) == TrimmedLength(s[..beg])
    {
      beg := beg - 1;
      assert s[..beg + 1][..beg] == s[..beg];
      if !IsSeparator(opt[beg]) {
        beg := beg + 1;
        break;
      }
    }
  }

  /** Copying the token into the static buffer. */
  method CopyName(opt: string, beg: nat, end: nat, item: array<char>)
    requires beg <= end <= |opt| && NoNul(opt) && item.Length == SECTION_NAME_MAX + 1
    modifies item
    ensures CString(item[..], 0) == CutName(opt[beg..end])
  {
    var len := end - beg;
    if len > SECTION_NAME_MAX { len := SECTION_NAME_MAX; }
    forall i | 0 <= i < len { item[i] := opt[beg + i]; }
    item[len] := '\0';
    ghost var name := CutName(opt[beg..end]);
    assert item[..][0..len] == name;
    CStringIs(item[..], 0, name);
  }

  /** `prev_item`. The token is left in the static buffer. */
  method PrevItem(opt: string, end: nat, item: array<char>) returns (r: Option<nat>)
    requires end <= |opt| && NoNul(opt) && item.Length == SECTION_NAME_MAX + 1
    modifies item
    ensures r.None? <==> end == 0
    ensures end > 0 ==> var s := opt[..end];
      && r.value == TrimmedLength(s[..LastStart(s)]) < end
      && CString(item[..], 0) == CutName(s[LastStart(s)..])
  {
    if end == 0 { return None; }
    ghost var s := opt[..end];
    var beg := ScanToken(opt, end);
    CopyName(opt, beg, end, item);
    assert opt[beg..end] == s[beg..] && opt[..beg] == s[..beg];
    beg := ScanSeparators(opt, beg);
    BackwardsShrinks(s);
    return Some(beg);
  }

  /** The first section of a list that defines a name. */
  function FirstDefined(conf: string -> Option<string>, sections: seq<string>): (r: Option<string>) {
    if sections == [] then None
    else if conf(sections[0]).Some? then conf(sections[0])
    else FirstDefined(conf, sections[1..])
  }

  /** `conf_get_string`. */
  method ConfGetString(conf: string -> Option<string>, groups: string) returns (r: Option<string>)
    requires NoNul(groups)
    ensures r == FirstDefined(conf, Backwards(groups))
  {
    var item := new char[SECTION_NAME_MAX + 1](_ => '\0');
    var end := |groups|;
    assert groups[..end] == groups;
    while true
      invariant 0 <= end <= |groups|
      invariant FirstDefined(conf, Backwards(groups[..end])) == FirstDefined(conf, Backwards(groups))
      decreases end
    {
      var next := PrevItem(groups, end, item);
      if next.None? { return None; }
      ghost var s := groups[..end];
      assert s[..next.value] == groups[..next.value];
      r := conf(CString(item[..], 0));
      if r.Some? { return; }
      end := next.value;
    }
  }

  // ----- backwards is the reverse of forwards

  function Reversed(s: seq<string>): (r: seq<string>) {
    if s == [] then [] else Reversed(s[1..]) + [CutName(s[0])]
  }

  lemma {:induction false} ReversedSnoc(s: seq<string>, x: string)
    ensures Reversed(s + [x]) == [CutName(x)] + Reversed(s)
  {
    if s == [] {
      assert [x][1..] == [];
    } else {
      assert (s + [x])[1..] == s[1..] + [x];
      ReversedSnoc(s[1..], x);
    }
  }

  /** Trailing separators add no token. */
  lemma {:induction false} TokensTrailing(s: string, n: nat)
    requires n <= |s| && forall i :: n <= i < |s| ==> IsSeparator(s[i])
    ensures Tokens(s) == Tokens(s[..n])
    decreases |s|
  {
    if s == "" {
    } else {
      if IsSeparator(s[0]) {
        if n == 0 {
          TokensTrailing(s[1..], 0);
          assert s[1..][..0] == s[..0];
        } else {
          TokensTrailing(s[1..], n - 1);
          assert s[1..][..n - 1] == s[..n][1..];
        }
      } else {
        var k := TokenLength(s);
        assert n < |s| ==> IsSeparator(s[n]);
        TokenLengthPrefix(s, n);
        TokensTrailing(s[k..], n - k);
        assert s[k..][..n - k] == s[..n][k..] && s[..n][..k] == s[..k];
      }
    }
  }

  lemma {:induction false} TokenLengthPrefix(s: string, n: nat)
    requires TokenLength(s) <= n <= |s|
    ensures TokenLength(s[..n]) == TokenLength(s)
    decreases |s|
  {
    if s != "" && !IsSeparator(s[0]) {
      assert s[..n][1..] == s[1..][..n - 1];
      TokenLengthPrefix(s[1..], n - 1);
    }
  }

  predicate NoSeparator(s: string) {
    forall j :: 0 <= j < |s| ==> !IsSeparator(s[j])
  }

  /** Text without separators behind a separator, or alone, is the last token. */
  lemma {:induction false} TokensLast(head: string, last: string)
    requires last != "" && NoSeparator(last) && (head == "" || EndsInSeparator(head))
    ensures Tokens(head + last) == Tokens(head) + [last]
    decreases head
  {
    var s := head + last;
    if head == "" {
      assert s == last;
      OneToken(last);
    } else if IsSeparator(head[0]) {
      assert s[0] == head[0] && s[1..] == head[1..] + last;
      TokensLast(head[1..], last);
    } else {
      var k := TokenLength(head);
      FirstToken(head, last);
      TokensLast(head[k..], last);
      assert [head[..k]] + (Tokens(head[k..]) + [last]) == [head[..k]] + Tokens(head[k..]) + [last];
    }
  }

  lemma OneToken(s: string)
    requires s != "" && NoSeparator(s)
    ensures Tokens(s) == [s]
  {
    assert TokenLength(s) == |s|;
    assert s[|s|..] == "" && s[..|s|] == s;
  }

  /** More text behind a separator leaves the first token alone. */
  lemma FirstToken(head: string, last: string)
    requires EndsInSeparator(head) && !IsSeparator(head[0])
    ensures var k := TokenLength(head);
      k < |head| && EndsInSeparator(head[k..]) && Tokens(head + last) == [head[..k]] + Tokens(head[k..] + last)
  {
    var k := TokenLength(head);
    var s := head + last;
    TokenLengthIs(s, k);
    assert s[..k] == head[..k] && s[k..] == head[k..] + last;
  }

  lemma {:induction false} TokenLengthIs(s: string, k: nat)
    requires k < |s| && NoSeparator(s[..k]) && IsSeparator(s[k])
    ensures TokenLength(s) == k
    decreases k
  {
    if k == 0 {
    } else {
      assert s[0] == s[..k][0] && s[1..][..k - 1] == s[..k][1..];
      TokenLengthIs(s[1..], k - 1);
    }
  }

  lemma TrimmedTokens(s: string, i: nat)
    requires i <= |s|
    ensures var n := TrimmedLength(s[..i]); n <= i && !EndsInSeparator(s[..n]) && Tokens(s[..i]) == Tokens(s[..n])
  {
    var head := s[..i];
    var n := TrimmedLength(head);
    assert head[..n] == s[..n];
    TokensTrailing(head, n);
  }

  /** The tokens in terms of the last one and the trimmed text before it. */
  lemma TokensBehind(s: string, i: nat, before: seq<string>)
    requires s != "" && i == LastStart(s) && before == Tokens(s[..i])
    ensures EndsInSeparator(s) ==> s[i..] == "" && Tokens(s) == before
    ensures !EndsInSeparator(s) ==> Reversed(Tokens(s)) == [CutName(s[i..])] + Reversed(before)
  {
    if EndsInSeparator(s) {
      assert i == |s| && s[..i] == s;
    } else {
      assert s == s[..i] + s[i..];
      TokensLast(s[..i], s[i..]);
      ReversedSnoc(before, s[i..]);
    }
  }

  /** The calls yield the tokens of the list in reverse order, cut to the length of a name. A list that ends in
      a separator yields one empty name before them. */
  lemma {:induction false} BackwardsIsReverse(s: string)
    ensures Backwards(s) == if EndsInSeparator(s) then [""] + Reversed(Tokens(s)) else Reversed(Tokens(s))
    decreases |s|
  {
    if s == "" {
    } else {
      var i := LastStart(s);
      var n := TrimmedLength(s[..i]);
      BackwardsShrinks(s);
      TrimmedTokens(s, i);
      BackwardsIsReverse(s[..n]);
      TokensBehind(s, i, Tokens(s[..i]));
    }
  }

  /** The value found is that of the rightmost token whose section defines the name. */
  lemma {:induction false} RightmostWins(conf: string -> Option<string>, tokens: seq<string>)
    ensures var r := FirstDefined(conf, Reversed(tokens));
      if exists i :: 0 <= i < |tokens| && conf(CutName(tokens[i])).Some?
      then exists i :: 0 <= i < |tokens| && r.Some? && r == conf(CutName(tokens[i]))
             && forall j :: i < j < |tokens| ==> conf(CutName(tokens[j])).None?
      else r.None?
  {
    if tokens == [] {
    } else {
      var init, last := tokens[..|tokens| - 1], tokens[|tokens| - 1];
      assert tokens == init + [last];
      ReversedSnoc(init, last);
      var rev := Reversed(tokens);
      assert rev[1..] == Reversed(init);
      RightmostWins(conf, init);
      if conf(CutName(last)).Some? {
        assert FirstDefined(conf, rev) == conf(CutName(tokens[|tokens| - 1]));
      }
    }
  }

  /** A lookup is answered by the tokens, rightmost first, except that a list ending in a separator asks the
      section with the empty name before them. */
  lemma LookupIs(conf: string -> Option<string>, groups: string)
    ensures FirstDefined(conf, Backwards(groups)) ==
      if EndsInSeparator(groups) && conf("").Some? then conf("") else FirstDefined(conf, Reversed(Tokens(groups)))
  {
    BackwardsIsReverse(groups);
    var rest := Reversed(Tokens(groups));
    assert ([""] + rest)[1..] == rest;
  }

  /** So the list "a," is answered by the section with the empty name if that defines the name, even if "a" does. */
  lemma TrailingSeparatorAsks(conf: string -> Option<string>)
    requires conf("").Some?
    ensures FirstDefined(conf, Backwards("a,")) == conf("") && Tokens("a,") == ["a"]
  {
    LookupIs(conf, "a,");
    assert "a,"[1..] == "," && ","[1..] == "" && "a,"[..1] == "a";
    assert TokenLength("a,") == 1;
  }

  // ----- separators and names

  /** Commas and all white space separate: blank, tab, line feed, vertical tab, form feed and carriage return. */
  lemma SeparatorIs(c: char)
    ensures IsSeparator(c) <==> c == ',' || c as int in {0x20, 0x09, 0x0A, 0x0B, 0x0C, 0x0D}
  {
    SpaceIs(c);
  }

  /** A name keeps its first 40 characters. */
  lemma NameIs(s: string)
    ensures CutName(s) <= s && |CutName(s)| == if |s| < 40 then |s| else 40
  {
  }

  /** Two tokens with any separators between and around them. */
  lemma TwoTokens(a: string, b: string, before: string, between: string, after: string)
    requires a != "" && b != "" && NoSeparator(a) && NoSeparator(b) && between != ""
    requires forall c :: c in before + between + after ==> IsSeparator(c)
    ensures Tokens(before + a + between + b + after) == [a, b]
  {
    var text := before + a + between + b;
    forall i | |text| <= i < |text + after| ensures IsSeparator((text + after)[i]) {
      assert (text + after)[i] == after[i - |text|];
    }
    TokensTrailing(text + after, |text|);
    assert (text + after)[..|text|] == text;
    var head := before + a + between;
    assert head[|head| - 1] == between[|between| - 1] && between[|between| - 1] in before + between + after;
    TokensLast(head, b);
    forall i | |before + a| <= i < |head| ensures IsSeparator(head[i]) {
      assert head[i] == between[i - |before + a|];
    }
    TokensTrailing(head, |before + a|);
    assert head[..|before + a|] == before + a;
    if before != "" { assert before[|before| - 1] in before + between + after; }
    TokensLast(before, a);
    forall i | 0 <= i < |before| ensures IsSeparator(before[i]) {}
    TokensTrailing(before, 0);
    assert before[..0] == "";
  }
}
