/** How `cms` pairs `-signer` with `-inkey` arguments and attaches `-keyopt` arguments to them. */
module SignerOptions {
  import opened Text

  datatype Operation = NoOperation | Encrypting | Signing | Other

  datatype Opt =
    | Signer(file: string)
    | Inkey(file: string)
    | Keyopt(arg: string)
    | Recip(file: string)
    | Operate(op: Operation)

  /** A node of the parameter list. */
  datatype Param = Param(idx: int, args: seq<string>)

  /** The variables of the option loop. */
  datatype State = State(
    signer: Option<string>, key: Option<string>,
    signers: seq<string>, keys: seq<string>,
    params: seq<Param>, op: Operation, recips: nat)

  const START := State(None, None, [], [], [], NoOperation, 0)

  // ----- the option loop

  /** The index that `-keyopt` computes, -1 if there is no key yet. */
  function KeyIndex(st: State): (i: int) {
    if st.op.Encrypting? then st.recips - 1
    else (if st.key.Some? || st.signer.Some? then 0 else -1) + |st.keys|
  }

  /** Appending an argument to the node for index `i`, which is the last one or a new one. */
  function AddParam(params: seq<Param>, i: int, arg: string): (r: seq<Param>) {
    if params == [] || params[|params| - 1].idx != i then params + [Param(i, [arg])]
    else params[..|params| - 1] + [Param(i, params[|params| - 1].args + [arg])]
  }

  /** One option; nothing if it is a usage error. */
  function Step(st: State, o: Opt): (r: Option<State>) {
    match o
    case Signer(file) =>
      (match st.signer
       case None => Some(st.(signer := Some(file)))
       case Some(s) =>
         var k := if st.key.None? then s else st.key.value;
         Some(st.(signers := st.signers + [s], keys := st.keys + [k], key := None, signer := Some(file))))
    case Inkey(file) =>
      (match st.key
       case None => Some(st.(key := Some(file)))
       case Some(k) =>
         if st.signer.None? then None
         else Some(st.(signers := st.signers + [st.signer.value], keys := st.keys + [k], signer := None,
             key := Some(file))))
    case Keyopt(arg) =>
      var i := KeyIndex(st);
      if i < 0 then None else Some(st.(params := AddParam(st.params, i, arg)))
    case Recip(file) => Some(if st.op.Encrypting? then st.(recips := st.recips + 1) else st)
    case Operate(op) => Some(st.(op := op))
  }

  function Run(st: State, opts: seq<Opt>): (r: Option<State>)
    decreases opts
  {
    if opts == [] then Some(st)
    else match Step(st, opts[0])
         case None => None
         case Some(next) => Run(next, opts[1..])
  }

  /** The signers and keys of a signing operation, after the last signer is appended. */
  function Finish(st: State): (r: Option<(seq<string>, seq<string>)>) {
    if !st.op.Signing? then None
    else if st.key.Some? && st.signer.None? then None
    else
      var (signers, keys) := Flushed(st);
      if signers == [] then None else Some((signers, keys))
  }

  function Flushed(st: State): (r: (seq<string>, seq<string>)) {
    if st.signer.None? then (st.signers, st.keys)
    else (st.signers + [st.signer.value], st.keys + [if st.key.None? then st.signer.value else st.key.value])
  }

  /** The loop over the options and the checks behind it. */
  method Assemble(opts: seq<Opt>) returns (r: Option<(seq<string>, seq<string>, seq<Param>)>)
    ensures r == match Run(START, opts)
                 case None => None
                 case Some(st) => match Finish(st) case None => None case Some((s, k)) => Some((s, k, st.params))
  {
    var signerfile: Option<string>, keyfile: Option<string> := None, None;
    var sksigners: seq<string>, skkeys: seq<string>, keyParams: seq<Param> := [], [], [];
    var operation, encerts := NoOperation, 0;
    var i := 0;
    assert opts[0..] == opts;
    while i < |opts|
      invariant 0 <= i <= |opts| && encerts >= 0
      invariant Run(State(signerfile, keyfile, sksigners, skkeys, keyParams, operation, encerts), opts[i..])
          == Run(START, opts)
    {
      assert opts[i..][0] == opts[i] && opts[i..][1..] == opts[i + 1..];
      match opts[i] {
        case Signer(file) =>
          if signerfile.Some? {
            sksigners := sksigners + [signerfile.value];
            if keyfile.None? { keyfile := signerfile; }
            skkeys := skkeys + [keyfile.value];
            keyfile := None;
          }
          signerfile := Some(file);
        case Inkey(file) =>
          if keyfile.Some? {
            if signerfile.None? { return None; }
            sksigners := sksigners + [signerfile.value];
            signerfile := None;
            skkeys := skkeys + [keyfile.value];
          }
          keyfile := Some(file);
        case Keyopt(arg) =>
          var keyidx := -1;
          if operation.Encrypting? {
            if encerts > 0 { keyidx := keyidx + encerts; }
          } else {
            if keyfile.Some? || signerfile.Some? { keyidx := keyidx + 1; }
            keyidx := keyidx + |skkeys|;
          }
          if keyidx < 0 { return None; }
          ghost var before := keyParams;
          if keyParams == [] || keyParams[|keyParams| - 1].idx != keyidx {
            keyParams := keyParams + [Param(keyidx, [])];
          }
          var last := |keyParams| - 1;
          keyParams := keyParams[last := Param(keyidx, keyParams[last].args + [arg])];
          assert [] + [arg] == [arg];
          assert keyParams == AddParam(before, keyidx, arg);
        case Recip(file) =>
          if operation.Encrypting? { encerts := encerts + 1; }
        case Operate(op) =>
          operation := op;
      }
      i := i + 1;
    }
    if !operation.Signing? { return None; }
    if keyfile.Some? && signerfile.None? { return None; }
    if signerfile.Some? {
      sksigners := sksigners + [signerfile.value];
      if keyfile.None? { keyfile := signerfile; }
      skkeys := skkeys + [keyfile.value];
    }
    if sksigners == [] { return None; }
    return Some((sksigners, skkeys, keyParams));
  }

  /** The search of the signing loop: the arguments for signer `i`. */
  method ParamsFor(params: seq<Param>, i: int) returns (args: seq<string>)
    ensures args == Given(params, i)
  {
    var k := 0;
    assert params[0..] == params;
    while k < |params|
      invariant 0 <= k <= |params|
      invariant Given(params, i) == Given(params[k..], i)
    {
      assert params[k..][1..] == params[k + 1..];
      if params[k].idx == i { return params[k].args; }
      k := k + 1;
    }
    return [];
  }

  function Given(params: seq<Param>, i: int): (args: seq<string>) {
    if params == [] then [] else if params[0].idx == i then params[0].args else Given(params[1..], i)
  }

  // ----- which key belongs to which signer

  datatype Event = S(file: string) | K(file: string)

  /** The `-signer` and `-inkey` options, in order. */
  function Events(opts: seq<Opt>): (r: seq<Event>) {
    if opts == [] then []
    else match opts[0]
         case Signer(file) => [S(file)] + Events(opts[1..])
         case Inkey(file) => [K(file)] + Events(opts[1..])
         case _ => Events(opts[1..])
  }

  datatype Pair = Pair(signer: string, key: Option<string>)

  /** A command line is a list of blocks: a signer, a signer and its key, or a key and its signer. Blocks are
      taken from the left and as long as possible. */
  function Blocks(evs: seq<Event>): (r: Option<seq<Pair>>)
    decreases |evs|
  {
    if evs == [] then Some([])
    else if evs[0].S? then
      if |evs| > 1 && evs[1].K? then Cons(Pair(evs[0].file, Some(evs[1].file)), Blocks(evs[2..]))
      else Cons(Pair(evs[0].file, None), Blocks(evs[1..]))
    else if |evs| > 1 && evs[1].S? then Cons(Pair(evs[1].file, Some(evs[0].file)), Blocks(evs[2..]))
    else None
  }

  function Cons(p: Pair, ps: Option<seq<Pair>>): (r: Option<seq<Pair>>) {
    if ps.None? then None else Some([p] + ps.value)
  }

  function SignersOf(ps: seq<Pair>): (r: seq<string>)
    ensures |r| == |ps| && forall i :: 0 <= i < |ps| ==> r[i] == ps[i].signer
  {
    seq(|ps|, i requires 0 <= i < |ps| => ps[i].signer)
  }

  /** A signer without a key is its own key. */
  function KeysOf(ps: seq<Pair>): (r: seq<string>)
    ensures |r| == |ps|
    ensures forall i :: 0 <= i < |ps| ==> r[i] == if ps[i].key.Some? then ps[i].key.value else ps[i].signer
  {
    seq(|ps|, i requires 0 <= i < |ps| => if ps[i].key.Some? then ps[i].key.value else ps[i].signer)
  }

  /** What is still being assembled, as events to be read again. A complete pair is not. */
  function Backlog(st: State): (r: seq<Event>) {
    match (st.signer, st.key)
    case (None, None) => []
    case (Some(s), None) => [S(s)]
    case (None, Some(k)) => [K(k)]
    case (Some(s), Some(k)) => []
  }

  function Complete(st: State): (r: seq<Pair>) {
    if st.signer.Some? && st.key.Some? then [Pair(st.signer.value, st.key)] else []
  }

  /** The lists that state `st` and the events behind it must lead to. */
  function Expected(st: State, evs: seq<Event>): (r: Option<(seq<string>, seq<string>)>) {
    match Blocks(Backlog(st) + evs)
    case None => None
    case Some(ps) =>
      var all := Complete(st) + ps;
      Some((st.signers + SignersOf(all), st.keys + KeysOf(all)))
  }

  lemma ListCons(signers: seq<string>, keys: seq<string>, p: Pair, ps: seq<Pair>)
    ensures signers + SignersOf([p] + ps) == signers + [p.signer] + SignersOf(ps)
    ensures keys + KeysOf([p] + ps) == keys + [if p.key.Some? then p.key.value else p.signer] + KeysOf(ps)
  {
  }

  /** A pair in front of what is expected. */
  function Shift(signers: seq<string>, keys: seq<string>,
                 ps: Option<seq<Pair>>): (r: Option<(seq<string>, seq<string>)>) {
    if ps.None? then None else Some((signers + SignersOf(ps.value), keys + KeysOf(ps.value)))
  }

  lemma ShiftCons(signers: seq<string>, keys: seq<string>, p: Pair, ps: Option<seq<Pair>>)
    ensures Shift(signers, keys, Cons(p, ps))
        == Shift(signers + [p.signer], keys + [if p.key.Some? then p.key.value else p.signer], ps)
  {
    if ps.Some? { ListCons(signers, keys, p, ps.value); }
  }

  lemma ExpectedIs(st: State, evs: seq<Event>)
    ensures Expected(st, evs) == Shift(st.signers, st.keys,
      if Complete(st) == [] then Blocks(Backlog(st) + evs) else Cons(Complete(st)[0], Blocks(evs)))
  {
    var ps := Blocks(Backlog(st) + evs);
    if ps.Some? && Complete(st) == [] { assert [] + ps.value == ps.value; }
    if Complete(st) != [] { assert [] + evs == evs; }
  }

  /** An option that meets a finished pair, or nothing, starts the next block. */
  lemma StepFresh(st: State, o: Opt, evs: seq<Event>)
    requires (o.Signer? || o.Inkey?) && Backlog(st) == []
    ensures var e := if o.Signer? then S(o.file) else K(o.file);
      Step(st, o).Some? && Expected(st, [e] + evs) == Expected(Step(st, o).value, evs)
  {
    var e := if o.Signer? then S(o.file) else K(o.file);
    var next := Step(st, o).value;
    ExpectedIs(st, [e] + evs);
    ExpectedIs(next, evs);
    assert [] + ([e] + evs) == [e] + evs;
    if Complete(st) != [] { ShiftCons(st.signers, st.keys, Complete(st)[0], Blocks([e] + evs)); }
  }

  /** An option that meets half a block completes it, or starts the next one, or is an error. */
  lemma StepHalf(st: State, o: Opt, evs: seq<Event>)
    requires (o.Signer? || o.Inkey?) && Backlog(st) != []
    ensures var e := if o.Signer? then S(o.file) else K(o.file);
      Expected(st, [e] + evs) == match Step(st, o) case None => None case Some(next) => Expected(next, evs)
  {
    var e := if o.Signer? then S(o.file) else K(o.file);
    var all := Backlog(st) + ([e] + evs);
    assert all[0] == Backlog(st)[0] && all[1] == e && all[1..] == [e] + evs && all[2..] == evs;
    ExpectedIs(st, [e] + evs);
    if Step(st, o).Some? { ExpectedIs(Step(st, o).value, evs); }
    if st.signer.Some? && o.Signer? { ShiftCons(st.signers, st.keys, Pair(st.signer.value, None), Blocks([e] + evs)); }
  }

  /** One signer or key option does not change what is expected, or is the error that was expected. */
  lemma StepExpected(st: State, o: Opt, evs: seq<Event>)
    requires o.Signer? || o.Inkey?
    ensures var e := if o.Signer? then S(o.file) else K(o.file);
      Expected(st, [e] + evs) == match Step(st, o) case None => None case Some(next) => Expected(next, evs)
  {
    if Backlog(st) == [] { StepFresh(st, o, evs); } else { StepHalf(st, o, evs); }
  }

  /** Other options leave the assembly alone. */
  lemma StepOther(st: State, o: Opt, evs: seq<Event>)
    requires !o.Signer? && !o.Inkey? && Step(st, o).Some?
    ensures var next := Step(st, o).value;
      Backlog(next) == Backlog(st) && Complete(next) == Complete(st) && next.keys == st.keys
    ensures Expected(st, evs) == Expected(Step(st, o).value, evs)
  {
  }

  /** The first of some options does not change what is expected, or is the error that was expected. */
  lemma StepEvents(st: State, opts: seq<Opt>)
    requires opts != [] && (opts[0].Signer? || opts[0].Inkey? || Step(st, opts[0]).Some?)
    ensures Expected(st, Events(opts))
        == match Step(st, opts[0]) case None => None case Some(next) => Expected(next, Events(opts[1..]))
  {
    var o, evs := opts[0], Events(opts[1..]);
    if o.Signer? || o.Inkey? { StepExpected(st, o, evs); } else { StepOther(st, o, evs); }
  }

  /** Options that were accepted lead to the expected lists. */
  lemma {:induction false} RunExpected(st: State, opts: seq<Opt>)
    requires Run(st, opts).Some?
    ensures Expected(st, Events(opts)) == Expected(Run(st, opts).value, [])
    decreases opts
  {
    if opts == [] {
    } else {
      StepEvents(st, opts);
      RunExpected(Step(st, opts[0]).value, opts[1..]);
    }
  }

  /** With nothing more to come, what is expected is what the program appends at the end. */
  lemma ExpectedAtEnd(st: State)
    ensures Expected(st, []) == if st.key.Some? && st.signer.None? then None else Some(Flushed(st))
  {
    var none: seq<Pair> := [];
    var back := Backlog(st) + [];
    assert back == Backlog(st);
    assert SignersOf(none) == [] && KeysOf(none) == [] && none + none == none;
    assert st.signers + [] == st.signers && st.keys + [] == st.keys;
    if st.signer.Some? {
      var p := Pair(st.signer.value, st.key);
      ListCons(st.signers, st.keys, p, none);
      assert [p] + none == [p] && none + [p] == [p];
      if st.key.None? {
        assert back[1..] == [];
        assert Blocks(back) == Some([p]);
      }
      var one := Flushed(st);
      assert one.0 + [] == one.0 && one.1 + [] == one.1;
    }
  }

  /** An accepted signing operation signs with the signers of the blocks, each with its block's key or, if it
      has none, with its own file. */
  lemma AcceptedPairs(opts: seq<Opt>)
    requires Run(START, opts).Some? && Finish(Run(START, opts).value).Some?
    ensures Blocks(Events(opts)).Some? && Blocks(Events(opts)).value != []
    ensures var ps := Blocks(Events(opts)).value; Finish(Run(START, opts).value).value == (SignersOf(ps), KeysOf(ps))
  {
    RunExpected(START, opts);
    ExpectedAtEnd(Run(START, opts).value);
    assert [] + Events(opts) == Events(opts);
    if Blocks(Events(opts)).Some? {
      var ps := Blocks(Events(opts)).value;
      assert [] + ps == ps && [] + SignersOf(ps) == SignersOf(ps) && [] + KeysOf(ps) == KeysOf(ps);
    }
  }

  // ----- blocks use every argument once

  function SignerArgs(evs: seq<Event>): (r: seq<string>) {
    if evs == [] then [] else if evs[0].S? then [evs[0].file] + SignerArgs(evs[1..]) else SignerArgs(evs[1..])
  }

  function KeyArgs(evs: seq<Event>): (r: seq<string>) {
    if evs == [] then [] else if evs[0].K? then [evs[0].file] + KeyArgs(evs[1..]) else KeyArgs(evs[1..])
  }

  /** The keys of those pairs that have one. */
  function OwnKeys(ps: seq<Pair>): (r: seq<string>) {
    if ps == [] then [] else if ps[0].key.Some? then [ps[0].key.value] + OwnKeys(ps[1..]) else OwnKeys(ps[1..])
  }

  lemma ArgsOfTwo(evs: seq<Event>)
    requires |evs| > 1 && evs[0].S? != evs[1].S?
    ensures SignerArgs(evs) == [if evs[0].S? then evs[0].file else evs[1].file] + SignerArgs(evs[2..])
    ensures KeyArgs(evs) == [if evs[0].K? then evs[0].file else evs[1].file] + KeyArgs(evs[2..])
  {
    var rest := evs[1..];
    assert rest[0] == evs[1] && rest[1..] == evs[2..];
    assert SignerArgs(rest) == if rest[0].S? then [rest[0].file] + SignerArgs(evs[2..]) else SignerArgs(evs[2..]);
    assert KeyArgs(rest) == if rest[0].K? then [rest[0].file] + KeyArgs(evs[2..]) else KeyArgs(evs[2..]);
  }

  lemma UseCons(p: Pair, ps: seq<Pair>)
    ensures SignersOf([p] + ps) == [p.signer] + SignersOf(ps)
    ensures OwnKeys([p] + ps) == if p.key.Some? then [p.key.value] + OwnKeys(ps) else OwnKeys(ps)
  {
    assert ([p] + ps)[1..] == ps;
  }

  /** The signers of the blocks are the `-signer` arguments in order, and their keys are the `-inkey`
      arguments in order, each used exactly once. */
  lemma {:induction false} BlocksUseAll(evs: seq<Event>)
    requires Blocks(evs).Some?
    ensures SignersOf(Blocks(evs).value) == SignerArgs(evs)
    ensures OwnKeys(Blocks(evs).value) == KeyArgs(evs)
    decreases |evs|
  {
    if evs == [] {
    } else {
      if |evs| > 1 && evs[0].S? != evs[1].S? {
        ArgsOfTwo(evs);
        BlocksUseAll(evs[2..]);
        UseCons(Blocks(evs).value[0], Blocks(evs[2..]).value);
      } else {
        BlocksUseAll(evs[1..]);
        UseCons(Blocks(evs).value[0], Blocks(evs[1..]).value);
      }
    }
  }

  // ----- when the blocks exist

  /** A choice of side, -1 or 1, for every key such that its neighbour there is a signer, and no two keys
      choose the same signer. */
  ghost predicate Matching(evs: seq<Event>, side: seq<int>) {
    && |side| == |evs|
    && (forall k :: 0 <= k < |evs| && evs[k].K? ==>
          side[k] in {-1, 1} && 0 <= k + side[k] < |evs| && evs[k + side[k]].S?)
    && (forall k, l :: 0 <= k < l < |evs| && evs[k].K? && evs[l].K? ==> k + side[k] != l + side[l])
  }

  /** A matching restricted to what lies behind the first `n` events. */
  lemma MatchingTail(evs: seq<Event>, side: seq<int>, n: nat)
    requires Matching(evs, side) && n <= |evs|
    requires n < |evs| && evs[n].K? ==> side[n] == 1
    ensures Matching(evs[n..], side[n..])
  {
    var e, d := evs[n..], side[n..];
    forall k | 0 <= k < |e| && e[k].K? ensures d[k] in {-1, 1} && 0 <= k + d[k] < |e| && e[k + d[k]].S? {
      assert e[k] == evs[n + k] && d[k] == side[n + k];
      assert e[k + d[k]] == evs[n + k + side[n + k]];
    }
    forall k, l | 0 <= k < l < |e| && e[k].K? && e[l].K? ensures k + d[k] != l + d[l] {
      assert e[k] == evs[n + k] && d[k] == side[n + k] && e[l] == evs[n + l] && d[l] == side[n + l];
    }
  }

  lemma {:induction false} MatchingBlocks(evs: seq<Event>, side: seq<int>)
    requires Matching(evs, side)
    ensures Blocks(evs).Some?
    decreases |evs|
  {
    if evs == [] {
    } else {
      var n := if |evs| > 1 && evs[0].S? != evs[1].S? then 2 else 1;
      assert evs[0].K? ==> side[0] == 1 && n == 2;
      if n < |evs| && evs[n].K? {
        assert evs[0].K? ==> 0 + side[0] != n + side[n];
      }
      MatchingTail(evs, side, n);
      MatchingBlocks(evs[n..], side[n..]);
    }
  }

  /** Putting the events of one block in front of a matching. */
  lemma MatchingFront(front: seq<Event>, d: seq<int>, evs: seq<Event>, side: seq<int>)
    requires Matching(front, d) && Matching(evs, side)
    ensures Matching(front + evs, d + side)
  {
    var e, s := front + evs, d + side;
    var n := |front|;
    forall k | 0 <= k < |e| && e[k].K?
      ensures s[k] in {-1, 1} && 0 <= k + s[k] < |e| && e[k + s[k]].S? && (k + s[k] < n <==> k < n)
    {
      if k < n {
        assert e[k] == front[k] && s[k] == d[k] && e[k + s[k]] == front[k + d[k]];
      } else {
        assert e[k] == evs[k - n] && s[k] == side[k - n] && e[k + s[k]] == evs[k - n + side[k - n]];
      }
    }
    forall k, l | 0 <= k < l < |e| && e[k].K? && e[l].K? ensures k + s[k] != l + s[l] {
      if l < n {
        assert e[k] == front[k] && e[l] == front[l] && s[k] == d[k] && s[l] == d[l];
      } else if k >= n {
        assert e[k] == evs[k - n] && e[l] == evs[l - n] && s[k] == side[k - n] && s[l] == side[l - n];
      }
    }
  }

  lemma {:induction false} BlocksMatching(evs: seq<Event>) returns (side: seq<int>)
    requires Blocks(evs).Some?
    ensures Matching(evs, side)
    decreases |evs|
  {
    side := [];
    if evs == [] {
    } else {
      var n := if |evs| > 1 && evs[0].S? != evs[1].S? then 2 else 1;
      side := BlocksMatching(evs[n..]);
      var d := if n == 1 then [0] else if evs[0].S? then [0, -1] else [1, 0];
      assert Matching(evs[..n], d);
      MatchingFront(evs[..n], d, evs[n..], side);
      assert evs == evs[..n] + evs[n..];
      side := d + side;
    }
  }

  /** Taking blocks from the left misses nothing: the options read as blocks exactly when every `-inkey` can
      be given a `-signer` of its own next to it. */
  lemma BlocksExactly(evs: seq<Event>)
    ensures Blocks(evs).Some? <==> exists side :: Matching(evs, side)
  {
    if Blocks(evs).Some? {
      var side := BlocksMatching(evs);
    }
    if exists side :: Matching(evs, side) {
      var side :| Matching(evs, side);
      MatchingBlocks(evs, side);
    }
  }

  // ----- key options

  /** The operation in force after some options. */
  function OpOf(opts: seq<Opt>): (op: Operation) {
    if opts == [] then NoOperation
    else if opts[|opts| - 1].Operate? then opts[|opts| - 1].op
    else OpOf(opts[..|opts| - 1])
  }

  /** The recipients given while encrypting. */
  function RecipsOf(opts: seq<Opt>): (n: nat) {
    if opts == [] then 0
    else
      var init := opts[..|opts| - 1];
      RecipsOf(init) + if opts[|opts| - 1].Recip? && OpOf(init).Encrypting? then 1 else 0
  }

  /** How many blocks have been started; a key that waits for its signer has started one. */
  function Begun(evs: seq<Event>): (n: nat)
    ensures n == 0 <==> evs == []
    decreases |evs|
  {
    if evs == [] then 0
    else if |evs| > 1 && evs[0].S? != evs[1].S? then 1 + Begun(evs[2..])
    else 1 + Begun(evs[1..])
  }

  lemma {:induction false} RunLast(st: State, opts: seq<Opt>)
    requires opts != []
    ensures Run(st, opts)
        == match Run(st, opts[..|opts| - 1]) case None => None case Some(mid) => Step(mid, opts[|opts| - 1])
    decreases opts
  {
    if |opts| == 1 {
      assert opts[..0] == [] && opts[1..] == [];
    } else {
      assert opts[..|opts| - 1][0] == opts[0];
      assert opts[..|opts| - 1][1..] == opts[1..][..|opts[1..]| - 1];
      if Step(st, opts[0]).Some? { RunLast(Step(st, opts[0]).value, opts[1..]); }
    }
  }

  /** The blocks started by what a state holds and what is still to come. */
  function Started(st: State, evs: seq<Event>): (n: nat) {
    |st.keys| + |Complete(st)| + Begun(Backlog(st) + evs)
  }

  lemma StepStarted(st: State, o: Opt, evs: seq<Event>)
    requires (o.Signer? || o.Inkey?) && Step(st, o).Some?
    ensures var e := if o.Signer? then S(o.file) else K(o.file);
      Started(st, [e] + evs) == Started(Step(st, o).value, evs)
  {
    var e := if o.Signer? then S(o.file) else K(o.file);
    assert [] + evs == evs && [] + ([e] + evs) == [e] + evs;
    if Backlog(st) != [] { BegunSecond(Backlog(st)[0], e, evs); }
  }

  lemma BegunSecond(a: Event, b: Event, evs: seq<Event>)
    ensures Begun([a] + ([b] + evs)) == 1 + if a.S? != b.S? then Begun(evs) else Begun([b] + evs)
  {
    var all := [a] + ([b] + evs);
    assert all[0] == a && all[1] == b && all[1..] == [b] + evs && all[2..] == evs;
  }

  lemma {:induction false} RunStarted(st: State, opts: seq<Opt>)
    requires Run(st, opts).Some?
    ensures Started(st, Events(opts)) == Started(Run(st, opts).value, [])
    decreases opts
  {
    if opts == [] {
    } else {
      if opts[0].Signer? || opts[0].Inkey? {
        StepStarted(st, opts[0], Events(opts[1..]));
      } else {
        StepOther(st, opts[0], Events(opts[1..]));
      }
      RunStarted(Step(st, opts[0]).value, opts[1..]);
    }
  }

  lemma {:induction false} RunModes(opts: seq<Opt>)
    requires Run(START, opts).Some?
    ensures var st := Run(START, opts).value; st.op == OpOf(opts) && st.recips == RecipsOf(opts)
  {
    if opts == [] {
    } else {
      RunLast(START, opts);
      RunModes(opts[..|opts| - 1]);
    }
  }

  /** The key index that `-keyopt` means: the last recipient, or the block being assembled. */
  function MeantIndex(opts: seq<Opt>): (i: int) {
    if OpOf(opts).Encrypting? then RecipsOf(opts) - 1 else Begun(Events(opts)) - 1
  }

  lemma KeyIndexMeant(opts: seq<Opt>)
    requires Run(START, opts).Some?
    ensures KeyIndex(Run(START, opts).value) == MeantIndex(opts)
  {
    var st := Run(START, opts).value;
    RunModes(opts);
    RunStarted(START, opts);
    assert [] + Events(opts) == Events(opts);
    assert Backlog(st) + [] == Backlog(st);
    if Backlog(st) != [] { assert Backlog(st)[1..] == []; }
  }

  /** Every `-keyopt` comes when there is a key to attach it to. */
  ghost predicate KeyoptsPlaced(opts: seq<Opt>) {
    forall t :: 0 <= t < |opts| && opts[t].Keyopt? ==> MeantIndex(opts[..t]) >= 0
  }

  lemma {:induction false} RunPlaced(opts: seq<Opt>)
    requires Run(START, opts).Some?
    ensures KeyoptsPlaced(opts)
  {
    if opts == [] {
    } else {
      var init := opts[..|opts| - 1];
      RunLast(START, opts);
      RunPlaced(init);
      KeyIndexMeant(init);
      forall t | 0 <= t < |opts| && opts[t].Keyopt? ensures MeantIndex(opts[..t]) >= 0 {
        if t < |init| { assert opts[t] == init[t] && opts[..t] == init[..t]; }
      }
    }
  }

  lemma RunSnoc(pre: seq<Opt>, o: Opt)
    requires Run(START, pre).Some?
    ensures Run(START, pre + [o]) == Step(Run(START, pre).value, o)
  {
    RunLast(START, pre + [o]);
    assert (pre + [o])[..|pre|] == pre;
  }

  /** A `-keyopt` that comes when there is a key is accepted, and so are recipients and operations. */
  lemma PlacedAccepted(pre: seq<Opt>, o: Opt, rest: seq<Opt>)
    requires Run(START, pre).Some? && KeyoptsPlaced(pre + [o] + rest) && !o.Signer? && !o.Inkey?
    ensures Step(Run(START, pre).value, o).Some?
  {
    if o.Keyopt? {
      var all := pre + [o] + rest;
      assert all[|pre|] == o && all[..|pre|] == pre;
      KeyIndexMeant(pre);
    }
  }

  /** Well-placed options are refused only for their `-inkey` arguments. */
  lemma {:induction false} RunRefused(pre: seq<Opt>, opts: seq<Opt>)
    requires Run(START, pre).Some? && Run(START, pre + opts).None? && KeyoptsPlaced(pre + opts)
    ensures Expected(Run(START, pre).value, Events(opts)).None?
    decreases opts
  {
    assert opts == [] ==> pre + opts == pre;
    if opts == [] {
    } else {
      var st, o, rest := Run(START, pre).value, opts[0], opts[1..];
      assert pre + opts == pre + [o] + rest;
      RunSnoc(pre, o);
      if !o.Signer? && !o.Inkey? { PlacedAccepted(pre, o, rest); }
      StepEvents(st, opts);
      if Step(st, o).Some? { RunRefused(pre + [o], rest); }
    }
  }

  lemma RefusedBlocks(opts: seq<Opt>)
    requires Run(START, opts).None? && KeyoptsPlaced(opts)
    ensures Blocks(Events(opts)).None?
  {
    assert [] + opts == opts && [] + Events(opts) == Events(opts);
    RunRefused([], opts);
  }

  /** Accepted options end in a signer list exactly when the blocks are complete and there is one. */
  lemma FinishExactly(opts: seq<Opt>, st: State)
    requires OpOf(opts).Signing? && Run(START, opts) == Some(st)
    ensures Finish(st).Some? <==> Blocks(Events(opts)).Some? && SignerArgs(Events(opts)) != []
  {
    var evs := Events(opts);
    assert [] + evs == evs;
    RunModes(opts);
    RunExpected(START, opts);
    ExpectedAtEnd(st);
    if Blocks(evs).Some? {
      BlocksUseAll(evs);
      ExpectedSigners(evs);
    }
  }

  lemma ExpectedSigners(evs: seq<Event>)
    requires Blocks(evs).Some?
    ensures Expected(START, evs).Some? && Expected(START, evs).value.0 == SignersOf(Blocks(evs).value)
  {
    assert Backlog(START) + evs == evs;
    NothingComplete(Blocks(evs).value);
  }

  lemma NothingComplete(ps: seq<Pair>)
    ensures START.signers + SignersOf(Complete(START) + ps) == SignersOf(ps)
  {
    assert Complete(START) + ps == ps;
  }

  /** A signing operation accepts its options exactly when every `-inkey` has a `-signer` of its own next to
      it, there is a signer, and every `-keyopt` comes when there is a key to attach it to. */
  lemma AcceptedExactly(opts: seq<Opt>)
    requires OpOf(opts).Signing?
    ensures (Run(START, opts).Some? && Finish(Run(START, opts).value).Some?)
       <==> ((exists side :: Matching(Events(opts), side)) && SignerArgs(Events(opts)) != [] && KeyoptsPlaced(opts))
  {
    BlocksExactly(Events(opts));
    if Run(START, opts).Some? {
      RunPlaced(opts);
      FinishExactly(opts, Run(START, opts).value);
    } else if KeyoptsPlaced(opts) {
      RefusedBlocks(opts);
    }
  }

  /** The `-keyopt` arguments given while block `i` was being assembled, in order. */
  function KeyoptsFor(opts: seq<Opt>, i: int): (r: seq<string>) {
    if opts == [] then []
    else
      var init, o := opts[..|opts| - 1], opts[|opts| - 1];
      KeyoptsFor(init, i) + if o.Keyopt? && Begun(Events(init)) == i + 1 then [o.arg] else []
  }

  // ----- where an argument ends up in the parameter list

  lemma GivenCons(p: Param, params: seq<Param>, j: int)
    ensures Given([p] + params, j) == if p.idx == j then p.args else Given(params, j)
  {
    assert ([p] + params)[1..] == params;
  }

  lemma AddCons(p: Param, params: seq<Param>, i: int, arg: string)
    requires params != [] || p.idx != i
    ensures AddParam([p] + params, i, arg) == [p] + AddParam(params, i, arg)
  {
    if params != [] {
      var all, last := [p] + params, params[|params| - 1];
      assert all[|all| - 1] == last && all[..|all| - 1] == [p] + params[..|params| - 1];
    }
  }

  lemma GivenOne(args: seq<string>, i: int, arg: string, j: int)
    ensures AddParam([Param(i, args)], i, arg) == [Param(i, args + [arg])]
    ensures Given([Param(i, args + [arg])], j) == if i == j then args + [arg] else []
    ensures Given([Param(i, args)], j) == if i == j then args else []
  {
    var p := [Param(i, args)];
    assert p[..0] == [] && p[1..] == [] && [Param(i, args + [arg])][1..] == [];
  }

  /** Nodes for indices below `n` come last and in strictly increasing order. */
  ghost predicate Ordered(params: seq<Param>, n: int) {
    forall k, l :: 0 <= k < l < |params| ==> params[k].idx >= n || params[k].idx < params[l].idx < n
  }

  /** Index `i` may be added to the list without upsetting that. */
  ghost predicate Addable(params: seq<Param>, n: int, i: int) {
    params != [] ==> var last := params[|params| - 1].idx; last >= n || last <= i < n
  }

  lemma AddOrder(p: Param, rest: seq<Param>, n: int, i: int, arg: string)
    requires Ordered([p] + rest, n) && Addable([p] + rest, n, i) && (rest == [] ==> p.idx != i)
    requires Ordered(AddParam(rest, i, arg), n)
    ensures Ordered([p] + AddParam(rest, i, arg), n)
  {
    var all, added := [p] + rest, AddParam(rest, i, arg);
    assert all[0] == p && (rest != [] ==> all[|all| - 1] == rest[|rest| - 1]);
    forall k | 0 <= k < |added| ensures p.idx >= n || p.idx < added[k].idx < n {
      if k < |rest| {
        assert all[k + 1] == rest[k];
        assert added[k].idx == rest[k].idx;
      } else {
        assert added[k].idx == i;
      }
    }
  }

  lemma OrderedTail(p: Param, rest: seq<Param>, n: int)
    requires Ordered([p] + rest, n)
    ensures Ordered(rest, n)
  {
    forall k, l | 0 <= k < l < |rest| ensures rest[k].idx >= n || rest[k].idx < rest[l].idx < n {
      assert ([p] + rest)[k + 1] == rest[k] && ([p] + rest)[l + 1] == rest[l];
    }
  }

  /** The tail of a list to which an index may be added. */
  lemma AddableTail(p: Param, rest: seq<Param>, n: int, i: int)
    requires Ordered([p] + rest, n) && Addable([p] + rest, n, i)
    ensures Ordered(rest, n) && Addable(rest, n, i)
    ensures rest != [] && p.idx < n ==> p.idx < i
  {
    var all := [p] + rest;
    OrderedTail(p, rest, n);
    if rest != [] { assert all[0] == p && all[|all| - 1] == rest[|rest| - 1]; }
  }

  lemma {:induction false} OrderedAdd(params: seq<Param>, n: int, i: int, arg: string)
    requires Ordered(params, n) && Addable(params, n, i)
    ensures Ordered(AddParam(params, i, arg), n)
    decreases params
  {
    if params == [] {
    } else {
      var p, rest := params[0], params[1..];
      assert params == [p] + rest;
      if rest == [] && p.idx == i {
        GivenOne(p.args, i, arg, i);
      } else {
        AddableTail(p, rest, n, i);
        OrderedAdd(rest, n, i, arg);
        AddCons(p, rest, i, arg);
        AddOrder(p, rest, n, i, arg);
      }
    }
  }

  /** Adding an argument adds it to what is found for its index and changes nothing else below `n`. */
  lemma {:induction false} GivenAdd(params: seq<Param>, n: int, i: int, arg: string, j: int)
    requires Ordered(params, n) && Addable(params, n, i) && j < n
    ensures Given(AddParam(params, i, arg), j) == if i == j then Given(params, j) + [arg] else Given(params, j)
    decreases params
  {
    if params == [] {
      assert [] + [Param(i, [arg])] == [Param(i, [arg])] && [Param(i, [arg])][1..] == [] && [] + [arg] == [arg];
    } else {
      var p, rest := params[0], params[1..];
      assert params == [p] + rest;
      if rest == [] && p.idx == i {
        GivenOne(p.args, i, arg, j);
      } else {
        AddableTail(p, rest, n, i);
        AddCons(p, rest, i, arg);
        GivenCons(p, rest, j);
        GivenCons(p, AddParam(rest, i, arg), j);
        if p.idx != j { GivenAdd(rest, n, i, arg, j); }
      }
    }
  }

  /** What is found for an index stays there. */
  lemma {:induction false} GivenStays(params: seq<Param>, i: int, arg: string, j: int, x: string)
    requires x in Given(params, j)
    ensures x in Given(AddParam(params, i, arg), j)
    decreases params
  {
    var p, rest := params[0], params[1..];
    assert params == [p] + rest;
    if rest == [] && p.idx == i {
      GivenOne(p.args, i, arg, j);
    } else {
      AddCons(p, rest, i, arg);
      GivenCons(p, rest, j);
      GivenCons(p, AddParam(rest, i, arg), j);
      if p.idx != j { GivenStays(rest, i, arg, j, x); }
    }
  }

  /** What is found for an index was there or has just been added. */
  lemma {:induction false} GivenSource(params: seq<Param>, i: int, arg: string, j: int, x: string)
    requires x in Given(AddParam(params, i, arg), j)
    ensures x in Given(params, j) || (x == arg && i == j)
    decreases params
  {
    if params == [] {
      assert [] + [Param(i, [arg])] == [Param(i, [arg])] && [Param(i, [arg])][1..] == [];
    } else {
      var p, rest := params[0], params[1..];
      assert params == [p] + rest;
      if rest == [] && p.idx == i {
        GivenOne(p.args, i, arg, j);
      } else {
        AddCons(p, rest, i, arg);
        GivenCons(p, rest, j);
        GivenCons(p, AddParam(rest, i, arg), j);
        if p.idx != j { GivenSource(rest, i, arg, j, x); }
      }
    }
  }

  // ----- how blocks grow

  /** Events only add blocks. */
  lemma {:induction false} BegunSnoc(evs: seq<Event>, e: Event)
    ensures Begun(evs) <= Begun(evs + [e]) <= Begun(evs) + 1
    decreases |evs|
  {
    var all := evs + [e];
    if evs != [] {
      if |evs| > 1 && evs[0].S? != evs[1].S? {
        assert all[2..] == evs[2..] + [e];
        BegunSnoc(evs[2..], e);
      } else if |evs| > 1 {
        assert all[1..] == evs[1..] + [e];
        BegunSnoc(evs[1..], e);
      } else {
        assert all[1..] == [e] && evs[1..] == [] && all[2..] == [] && [e][1..] == [];
      }
    } else {
      assert all == [e] && [e][1..] == [];
    }
  }

  lemma {:induction false} EventsLast(opts: seq<Opt>)
    requires opts != []
    ensures var init, o := Events(opts[..|opts| - 1]), opts[|opts| - 1];
      Events(opts) == init + (if o.Signer? then [S(o.file)] else if o.Inkey? then [K(o.file)] else [])
    decreases opts
  {
    if |opts| == 1 {
      assert opts[1..] == [] && opts[..0] == [];
    } else {
      assert opts[..|opts| - 1][0] == opts[0];
      assert opts[..|opts| - 1][1..] == opts[1..][..|opts[1..]| - 1];
      EventsLast(opts[1..]);
    }
  }

  /** The blocks started by some options. */
  function Block(opts: seq<Opt>): (n: nat) {
    Begun(Events(opts))
  }

  lemma BlockLast(opts: seq<Opt>)
    requires opts != []
    ensures Block(opts[..|opts| - 1]) <= Block(opts)
    ensures !opts[|opts| - 1].Signer? && !opts[|opts| - 1].Inkey? ==> Block(opts) == Block(opts[..|opts| - 1])
  {
    var init, o := opts[..|opts| - 1], opts[|opts| - 1];
    EventsLast(opts);
    if o.Signer? {
      BegunSnoc(Events(init), S(o.file));
    } else if o.Inkey? {
      BegunSnoc(Events(init), K(o.file));
    } else {
      assert Events(init) + [] == Events(init);
    }
  }

  lemma {:induction false} BlockPrefix(opts: seq<Opt>, t: nat)
    requires t <= |opts|
    ensures Block(opts[..t]) <= Block(opts)
  {
    if t == |opts| {
      assert opts[..t] == opts;
    } else {
      BlockLast(opts);
      BlockPrefix(opts[..|opts| - 1], t);
      assert opts[..|opts| - 1][..t] == opts[..t];
    }
  }

  lemma {:induction false} RunPrefix(opts: seq<Opt>, t: nat)
    requires t <= |opts| && Run(START, opts).Some?
    ensures Run(START, opts[..t]).Some?
  {
    if t == |opts| {
      assert opts[..t] == opts;
    } else {
      RunLast(START, opts);
      RunPrefix(opts[..|opts| - 1], t);
      assert opts[..|opts| - 1][..t] == opts[..t];
    }
  }

  // ----- arguments that are filed right

  /** A `-keyopt` at `t` is filed for the block being assembled. One that comes while encrypting is filed by
      recipients instead: that is the same if as many recipients as blocks have come, and it does no harm if no
      block has come and the recipient's index is beyond the `n` signers. */
  ghost predicate AlignedAt(opts: seq<Opt>, n: nat, t: nat)
    requires t < |opts|
  {
    OpOf(opts[..t]).Encrypting? ==>
      var b, r := Block(opts[..t]), RecipsOf(opts[..t]);
      r == b || (b == 0 && r > n)
  }

  ghost predicate Aligned(opts: seq<Opt>, n: nat) {
    forall t :: 0 <= t < |opts| && opts[t].Keyopt? ==> AlignedAt(opts, n, t)
  }

  /** The parameter list holds, for every signer below `n`, the arguments given for its block. */
  ghost predicate Filed(opts: seq<Opt>, n: nat, params: seq<Param>) {
    && Ordered(params, n)
    && (params != [] ==> params[|params| - 1].idx >= n || 0 <= params[|params| - 1].idx < Block(opts))
    && forall i :: 0 <= i < n ==> Given(params, i) == KeyoptsFor(opts, i)
  }

  lemma FiledOther(opts: seq<Opt>, n: nat, params: seq<Param>)
    requires opts != [] && Filed(opts[..|opts| - 1], n, params) && !opts[|opts| - 1].Keyopt?
    ensures Filed(opts, n, params)
  {
    BlockLast(opts);
    forall i ensures KeyoptsFor(opts, i) == KeyoptsFor(opts[..|opts| - 1], i) {}
  }

  lemma FiledKeyopt(opts: seq<Opt>, n: nat, params: seq<Param>, at: int)
    requires opts != [] && Filed(opts[..|opts| - 1], n, params) && opts[|opts| - 1].Keyopt?
    requires var b := Block(opts[..|opts| - 1]); b <= n && (at == b - 1 >= 0 || (b == 0 && at >= n))
    ensures Filed(opts, n, AddParam(params, at, opts[|opts| - 1].arg))
  {
    var init, o := opts[..|opts| - 1], opts[|opts| - 1];
    BlockLast(opts);
    var added := AddParam(params, at, o.arg);
    assert added[|added| - 1].idx == at;
    OrderedAdd(params, n, at, o.arg);
    forall i | 0 <= i < n ensures Given(added, i) == KeyoptsFor(opts, i) {
      GivenAdd(params, n, at, o.arg, i);
    }
  }

  lemma AlignedPrefix(opts: seq<Opt>, n: nat)
    requires opts != [] && Aligned(opts, n)
    ensures Aligned(opts[..|opts| - 1], n)
  {
    var init := opts[..|opts| - 1];
    forall t | 0 <= t < |init| && init[t].Keyopt? ensures AlignedAt(init, n, t) {
      assert init[t] == opts[t] && init[..t] == opts[..t];
      assert AlignedAt(opts, n, t);
    }
  }

  /** One more option, with the index that a `-keyopt` among them computes. */
  lemma FiledStep(opts: seq<Opt>, n: nat, st: State)
    requires opts != [] && Run(START, opts[..|opts| - 1]) == Some(st) && Step(st, opts[|opts| - 1]).Some?
    requires Filed(opts[..|opts| - 1], n, st.params) && Block(opts[..|opts| - 1]) <= n
    requires opts[|opts| - 1].Keyopt? ==> AlignedAt(opts, n, |opts| - 1)
    ensures Filed(opts, n, Step(st, opts[|opts| - 1]).value.params)
  {
    if opts[|opts| - 1].Keyopt? {
      KeyIndexMeant(opts[..|opts| - 1]);
      FiledKeyopt(opts, n, st.params, KeyIndex(st));
    } else {
      FiledOther(opts, n, st.params);
    }
  }

  lemma {:induction false} AlignedFiled(opts: seq<Opt>, n: nat)
    requires Run(START, opts).Some? && Aligned(opts, n) && Block(opts) <= n
    ensures Filed(opts, n, Run(START, opts).value.params)
  {
    if opts == [] {
    } else {
      RunLast(START, opts);
      BlockLast(opts);
      AlignedPrefix(opts, n);
      AlignedFiled(opts[..|opts| - 1], n);
      FiledStep(opts, n, Run(START, opts[..|opts| - 1]).value);
    }
  }

  // ----- and arguments that are not

  /** What is found for an index was given when that was the index meant. */
  lemma {:induction false} ArgSource(opts: seq<Opt>, i: int, x: string) returns (s: nat)
    requires Run(START, opts).Some? && x in Given(Run(START, opts).value.params, i)
    ensures s < |opts| && opts[s] == Keyopt(x) && MeantIndex(opts[..s]) == i
  {
    s := 0;
    if opts == [] {
    } else {
      var init, o := opts[..|opts| - 1], opts[|opts| - 1];
      RunLast(START, opts);
      var st := Run(START, init).value;
      if o.Keyopt? { GivenSource(st.params, KeyIndex(st), o.arg, i, x); }
      if x in Given(st.params, i) {
        s := ArgSource(init, i, x);
        assert init[s] == opts[s] && init[..s] == opts[..s];
      } else {
        KeyIndexMeant(init);
        s := |init|;
      }
    }
  }

  /** What was given for a block came while it was being assembled, and all that came then was given for it. */
  lemma {:induction false} BlockSource(opts: seq<Opt>, i: int, x: string) returns (s: nat)
    requires x in KeyoptsFor(opts, i)
    ensures s < |opts| && opts[s] == Keyopt(x) && Block(opts[..s]) == i + 1
  {
    var init := opts[..|opts| - 1];
    if x in KeyoptsFor(init, i) {
      s := BlockSource(init, i, x);
      assert init[s] == opts[s] && init[..s] == opts[..s];
    } else {
      s := |init|;
    }
  }

  lemma {:induction false} BlockHas(opts: seq<Opt>, t: nat)
    requires t < |opts| && opts[t].Keyopt?
    ensures opts[t].arg in KeyoptsFor(opts, Block(opts[..t]) - 1)
  {
    var init := opts[..|opts| - 1];
    if t < |init| {
      BlockHas(init, t);
      assert init[t] == opts[t] && init[..t] == opts[..t];
    }
  }

  /** Before the first block, indices are those of recipients and only grow. */
  lemma {:induction false} EarlyOrdered(opts: seq<Opt>)
    requires Run(START, opts).Some? && Block(opts) == 0
    ensures var params := Run(START, opts).value.params;
      Ordered(params, RecipsOf(opts)) && forall k :: 0 <= k < |params| ==> params[k].idx < RecipsOf(opts)
  {
    if opts == [] {
    } else {
      var init, o := opts[..|opts| - 1], opts[|opts| - 1];
      RunLast(START, opts);
      BlockLast(opts);
      EarlyOrdered(init);
      if o.Keyopt? {
        KeyIndexMeant(init);
        OrderedAdd(Run(START, init).value.params, RecipsOf(init), RecipsOf(init) - 1, o.arg);
      }
    }
  }

  lemma {:induction false} GivenKept(opts: seq<Opt>, t: nat, j: int, x: string)
    requires t <= |opts| && Run(START, opts).Some? && Run(START, opts[..t]).Some?
    requires x in Given(Run(START, opts[..t]).value.params, j)
    ensures x in Given(Run(START, opts).value.params, j)
  {
    if t == |opts| {
      assert opts[..t] == opts;
    } else {
      var init, o := opts[..|opts| - 1], opts[|opts| - 1];
      RunLast(START, opts);
      assert init[..t] == opts[..t];
      GivenKept(init, t, j, x);
      var st := Run(START, init).value;
      if o.Keyopt? { GivenStays(st.params, KeyIndex(st), o.arg, j, x); }
    }
  }

  lemma EarlyAdded(pre: seq<Opt>, next: seq<Opt>, x: string)
    requires next == pre + [Keyopt(x)] && Run(START, next).Some? && Block(pre) == 0
    ensures Run(START, pre).Some? && RecipsOf(pre) > 0
    ensures x in Given(Run(START, next).value.params, RecipsOf(pre) - 1)
  {
    assert next[..|next| - 1] == pre;
    RunLast(START, next);
    KeyIndexMeant(pre);
    EarlyOrdered(pre);
    var at := RecipsOf(pre) - 1;
    GivenAdd(Run(START, pre).value.params, RecipsOf(pre), at, x, at);
  }

  /** An argument given before the first block is found under the recipient's index. */
  lemma EarlyGiven(opts: seq<Opt>, t: nat, pre: seq<Opt>, next: seq<Opt>, x: string)
    requires Run(START, opts).Some? && t < |opts| && opts[t] == Keyopt(x)
    requires pre == opts[..t] && next == opts[..t + 1] && Block(pre) == 0
    ensures RecipsOf(pre) > 0 && x in Given(Run(START, opts).value.params, RecipsOf(pre) - 1)
  {
    assert next == pre + [Keyopt(x)];
    RunPrefix(opts, t + 1);
    EarlyAdded(pre, next, x);
    GivenKept(opts, t + 1, RecipsOf(pre) - 1, x);
  }

  ghost predicate ArgsDistinct(opts: seq<Opt>) {
    forall s, t :: 0 <= s < t < |opts| && opts[s].Keyopt? && opts[t].Keyopt? ==> opts[s].arg != opts[t].arg
  }

  /** An argument that is given once is found only where it was filed. */
  lemma GivenOnce(opts: seq<Opt>, t: nat, i: int)
    requires Run(START, opts).Some? && ArgsDistinct(opts) && t < |opts| && opts[t].Keyopt?
    requires opts[t].arg in Given(Run(START, opts).value.params, i)
    ensures MeantIndex(opts[..t]) == i
  {
    var s := ArgSource(opts, i, opts[t].arg);
    assert s == t;
  }

  /** And it was meant for one block only. */
  lemma MeantOnce(opts: seq<Opt>, t: nat, i: int)
    requires ArgsDistinct(opts) && t < |opts| && opts[t].Keyopt? && opts[t].arg in KeyoptsFor(opts, i)
    ensures Block(opts[..t]) == i + 1
  {
    var s := BlockSource(opts, i, opts[t].arg);
    assert s == t;
  }

  /** An argument meant for block `i` and filed elsewhere is missing there. */
  lemma MissingInBlock(opts: seq<Opt>, t: nat, i: int)
    requires Run(START, opts).Some? && ArgsDistinct(opts) && t < |opts| && opts[t].Keyopt?
    requires Block(opts[..t]) == i + 1 > 0 && MeantIndex(opts[..t]) != i
    ensures Given(Run(START, opts).value.params, i) != KeyoptsFor(opts, i)
  {
    BlockHas(opts, t);
    if opts[t].arg in Given(Run(START, opts).value.params, i) { GivenOnce(opts, t, i); }
  }

  /** An argument given before the first block is found by the signer with the recipient's index. */
  lemma StrayInBlock(opts: seq<Opt>, t: nat, i: int)
    requires Run(START, opts).Some? && ArgsDistinct(opts) && t < |opts| && opts[t].Keyopt?
    requires Block(opts[..t]) == 0 && RecipsOf(opts[..t]) == i + 1 > 0
    ensures Given(Run(START, opts).value.params, i) != KeyoptsFor(opts, i)
  {
    EarlyGiven(opts, t, opts[..t], opts[..t + 1], opts[t].arg);
    if opts[t].arg in KeyoptsFor(opts, i) { MeantOnce(opts, t, i); }
  }

  /** A misfiled argument shows: some signer does not get exactly what was given for it. */
  lemma Misfiled(opts: seq<Opt>, t: nat) returns (i: nat)
    requires Run(START, opts).Some? && ArgsDistinct(opts)
    requires t < |opts| && opts[t].Keyopt? && !AlignedAt(opts, Block(opts), t)
    ensures i < Block(opts) && Given(Run(START, opts).value.params, i) != KeyoptsFor(opts, i)
  {
    BlockPrefix(opts, t);
    if Block(opts[..t]) > 0 {
      i := Block(opts[..t]) - 1;
      MissingInBlock(opts, t, i);
    } else {
      EarlyGiven(opts, t, opts[..t], opts[..t + 1], opts[t].arg);
      i := RecipsOf(opts[..t]) - 1;
      StrayInBlock(opts, t, i);
    }
  }

  /** If every `-keyopt` is aligned, each signer gets exactly the arguments given while its block was being
      assembled, in order; and if the arguments can be told apart, only then. */
  lemma KeyoptsReachTheirSigner(opts: seq<Opt>)
    requires Run(START, opts).Some?
    ensures var params, n := Run(START, opts).value.params, Block(opts);
      && (Aligned(opts, n) ==> forall i :: 0 <= i < n ==> Given(params, i) == KeyoptsFor(opts, i))
      && (ArgsDistinct(opts) && (forall i :: 0 <= i < n ==> Given(params, i) == KeyoptsFor(opts, i))
          ==> Aligned(opts, n))
  {
    var n := Block(opts);
    if Aligned(opts, n) {
      AlignedFiled(opts, n);
    } else if ArgsDistinct(opts) {
      var t :| 0 <= t < |opts| && opts[t].Keyopt? && !AlignedAt(opts, n, t);
      var i := Misfiled(opts, t);
    }
  }

  ghost predicate NeverEncrypting(opts: seq<Opt>) {
    forall t :: 0 <= t < |opts| && opts[t].Keyopt? ==> !OpOf(opts[..t]).Encrypting?
  }

  lemma {:induction false} IndicesAreBlocks(opts: seq<Opt>)
    requires Run(START, opts).Some? && NeverEncrypting(opts)
    ensures var params := Run(START, opts).value.params;
      forall k :: 0 <= k < |params| ==> 0 <= params[k].idx < Block(opts)
  {
    if opts == [] {
    } else {
      var init, o := opts[..|opts| - 1], opts[|opts| - 1];
      RunLast(START, opts);
      BlockLast(opts);
      forall t | 0 <= t < |init| && init[t].Keyopt? ensures !OpOf(init[..t]).Encrypting? {
        assert init[t] == opts[t] && init[..t] == opts[..t];
      }
      IndicesAreBlocks(init);
      if o.Keyopt? { KeyIndexMeant(init); }
    }
  }

  /** Options without a `-keyopt` while encrypting are aligned, and the indices of their parameter list are
      strictly increasing. */
  lemma KeyoptsInOrder(opts: seq<Opt>)
    requires Run(START, opts).Some? && NeverEncrypting(opts)
    ensures Aligned(opts, Block(opts))
    ensures var params := Run(START, opts).value.params;
      forall k, l :: 0 <= k < l < |params| ==> params[k].idx < params[l].idx
  {
    AlignedFiled(opts, Block(opts));
    IndicesAreBlocks(opts);
  }

  /** The signers of an accepted operation are its blocks. */
  lemma SignersAreBlocks(opts: seq<Opt>)
    requires Run(START, opts).Some? && Finish(Run(START, opts).value).Some?
    ensures |Finish(Run(START, opts).value).value.0| == Block(opts)
  {
    AcceptedPairs(opts);
    BlocksBegun(Events(opts));
  }

  lemma {:induction false} BlocksBegun(evs: seq<Event>)
    requires Blocks(evs).Some?
    ensures |Blocks(evs).value| == Begun(evs)
    decreases |evs|
  {
    if evs == [] {
    } else {
      BlocksBegun(evs[if |evs| > 1 && evs[0].S? != evs[1].S? then 2 else 1..]);
    }
  }

  /** A command line on which an argument is lost: given for its only signer, but while encrypting and behind
      two recipients, it is filed under index 1. */
  lemma KeyoptLost()
    ensures var opts := [Operate(Encrypting), Recip("a"), Recip("b"), Signer("s"), Keyopt("x"), Operate(Signing)];
      && Run(START, opts).Some? && Finish(Run(START, opts).value) == Some((["s"], ["s"]))
      && Run(START, opts).value.params == [Param(1, ["x"])] && Given([Param(1, ["x"])], 0) == []
  {
    var opts := [Operate(Encrypting), Recip("a"), Recip("b"), Signer("s"), Keyopt("x"), Operate(Signing)];
    var s3 := START.(op := Encrypting, recips := 2);
    var s4 := s3.(signer := Some("s"));
    var s5 := s4.(params := [Param(1, ["x"])]);
    assert AddParam([], 1, "x") == [Param(1, ["x"])] && [] + ["s"] == ["s"] && [Param(1, ["x"])][1..] == [];
    assert opts[1..] == [Recip("a"), Recip("b"), Signer("s"), Keyopt("x"), Operate(Signing)];
    assert opts[1..][1..] == [Recip("b"), Signer("s"), Keyopt("x"), Operate(Signing)];
    assert opts[1..][1..][1..] == [Signer("s"), Keyopt("x"), Operate(Signing)];
    assert opts[1..][1..][1..][1..] == [Keyopt("x"), Operate(Signing)];
    assert [Keyopt("x"), Operate(Signing)][1..] == [Operate(Signing)] && [Operate(Signing)][1..] == [];
    assert Run(s5, [Operate(Signing)]) == Some(s5.(op := Signing));
    assert Run(s4, [Keyopt("x"), Operate(Signing)]) == Some(s5.(op := Signing));
    assert Run(s3, opts[1..][1..][1..]) == Some(s5.(op := Signing));
    assert Run(s3.(recips := 1), opts[1..][1..]) == Some(s5.(op := Signing));
    assert Run(s3.(recips := 0), opts[1..]) == Some(s5.(op := Signing));
  }
}
