/** The policy check of `do_body`, which builds the subject of a new certificate from a request, and the
    removal of e-mail addresses from it. */
module Policy {
  import opened Text

  /** One attribute of a distinguished name. */
  datatype Entry = Entry(kind: int, value: string)

  type Name = seq<Entry>

  /** "optional", "supplied", "match", or any other text. */
  datatype Demand = Optional | Supplied | Match | Invalid(text: string)

  /** A line of the policy section: an attribute type, if its name is known, and what is asked of it. */
  datatype Rule = Rule(kind: Option<int>, demand: Demand)

  // ----- the simple form

  /** The attributes of one type, in order. */
  function Only(name: Name, kind: int): (r: Name) {
    if name == [] then []
    else if name[0].kind == kind then [name[0]] + Only(name[1..], kind)
    else Only(name[1..], kind)
  }

  /** A rule asks for something it can get. */
  predicate Satisfied(rule: Rule, name: Name, ca: Name) {
    && rule.kind.Some?
    && var mine := Only(name, rule.kind.value);
    (|| rule.demand.Optional?
     || (rule.demand.Supplied? && mine != [])
     || (rule.demand.Match? && mine != [] && forall i :: 0 <= i < |mine| ==> mine[i] in ca))
  }

  /** Rule by rule, all attributes of the rule's type; nothing if some rule is not satisfied. */
  function Subject(policy: seq<Rule>, name: Name, ca: Name): (r: Option<Name>) {
    if policy == [] then Some([])
    else
      var rule := policy[|policy| - 1];
      match Subject(policy[..|policy| - 1], name, ca)
      case None => None
      case Some(s) => if Satisfied(rule, name, ca) then Some(s + Only(name, rule.kind.value)) else None
  }

  // ----- the program

  /** `X509_NAME_get_index_by_OBJ`: the next attribute of a type behind position `last`. */
  method NextIndex(name: Name, kind: int, last: int) returns (j: int)
    requires -1 <= last < |name|
    ensures j == -1 || last < j < |name|
    ensures j >= 0 ==> name[j].kind == kind
    ensures forall k :: last < k < (if j < 0 then |name| else j) ==> name[k].kind != kind
    ensures Only(name[last + 1..], kind) == if j < 0 then [] else [name[j]] + Only(name[j + 1..], kind)
  {
    j := last + 1;
    while j < |name|
      invariant last < j <= |name|
      invariant forall k :: last < k < j ==> name[k].kind != kind
      invariant Only(name[last + 1..], kind) == Only(name[j..], kind)
    {
      assert name[j..][1..] == name[j + 1..];
      if name[j].kind == kind { return; }
      j := j + 1;
    }
    j := -1;
  }

  /** The inner search of a "match" rule: the CA's attributes of the type are tried in turn. */
  method FindMatch(ca: Name, wanted: Entry) returns (push: Option<Entry>)
    ensures push == if wanted in ca then Some(wanted) else None
  {
    var last2 := -1;
    assert ca[0..] == ca;
    OnlyContains(ca, wanted);
    while true
      invariant -1 <= last2 < |ca|
      invariant wanted in ca <==> wanted in Only(ca[last2 + 1..], wanted.kind)
      decreases |ca| - last2
    {
      var j := NextIndex(ca, wanted.kind, last2);
      if j < 0 { return None; }
      last2 := j;
      if ca[j].value == wanted.value { return Some(ca[j]); }
    }
  }

  lemma {:induction false} OnlyContains(name: Name, e: Entry)
    ensures e in name <==> e in Only(name, e.kind)
  {
    if name == [] {
    } else {
      OnlyContains(name[1..], e);
      assert name == [name[0]] + name[1..];
    }
  }

  /** What one attribute of the request contributes under a rule. */
  method Pushed(demand: Demand, e: Entry, ca: Name) returns (push: Option<Entry>)
    ensures push == if demand.Invalid? || (demand.Match? && e !in ca) then None else Some(e)
  {
    match demand {
      case Optional => return Some(e);
      case Supplied => return Some(e);
      case Match => push := FindMatch(ca, e);
      case Invalid(_) => return None;
    }
  }

  lemma TakeNext(mine: Name, n: nat, e: Entry, rest: Name)
    requires n <= |mine| && mine[n..] == [e] + rest
    ensures n < |mine| && mine[n] == e && mine[n + 1..] == rest && mine[..n + 1] == mine[..n] + [e]
  {
    assert mine[n] == mine[n..][0];
    assert mine[n + 1..] == mine[n..][1..];
  }

  /** One rule: the outer search through the request's attributes. */
  method ApplyRule(rule: Rule, name: Name, ca: Name, subject: Name) returns (r: Option<Name>)
    ensures r == if Satisfied(rule, name, ca) then Some(subject + Only(name, rule.kind.value)) else None
  {
    if rule.kind.None? { return None; }
    var kind := rule.kind.value;
    var out := subject;
    var last := -1;
    ghost var mine := Only(name, kind);
    ghost var n := 0;
    assert name[0..] == name && mine[0..] == mine;
    while true
      invariant -1 <= last < |name|
      invariant 0 <= n <= |mine| && out == subject + mine[..n]
      invariant mine[n..] == Only(name[last + 1..], kind)
      invariant last == -1 <==> n == 0
      invariant n > 0 ==> !rule.demand.Invalid?
      invariant rule.demand.Match? ==> forall i :: 0 <= i < n ==> mine[i] in ca
      decreases |name| - last
    {
      var j := NextIndex(name, kind, last);
      if j < 0 {
        assert mine[..n] == mine;
        if last != -1 || rule.demand.Optional? { return Some(out); }
        return None;
      }
      TakeNext(mine, n, name[j], Only(name[j + 1..], kind));
      last := j;
      var push := Pushed(rule.demand, name[j], ca);
      if push.None? { return None; }
      out := out + [push.value];
      n := n + 1;
    }
  }

  /** The policy loops. */
  method BuildSubject(policy: seq<Rule>, name: Name, ca: Name) returns (r: Option<Name>)
    ensures r == Subject(policy, name, ca)
  {
    var subject: Name := [];
    var i := 0;
    while i < |policy|
      invariant 0 <= i <= |policy|
      invariant Subject(policy[..i], name, ca) == Some(subject)
    {
      assert policy[..i + 1][..i] == policy[..i];
      var next := ApplyRule(policy[i], name, ca, subject);
      if next.None? {
        SubjectPrefix(policy, name, ca, i + 1);
        return None;
      }
      subject := next.value;
      i := i + 1;
    }
    assert policy[..i] == policy;
    return Some(subject);
  }

  lemma {:induction false} SubjectPrefix(policy: seq<Rule>, name: Name, ca: Name, n: nat)
    requires n <= |policy| && Subject(policy[..n], name, ca).None?
    ensures Subject(policy, name, ca).None?
    decreases |policy| - n
  {
    if n < |policy| {
      assert policy[..n + 1][..n] == policy[..n];
      SubjectPrefix(policy, name, ca, n + 1);
    } else {
      assert policy[..n] == policy;
    }
  }

  function Without(name: Name, kind: int): (r: Name) {
    if name == [] then []
    else if name[0].kind == kind then Without(name[1..], kind)
    else [name[0]] + Without(name[1..], kind)
  }

  /** What is left when deletion has got behind position `i`. */
  ghost function Pending(name: Name, kind: int, i: int): (r: Name)
    requires -1 <= i < |name|
  {
    name[..i + 1] + Without(name[i + 1..], kind)
  }

  /** The in-place deletion loop for e-mail addresses. */
  method DeleteKind(name: Name, kind: int) returns (r: Name)
    ensures r == Without(name, kind)
  {
    r := name;
    var i := -1;
    assert r[0..] == r;
    while true
      invariant -1 <= i < |r|
      invariant Pending(r, kind, i) == Without(name, kind)
      decreases |r| - i
    {
      var j := NextIndex(r, kind, i);
      if j < 0 {
        NothingPending(r, kind, i);
        return;
      }
      PendingSkip(r, kind, i, j);
      i := j;
      DeleteOne(r, kind, i);
      r := r[..i] + r[i + 1..];
      i := i - 1;
    }
  }

  lemma {:induction false} WithoutSkip(name: Name, kind: int, n: nat)
    requires n <= |name| && forall k :: 0 <= k < n ==> name[k].kind != kind
    ensures Without(name, kind) == name[..n] + Without(name[n..], kind)
  {
    if n > 0 {
      WithoutSkip(name[1..], kind, n - 1);
      assert name[1..][n - 1..] == name[n..];
      assert name[..n] == [name[0]] + name[1..][..n - 1];
    } else {
      assert name[0..] == name;
    }
  }

  lemma NothingPending(name: Name, kind: int, i: int)
    requires -1 <= i < |name| && forall k :: i < k < |name| ==> name[k].kind != kind
    ensures Pending(name, kind, i) == name
  {
    var tail := name[i + 1..];
    WithoutSkip(tail, kind, |tail|);
    assert tail[|tail|..] == [] && tail[..|tail|] == tail;
  }

  lemma DeleteOne(name: Name, kind: int, j: nat)
    requires j < |name| && name[j].kind == kind
    ensures var name' := name[..j] + name[j + 1..];
      Pending(name', kind, j - 1) == name[..j] + Without(name[j..], kind)
  {
    var name' := name[..j] + name[j + 1..];
    assert name'[..j] == name[..j] && name'[j..] == name[j + 1..] && name[j..][1..] == name[j + 1..];
  }

  lemma PendingSkip(name: Name, kind: int, i: int, j: nat)
    requires -1 <= i < j < |name| && forall k :: i < k < j ==> name[k].kind != kind
    ensures Pending(name, kind, i) == name[..j] + Without(name[j..], kind)
  {
    var tail := name[i + 1..];
    WithoutSkip(tail, kind, j - i - 1);
    assert tail[j - i - 1..] == name[j..];
    assert name[..i + 1] + tail[..j - i - 1] == name[..j];
  }

  // ----- what the results mean

  lemma {:induction false} OnlyConcat(a: Name, b: Name, kind: int)
    ensures Only(a + b, kind) == Only(a, kind) + Only(b, kind)
  {
    if a == [] {
      assert a + b == b;
    } else {
      assert (a + b)[1..] == a[1..] + b;
      OnlyConcat(a[1..], b, kind);
    }
  }

  lemma {:induction false} OnlyOnly(name: Name, kind: int, other: int)
    ensures Only(Only(name, kind), other) == if kind == other then Only(name, kind) else []
  {
    if name == [] {
    } else {
      OnlyOnly(name[1..], kind, other);
      if name[0].kind == kind {
        assert ([name[0]] + Only(name[1..], kind))[1..] == Only(name[1..], kind);
      }
    }
  }

  /** `s`, as many times as there are rules for `kind`. */
  function Copies(policy: seq<Rule>, kind: int, s: Name): (r: Name) {
    if policy == [] then []
    else Copies(policy[..|policy| - 1], kind, s) + if policy[|policy| - 1].kind == Some(kind) then s else []
  }

  /** The check fails exactly when some rule is not satisfied. A subject it makes has, for every type of
      attribute, the request's attributes of that type in their order, once for every rule that names the
      type; types that no rule names are left out. */
  lemma {:induction false} SubjectMeaning(policy: seq<Rule>, name: Name, ca: Name)
    ensures Subject(policy, name, ca).Some? <==> forall i :: 0 <= i < |policy| ==> Satisfied(policy[i], name, ca)
    ensures Subject(policy, name, ca).Some? ==>
      forall kind :: Only(Subject(policy, name, ca).value, kind) == Copies(policy, kind, Only(name, kind))
  {
    if policy == [] {
    } else {
      var init, rule := policy[..|policy| - 1], policy[|policy| - 1];
      SubjectMeaning(init, name, ca);
      assert policy == init + [rule];
      if Subject(policy, name, ca).Some? {
        var s, part := Subject(init, name, ca).value, Only(name, rule.kind.value);
        forall kind ensures Only(s + part, kind) == Copies(policy, kind, Only(name, kind)) {
          OnlyConcat(s, part, kind);
          OnlyOnly(name, rule.kind.value, kind);
        }
      }
    }
  }

  /** Deleting a type leaves no attribute of it and every other type as it was. */
  lemma {:induction false} WithoutMeaning(name: Name, kind: int, other: int)
    ensures Only(Without(name, kind), other) == if kind == other then [] else Only(name, other)
  {
    if name == [] {
    } else {
      WithoutMeaning(name[1..], kind, other);
      if name[0].kind != kind {
        assert ([name[0]] + Without(name[1..], kind))[1..] == Without(name[1..], kind);
      }
    }
  }

  // ----- the same in terms of attributes

  lemma {:induction false} OnlyEmpty(name: Name, kind: int)
    ensures Only(name, kind) != [] <==> exists j :: 0 <= j < |name| && name[j].kind == kind
  {
    if name != [] {
      OnlyEmpty(name[1..], kind);
      if exists j :: 0 <= j < |name| && name[j].kind == kind {
        var j :| 0 <= j < |name| && name[j].kind == kind;
        if j > 0 { assert name[1..][j - 1].kind == kind; }
      }
    }
  }

  lemma {:induction false} OnlyElements(name: Name, kind: int, e: Entry)
    ensures e in Only(name, kind) <==> e in name && e.kind == kind
  {
    if name != [] {
      OnlyElements(name[1..], kind, e);
      assert name == [name[0]] + name[1..];
    }
  }

  /** The request has an attribute of a type. */
  ghost predicate Supplies(name: Name, kind: int) {
    exists j :: 0 <= j < |name| && name[j].kind == kind
  }

  /** A rule is refused exactly when its type is unknown, its demand is none of the three, it is "supplied" or "match"
      and the request has no attribute of its type, or it is "match" and the request has one that the CA does not. */
  lemma RefusedExactly(rule: Rule, name: Name, ca: Name)
    ensures !Satisfied(rule, name, ca)
       <==> || rule.kind.None?
            || rule.demand.Invalid?
            || ((rule.demand.Supplied? || rule.demand.Match?) && !Supplies(name, rule.kind.value))
            || (rule.demand.Match? && exists j :: 0 <= j < |name| && name[j].kind == rule.kind.value && name[j] !in ca)
  {
    if rule.kind.Some? {
      OnlyEmpty(name, rule.kind.value);
      MineInCa(name, rule.kind.value, ca);
    }
  }

  lemma MineInCa(name: Name, kind: int, ca: Name)
    ensures (forall i :: 0 <= i < |Only(name, kind)| ==> Only(name, kind)[i] in ca)
       <==> forall j :: 0 <= j < |name| && name[j].kind == kind ==> name[j] in ca
  {
    var mine := Only(name, kind);
    if forall i :: 0 <= i < |mine| ==> mine[i] in ca {
      forall j | 0 <= j < |name| && name[j].kind == kind ensures name[j] in ca {
        OnlyElements(name, kind, name[j]);
        assert name[j] in mine;
      }
    }
    if forall j :: 0 <= j < |name| && name[j].kind == kind ==> name[j] in ca {
      forall i | 0 <= i < |mine| ensures mine[i] in ca {
        OnlyElements(name, kind, mine[i]);
        assert mine[i] in name;
      }
    }
  }

  /** A request passes exactly when every rule names a known type and one of the three demands, everything "supplied"
      or "match" is there, and everything "match" is also in the CA's name. */
  lemma PolicyExactly(policy: seq<Rule>, name: Name, ca: Name)
    ensures Subject(policy, name, ca).Some?
       <==> forall i :: 0 <= i < |policy| ==>
              && policy[i].kind.Some? && !policy[i].demand.Invalid?
              && (policy[i].demand.Supplied? || policy[i].demand.Match? ==> Supplies(name, policy[i].kind.value))
              && (policy[i].demand.Match? ==>
                    forall j :: 0 <= j < |name| && name[j].kind == policy[i].kind.value ==> name[j] in ca)
  {
    SubjectMeaning(policy, name, ca);
    forall i | 0 <= i < |policy| {
      RefusedExactly(policy[i], name, ca);
    }
  }

  /** The subject consists of attributes of the request whose type some rule names; those of a "match" type are also
      attributes of the CA. */
  lemma SubjectFrom(policy: seq<Rule>, name: Name, ca: Name, e: Entry)
    requires Subject(policy, name, ca).Some?
    ensures e in Subject(policy, name, ca).value
       <==> e in name && exists i :: 0 <= i < |policy| && policy[i].kind == Some(e.kind)
    ensures e in Subject(policy, name, ca).value
        ==> forall i :: 0 <= i < |policy| && policy[i] == Rule(Some(e.kind), Match) ==> e in ca
  {
    SubjectElements(policy, name, ca, e);
    PolicyExactly(policy, name, ca);
  }

  lemma {:induction false} SubjectElements(policy: seq<Rule>, name: Name, ca: Name, e: Entry)
    requires Subject(policy, name, ca).Some?
    ensures e in Subject(policy, name, ca).value
       <==> e in name && exists i :: 0 <= i < |policy| && policy[i].kind == Some(e.kind)
  {
    if policy != [] {
      var init, rule := policy[..|policy| - 1], policy[|policy| - 1];
      SubjectElements(init, name, ca, e);
      OnlyElements(name, rule.kind.value, e);
      assert policy == init + [rule];
      assert (exists i :: 0 <= i < |policy| && policy[i].kind == Some(e.kind))
          <==> rule.kind == Some(e.kind) || exists i :: 0 <= i < |init| && init[i].kind == Some(e.kind);
    }
  }

  /** The attributes stand in the order of the rules. */
  lemma {:induction false} SubjectInOrder(a: seq<Rule>, b: seq<Rule>, name: Name, ca: Name)
    requires Subject(a + b, name, ca).Some?
    ensures Subject(a, name, ca).Some? && Subject(b, name, ca).Some?
    ensures Subject(a + b, name, ca).value == Subject(a, name, ca).value + Subject(b, name, ca).value
    decreases b
  {
    if b == [] {
      assert a + b == a;
      assert Subject(a, name, ca).Some? ==> Subject(a, name, ca).value + [] == Subject(a, name, ca).value;
    } else {
      var init := b[..|b| - 1];
      assert (a + b)[..|a + b| - 1] == a + init;
      SubjectInOrder(a, init, name, ca);
    }
  }
}
