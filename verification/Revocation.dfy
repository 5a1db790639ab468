/** Revocation strings of the CA database: `revtime[,reason[,extra]]`. */
module Revocation {
  import opened Text
  import opened CBuffer

  /** The ASN.1 library's verdicts on text: what it accepts as a UTCTime, as a GeneralizedTime and
      as an object identifier, and the instant an accepted time denotes. */
  datatype Formats = Formats(utcTime: string -> bool, generalizedTime: string -> bool,
                             oid: string -> bool, instant: string -> int)
  {
    /** `ASN1_TIME_set_string`. */
    predicate Time(s: string) {
      utcTime(s) || generalizedTime(s)
    }
  }

  datatype RevocationType = RevValid | RevNone | RevCrlReason | RevHold | RevKeyCompromise | RevCaCompromise

  const CRL_REASONS: seq<string> := [
    "unspecified", "keyCompromise", "CACompromise", "affiliationChanged", "superseded",
    "cessationOfOperation", "certificateHold", "removeFromCRL",
    "holdInstruction", "keyTime", "CAkeyTime"]

  const NO_STATUS := -1
  const KEY_COMPROMISE := 1
  const CA_COMPROMISE := 2
  const CERTIFICATE_HOLD := 6
  const REMOVE_FROM_CRL := 8

  /** What a revocation string says: when, why, and the hold instruction or invalidity date. */
  datatype RevInfo = RevInfo(time: string, reason: int, hold: Option<string>, invalidity: Option<string>)

  // ----- the simple forms

  /** `i` is the first of the `limit` leading reason names that `s` spells in some letter case. */
  ghost predicate FirstReason(s: string, limit: nat, i: int)
    requires limit <= |CRL_REASONS|
  {
    && -1 <= i < limit
    && (i >= 0 ==> EqualIgnoreCase(s, CRL_REASONS[i]))
    && forall j :: 0 <= j < (if i < 0 then limit else i) ==> !EqualIgnoreCase(s, CRL_REASONS[j])
  }

  function ReasonIndex(s: string, limit: nat): (i: int)
    requires limit <= |CRL_REASONS|
    ensures FirstReason(s, limit, i)
  {
    if limit == 0 then -1
    else
      var i := ReasonIndex(s, limit - 1);
      if i >= 0 then i else if EqualIgnoreCase(s, CRL_REASONS[limit - 1]) then limit - 1 else -1
  }

  /** Parts joined by commas. */
  function Joined(now: string, reason: Option<string>, other: Option<string>): (s: string) {
    var timeAndReason := if reason.Some? then now + "," + reason.value else now;
    if other.Some? then timeAndReason + "," + other.value else timeAndReason
  }

  /** The text of a revocation at time `now`, or nothing if its argument is not acceptable. */
  function RevocationText(f: Formats, kind: RevocationType, arg: string, now: string): (r: Option<string>) {
    match kind
    case RevNone => Some(Joined(now, None, None))
    case RevValid => Some(Joined(now, None, None))
    case RevCrlReason =>
      var i := ReasonIndex(arg, 8);
      if i < 0 then None else Some(Joined(now, Some(CRL_REASONS[i]), None))
    case RevHold => if f.oid(arg) then Some(Joined(now, Some("holdInstruction"), Some(arg))) else None
    case RevKeyCompromise => if f.generalizedTime(arg) then Some(Joined(now, Some("keyTime"), Some(arg))) else None
    case RevCaCompromise => if f.generalizedTime(arg) then Some(Joined(now, Some("CAkeyTime"), Some(arg))) else None
  }

  /** What that revocation means, without reference to any text. */
  function Meaning(kind: RevocationType, arg: string, now: string): (r: RevInfo) {
    match kind
    case RevNone => RevInfo(now, NO_STATUS, None, None)
    case RevValid => RevInfo(now, NO_STATUS, None, None)
    case RevCrlReason =>
      var i := ReasonIndex(arg, 8);
      RevInfo(now, if i == 7 then REMOVE_FROM_CRL else i, None, None)
    case RevHold => RevInfo(now, CERTIFICATE_HOLD, Some(arg), None)
    case RevKeyCompromise => RevInfo(now, KEY_COMPROMISE, None, Some(arg))
    case RevCaCompromise => RevInfo(now, CA_COMPROMISE, None, Some(arg))
  }

  /** The text up to the first comma, and the text after it if there is one. */
  function Cut(s: string): (r: (string, Option<string>)) {
    SplitAt(s, ',')
  }

  /** The reading of a reason name and its argument, given the revocation time. */
  function ReadReason(f: Formats, time: string, reason: string, arg: Option<string>): (r: Option<RevInfo>) {
    var i := ReasonIndex(reason, 11);
    if i < 0 then None else ReadIndex(f, time, i, arg)
  }

  /** The same, given which name it is. */
  function ReadIndex(f: Formats, time: string, i: nat, arg: Option<string>): (r: Option<RevInfo>)
    requires i < 11
  {
    if i < 7 then Some(RevInfo(time, i, None, None))
    else if i == 7 then Some(RevInfo(time, REMOVE_FROM_CRL, None, None))
    else if i == 8 then
      if arg.Some? && f.oid(arg.value) then Some(RevInfo(time, CERTIFICATE_HOLD, arg, None)) else None
    else
      if arg.Some? && f.generalizedTime(arg.value)
      then Some(RevInfo(time, if i == 9 then KEY_COMPROMISE else CA_COMPROMISE, None, arg)) else None
  }

  /** The reading of a whole revocation string. */
  function RevInfoOf(f: Formats, s: string): (r: Option<RevInfo>)
  {
    var (time, rest) := Cut(s);
    if !f.utcTime(time) then None
    else if rest.None? then Some(RevInfo(time, NO_STATUS, None, None))
    else var (reason, arg) := Cut(rest.value); ReadReason(f, time, reason, arg)
  }

  /** What `unpack_revinfo` stores for its caller. If a part is unreadable it still stores the time, which is
      unset if the time itself is the unreadable part. */
  datatype Outputs = Outputs(time: Option<string>, reason: int, hold: Option<string>, invalidity: Option<string>)

  function Stored(f: Formats, s: string): (r: Outputs) {
    match RevInfoOf(f, s)
    case Some(info) => Outputs(Some(info.time), info.reason, info.hold, info.invalidity)
    case None => Outputs(if f.utcTime(Cut(s).0) then Some(Cut(s).0) else None, NO_STATUS, None, None)
  }

  // ----- the programs

  lemma FirstReasonUnique(s: string, limit: nat, i: int, j: int)
    requires limit <= |CRL_REASONS|
    requires FirstReason(s, limit, i) && FirstReason(s, limit, j)
    ensures i == j
  {
  }

  /** The search both programs make through the first `limit` reason names. */
  method FindReason(s: string, limit: nat) returns (reason: int)
    requires limit <= |CRL_REASONS|
    ensures reason == ReasonIndex(s, limit)
  {
    reason := -1;
    var i := 0;
    while i < limit
      invariant 0 <= i <= limit && reason == -1
      invariant forall j :: 0 <= j < i ==> !EqualIgnoreCase(s, CRL_REASONS[j])
    {
      if EqualIgnoreCase(s, CRL_REASONS[i]) {
        reason := i;
        break;
      }
      i := i + 1;
    }
    FirstReasonUnique(s, limit, reason, ReasonIndex(s, limit));
  }

  /** Filling the buffer that was sized for the parts: nothing is cut off. */
  method JoinParts(now: string, reason: Option<string>, other: Option<string>) returns (str: string)
    ensures str == Joined(now, reason, other)
  {
    var size := |now| + 1;
    if reason.Some? { size := size + |reason.value| + 1; }
    if other.Some? { size := size + |other.value| + 1; }
    str := Strlcat("", now, size);
    if reason.Some? {
      str := Strlcat(str, ",", size);
      str := Strlcat(str, reason.value, size);
    }
    if other.Some? {
      str := Strlcat(str, ",", size);
      str := Strlcat(str, other.value, size);
    }
  }

  /** `make_revocation_str`. */
  method MakeRevocationStr(f: Formats, kind: RevocationType, arg: string, now: string) returns (r: Option<string>)
    ensures r == RevocationText(f, kind, arg, now)
  {
    var reason: Option<string>, other: Option<string> := None, None;
    match kind {
      case RevNone =>
      case RevValid =>
      case RevCrlReason =>
        var i := FindReason(arg, 8);
        if i < 0 { return None; }
        reason := Some(CRL_REASONS[i]);
      case RevHold =>
        if !f.oid(arg) { return None; }
        reason, other := Some("holdInstruction"), Some(arg);
      case RevKeyCompromise =>
        if !f.generalizedTime(arg) { return None; }
        reason, other := Some("keyTime"), Some(arg);
      case RevCaCompromise =>
        if !f.generalizedTime(arg) { return None; }
        reason, other := Some("CAkeyTime"), Some(arg);
    }
    var str := JoinParts(now, reason, other);
    return Some(str);
  }

  /** `unpack_revinfo`, its cutting part: the string is copied, cut in place at its first two
      commas, and the three parts are then C strings of the one buffer. */
  method CutInPlace(str: string) returns (time: string, reason: Option<string>, arg: Option<string>)
    requires NoNul(str)
    ensures time == Cut(str).0
    ensures reason.None? <==> Cut(str).1.None?
    ensures reason.Some? ==> (reason.value, arg) == Cut(Cut(str).1.value)
  {
    var tmp := new char[|str| + 1](i requires 0 <= i <= |str| => if i < |str| then str[i] else '\0');
    ghost var whole := tmp[..];
    assert whole == str + ['\0'];
    CStringIs(whole, 0, str);
    var reasonAt := CutAtChar(tmp, 0, ',');
    if reasonAt.None? {
      return CString(tmp[..], 0), None, None;
    }
    ghost var once := tmp[..];
    var argAt := CutAtChar(tmp, reasonAt.value, ',');
    TwoCuts(str, whole, once, tmp[..], reasonAt.value, argAt);
    time := CString(tmp[..], 0);
    reason := Some(CString(tmp[..], reasonAt.value));
    arg := if argAt.Some? then Some(CString(tmp[..], argAt.value)) else None;
  }

  lemma TimeKept(once: seq<char>, twice: seq<char>, from: nat, next: Option<nat>)
    requires 0 < from < |once| && once[|once| - 1] == '\0'
    requires |CString(once, 0)| < from
    requires IsCut(once, twice, from, ',', next)
    ensures CString(twice, 0) == CString(once, 0)
  {
    SamePrefix(once, twice, 0, from);
  }

  lemma TwoCuts(str: string, whole: seq<char>, once: seq<char>, twice: seq<char>, reasonAt: nat, argAt: Option<nat>)
    requires whole != [] && CString(whole, 0) == str && reasonAt < |once|
    requires IsCut(whole, once, 0, ',', Some(reasonAt)) && IsCut(once, twice, reasonAt, ',', argAt)
    ensures CString(twice, 0) == Cut(str).0 && Cut(str).1.Some?
    ensures (CString(twice, reasonAt), if argAt.Some? then Some(CString(twice, argAt.value)) else None)
        == Cut(Cut(str).1.value)
  {
    TimeKept(once, twice, reasonAt, argAt);
  }

  /** `unpack_revinfo`. */
  method UnpackRevinfo(f: Formats, str: string) returns (ok: bool, out: Outputs)
    requires NoNul(str)
    ensures ok <==> RevInfoOf(f, str).Some?
    ensures out == Stored(f, str)
  {
    var time, reasonStr, argStr := CutInPlace(str);
    ok, out := false, Outputs(None, NO_STATUS, None, None);
    if !f.utcTime(time) { return; }
    out := out.(time := Some(time));
    var reason := NO_STATUS;
    var hold: Option<string>, comp: Option<string> := None, None;
    if reasonStr.Some? {
      reason := FindReason(reasonStr.value, |CRL_REASONS|);
      if reason == NO_STATUS { return; }
      if reason == 7 {
        reason := REMOVE_FROM_CRL;
      } else if reason == 8 {
        if argStr.None? || !f.oid(argStr.value) { return; }
        reason, hold := CERTIFICATE_HOLD, argStr;
      } else if reason == 9 || reason == 10 {
        if argStr.None? || !f.generalizedTime(argStr.value) { return; }
        comp := argStr;
        reason := if reason == 9 then KEY_COMPROMISE else CA_COMPROMISE;
      }
    }
    ok, out := true, Outputs(Some(time), reason, hold, comp);
  }

  // ----- what the two promise of each other

  lemma CutAt(a: string, b: string)
    requires ',' !in a
    ensures Cut(a + "," + b) == (a, Some(b)) && Cut(a) == (a, None)
  {
    SplitAtIs(a, ',', b);
    assert a + "," + b == a + [','] + b;
  }

  lemma ReasonSpelling(i: nat)
    requires i < 11
    ensures ',' !in CRL_REASONS[i]
    ensures |CRL_REASONS[i]| == [11, 13, 12, 18, 10, 20, 15, 13, 15, 7, 9][i]
    ensures Lower(CRL_REASONS[i][0]) == ['u', 'k', 'c', 'a', 's', 'c', 'c', 'r', 'h', 'k', 'c'][i]
  {
  }

  /** No two reason names are spelled alike. */
  lemma ReasonIndexOfName(i: nat)
    requires i < 11
    ensures ',' !in CRL_REASONS[i] && ReasonIndex(CRL_REASONS[i], 11) == i
  {
    ReasonSpelling(i);
    forall j | 0 <= j < i
      ensures !EqualIgnoreCase(CRL_REASONS[i], CRL_REASONS[j])
    {
      ReasonSpelling(j);
    }
    FirstReasonUnique(CRL_REASONS[i], 11, i, ReasonIndex(CRL_REASONS[i], 11));
  }

  lemma CutJoined(now: string, reason: string, other: Option<string>)
    requires ',' !in now && ',' !in reason
    ensures var s := Joined(now, Some(reason), other);
      Cut(s).0 == now && Cut(s).1.Some? && Cut(Cut(s).1.value) == (reason, other)
  {
    var rest := if other.Some? then reason + "," + other.value else reason;
    assert Joined(now, Some(reason), other) == now + "," + rest;
    CutAt(now, rest);
    CutAt(reason, if other.Some? then other.value else "");
  }

  /** A reason name that was joined to the time is read back as that reason. */
  lemma ReasonRead(f: Formats, now: string, i: nat, other: Option<string>)
    requires ',' !in now && i < 11
    ensures RevInfoOf(f, Joined(now, Some(CRL_REASONS[i]), other))
        == if !f.utcTime(now) then None else ReadIndex(f, now, i, other)
  {
    ReasonIndexOfName(i);
    CutJoined(now, CRL_REASONS[i], other);
  }

  /** Reading a saved revocation gives back its meaning, whatever its argument contains, exactly
      when the clock's text is a UTCTime; otherwise the string is unreadable. */
  lemma RevocationRoundTrip(f: Formats, kind: RevocationType, arg: string, now: string)
    requires ',' !in now
    requires RevocationText(f, kind, arg, now).Some?
    ensures RevInfoOf(f, RevocationText(f, kind, arg, now).value)
         == if f.utcTime(now) then Some(Meaning(kind, arg, now)) else None
  {
    match kind {
      case RevNone => CutAt(now, "");
      case RevValid => CutAt(now, "");
      case RevCrlReason =>
        ReasonRead(f, now, ReasonIndex(arg, 8), None);
      case RevHold =>
        ReasonRead(f, now, 8, Some(arg));
      case RevKeyCompromise =>
        ReasonRead(f, now, 9, Some(arg));
      case RevCaCompromise =>
        ReasonRead(f, now, 10, Some(arg));
    }
  }

  /** Whatever string is read, the reason is none or one of the codes of RFC 5280 section 5.3.1
      that the CA uses (never 7), and at most one kind of extra data comes with it. */
  lemma RevInfoRange(f: Formats, s: string)
    requires RevInfoOf(f, s).Some?
    ensures var r := RevInfoOf(f, s).value;
      && (r.reason == 8 || -1 <= r.reason <= 6)
      && (r.hold.Some? ==> r.reason == CERTIFICATE_HOLD && f.oid(r.hold.value) && r.invalidity.None?)
      && (r.invalidity.Some? ==> r.reason in {KEY_COMPROMISE, CA_COMPROMISE} && f.generalizedTime(r.invalidity.value))
      && f.utcTime(r.time)
  {
  }

  // ----- every string that can be read, and every string that is written

  /** Any spelling of a reason name finds its position. */
  lemma ReasonIndexOfAny(name: string, i: nat)
    requires i < 11 && EqualIgnoreCase(name, CRL_REASONS[i])
    ensures ReasonIndex(name, 11) == i && (i < 8 ==> ReasonIndex(name, 8) == i)
  {
    ReasonIndexOfName(i);
    forall j | 0 <= j < i ensures !EqualIgnoreCase(name, CRL_REASONS[j]) {
      if EqualIgnoreCase(name, CRL_REASONS[j]) { assert EqualIgnoreCase(CRL_REASONS[i], CRL_REASONS[j]); }
    }
    FirstReasonUnique(name, 11, i, ReasonIndex(name, 11));
    if i < 8 { FirstReasonUnique(name, 8, i, ReasonIndex(name, 8)); }
  }

  /** The codes of section 5.3.1 of RFC 5280 under the names of the CA, and the three names that carry an argument. */
  lemma ReasonCodes(f: Formats, time: string, name: string, arg: Option<string>, i: nat)
    requires ',' !in time && ',' !in name && i < 11 && EqualIgnoreCase(name, CRL_REASONS[i])
    ensures RevInfoOf(f, Joined(time, Some(name), arg)) == if f.utcTime(time) then ByTable(f, time, i, arg) else None
  {
    ReasonIndexOfAny(name, i);
    CutJoined(time, name, arg);
    ReadsByTable(f, time, i, arg);
  }

  /** Reason code and argument of each name. */
  ghost function ByTable(f: Formats, time: string, i: nat, arg: Option<string>): (r: Option<RevInfo>)
    requires i < 11
  {
    var code := [0, 1, 2, 3, 4, 5, 6, 8, 6, 1, 2][i];
    if i < 8 then Some(RevInfo(time, code, None, None))
    else if arg.None? || !(if i == 8 then f.oid(arg.value) else f.generalizedTime(arg.value)) then None
    else Some(RevInfo(time, code, if i == 8 then arg else None, if i == 8 then None else arg))
  }

  lemma ReadsByTable(f: Formats, time: string, i: nat, arg: Option<string>)
    requires i < 11
    ensures ReadIndex(f, time, i, arg) == ByTable(f, time, i, arg)
  {
  }

  /** A time alone is a revocation without a reason, and a name that is none of the eleven is an error. */
  lemma OtherStrings(f: Formats, time: string, name: string, arg: Option<string>)
    requires ',' !in time && ',' !in name && forall i :: 0 <= i < 11 ==> !EqualIgnoreCase(name, CRL_REASONS[i])
    ensures RevInfoOf(f, time) == if f.utcTime(time) then Some(RevInfo(time, -1, None, None)) else None
    ensures RevInfoOf(f, Joined(time, Some(name), arg)).None?
  {
    CutAt(time, "");
    CutJoined(time, name, arg);
  }

  /** The names, in the order of their codes. */
  lemma ReasonNames()
    ensures |CRL_REASONS| == 11
    ensures CRL_REASONS[..4] == ["unspecified", "keyCompromise", "CACompromise", "affiliationChanged"]
    ensures CRL_REASONS[4..8] == ["superseded", "cessationOfOperation", "certificateHold", "removeFromCRL"]
    ensures CRL_REASONS[8..] == ["holdInstruction", "keyTime", "CAkeyTime"]
  {
  }

  /** What is written for each kind of revocation, with the CA's own spelling of the reason. */
  lemma WrittenAs(f: Formats, arg: string, now: string)
    ensures RevocationText(f, RevNone, arg, now) == Some(now)
    ensures RevocationText(f, RevHold, arg, now) == if f.oid(arg) then Some(now + ",holdInstruction," + arg) else None
    ensures RevocationText(f, RevKeyCompromise, arg, now)
         == if f.generalizedTime(arg) then Some(now + ",keyTime," + arg) else None
    ensures RevocationText(f, RevCaCompromise, arg, now)
         == if f.generalizedTime(arg) then Some(now + ",CAkeyTime," + arg) else None
    ensures forall i :: 0 <= i < 8 && EqualIgnoreCase(arg, CRL_REASONS[i]) ==>
      RevocationText(f, RevCrlReason, arg, now) == Some(now + "," + CRL_REASONS[i])
    ensures (forall i :: 0 <= i < 8 ==> !EqualIgnoreCase(arg, CRL_REASONS[i]))
        ==> RevocationText(f, RevCrlReason, arg, now) == None
  {
    assert now + "," + "holdInstruction" + "," + arg == now + ",holdInstruction," + arg;
    assert now + "," + "keyTime" + "," + arg == now + ",keyTime," + arg;
    assert now + "," + "CAkeyTime" + "," + arg == now + ",CAkeyTime," + arg;
    forall i | 0 <= i < 8 && EqualIgnoreCase(arg, CRL_REASONS[i]) ensures ReasonIndex(arg, 8) == i {
      ReasonIndexOfAny(arg, i);
    }
  }
}
