/** The two readers of the CA database that answer for revoked certificates: CRL generation in `ca`
    and the OCSP responder. */
module CrlOcsp {
  import opened Text
  import opened HexSerial
  import opened Revocation
  import opened CaTable
  import opened CaRuns
  import opened CaEffects
  import opened CaDatabase
  import opened Agreement

  // ----- CRL generation

  type CrlEntry = Entry<RevInfo>

  /** The entry for a revoked row, if its columns are readable. */
  function EntryOf(f: Formats, row: Row): (r: Option<CrlEntry>) {
    var info, serial := RevInfoOf(f, row.revocation), Hex2bn(row.serial);
    if info.None? || serial.None? then None else Some(Entry(serial.value, info.value))
  }

  /** The entries with that of one more row behind them, if the row is revoked. */
  function AddEntry(f: Formats, entries: seq<CrlEntry>, row: Row): (r: Option<seq<CrlEntry>>) {
    if row.Type() != 'R' then Some(entries)
    else match EntryOf(f, row)
         case None => None
         case Some(e) => Some(entries + [e])
  }

  /** The entries for a table, in row order. */
  function CrlOf(f: Formats, rows: seq<Row>): (r: Option<seq<CrlEntry>>) {
    if rows == [] then Some([])
    else match CrlOf(f, rows[..|rows| - 1])
         case None => None
         case Some(entries) => AddEntry(f, entries, rows[|rows| - 1])
  }

  /** Some entry carries a reason. */
  predicate AnyReason(entries: seq<CrlEntry>) {
    entries != [] && (entries[|entries| - 1].info.reason != NO_STATUS || AnyReason(entries[..|entries| - 1]))
  }

  /** `make_revoked` and the serial number conversion. */
  method MakeEntry(f: Formats, row: Row) returns (r: Option<CrlEntry>)
    requires NoNul(row.revocation)
    ensures r == EntryOf(f, row)
  {
    var ok, out := UnpackRevinfo(f, row.revocation);
    if !ok { return None; }
    var serial := Hex2bn(row.serial);
    if serial.None? { return None; }
    return Some(Entry(serial.value, RevInfo(out.time.value, out.reason, out.hold, out.invalidity)));
  }

  /** One round of the CRL loop. */
  method AddRow(f: Formats, row: Row, entries: seq<CrlEntry>, v2: bool) returns (r: Option<seq<CrlEntry>>, v2': bool)
    requires NoNul(row.revocation) && v2 == AnyReason(entries)
    ensures r == AddEntry(f, entries, row)
    ensures r.Some? ==> v2' == AnyReason(r.value)
  {
    if row.Type() != 'R' { return Some(entries), v2; }
    var e := MakeEntry(f, row);
    if e.None? { return None, v2; }
    var more := entries + [e.value];
    assert more[..|more| - 1] == entries;
    return Some(more), v2 || e.value.info.reason != NO_STATUS;
  }

  /** The CRL loop. An entry with a reason makes the list a version 2 CRL. */
  method MakeCrl(f: Formats, db: CaDb) returns (r: Option<seq<CrlEntry>>, v2: bool)
    requires forall i :: 0 <= i < |db.rows| ==> NoNul(db.rows[i].revocation)
    ensures r == CrlOf(f, db.rows)
    ensures r.Some? ==> v2 == AnyReason(r.value)
  {
    var rows := db.rows;
    r, v2 := Some([]), false;
    var i := 0;
    while i < |rows|
      invariant 0 <= i <= |rows|
      invariant r.Some? && r == CrlOf(f, rows[..i])
      invariant v2 == AnyReason(r.value)
    {
      CrlStep(f, rows, i);
      r, v2 := AddRow(f, rows[i], r.value, v2);
      if r.None? {
        CrlPrefix(f, rows, i + 1);
        return;
      }
      i := i + 1;
    }
    assert rows[..i] == rows;
  }

  lemma CrlStep(f: Formats, rows: seq<Row>, i: nat)
    requires i < |rows| && CrlOf(f, rows[..i]).Some?
    ensures CrlOf(f, rows[..i + 1]) == AddEntry(f, CrlOf(f, rows[..i]).value, rows[i])
  {
    assert rows[..i + 1][..i] == rows[..i];
  }

  lemma {:induction false} CrlPrefix(f: Formats, rows: seq<Row>, n: nat)
    requires n <= |rows| && CrlOf(f, rows[..n]).None?
    ensures CrlOf(f, rows).None?
    decreases |rows| - n
  {
    if n < |rows| {
      assert rows[..n + 1][..n] == rows[..n];
      CrlPrefix(f, rows, n + 1);
    } else {
      assert rows[..n] == rows;
    }
  }

  // ----- the responder

  /** A certificate id in a request: whether its digest is known, and its serial number. */
  datatype CertId = CertId(digestKnown: bool, issuer: int, serial: int)

  datatype Status = Unknown | Good | RevokedAs(info: RevInfo)

  datatype Single = Single(id: CertId, status: Status)

  datatype Response = Malformed | InternalError | Basic(singles: seq<Single>)

  /** What the responder takes from a revocation string. It does not look at the verdict of
      `unpack_revinfo`: an unreadable reason is dropped, and only an unreadable time is an error. */
  function RevocationData(f: Formats, s: string): (r: Option<RevInfo>) {
    var out := Stored(f, s);
    if out.time.None? then None else Some(OneExtension(RevInfo(out.time.value, out.reason, out.hold, out.invalidity)))
  }

  /** A status carries one extension: the hold instruction only if there is no invalidity date. */
  function OneExtension(info: RevInfo): (r: RevInfo) {
    if info.invalidity.Some? then info.(hold := None) else info
  }

  /** The answer for one id: nothing for a row that is neither valid nor revoked, and an error if the row
      has no revocation time. */
  datatype Answer = Omit | Refuse | Say(status: Status)

  function AnswerFor(f: Formats, rows: seq<Row>, known: bool, serial: int): (r: Answer) {
    if !known then Say(Unknown)
    else match FindSerial(rows, SerialText(serial))
         case None => Say(Unknown)
         case Some(i) =>
           if rows[i].Type() == 'V' then Say(Good)
           else if rows[i].Type() != 'R' then Omit
           else match RevocationData(f, rows[i].revocation)
                case None => Refuse
                case Some(info) => Say(RevokedAs(info))
  }

  /** The answers so far with that for one more id. */
  function AddAnswer(singles: seq<Single>, id: CertId, answer: Answer): (r: Option<seq<Single>>) {
    if !id.digestKnown || answer.Refuse? then None
    else if answer.Omit? then Some(singles)
    else Some(singles + [Single(id, answer.status)])
  }

  /** The answers for a list of ids, in order. */
  function Responses(f: Formats, rows: seq<Row>, cas: seq<int>, ids: seq<CertId>): (r: Option<seq<Single>>) {
    if ids == [] then Some([])
    else
      var id := ids[|ids| - 1];
      match Responses(f, rows, cas, ids[..|ids| - 1])
      case None => None
      case Some(singles) => AddAnswer(singles, id, AnswerFor(f, rows, id.issuer in cas, id.serial))
  }

  /** The search for the issuer among the responder's CA certificates. */
  method KnownIssuer(cas: seq<int>, issuer: int) returns (found: bool)
    ensures found <==> issuer in cas
  {
    found := false;
    var jj := 0;
    while jj < |cas| && !found
      invariant 0 <= jj <= |cas|
      invariant found <==> issuer in cas[..jj]
    {
      assert cas[..jj + 1] == cas[..jj] + [cas[jj]];
      if cas[jj] == issuer { found := true; }
      jj := jj + 1;
    }
    if !found { assert cas[..jj] == cas; }
  }

  /** The status of one certificate. */
  method AnswerOne(f: Formats, db: CaDb, known: bool, serial: int) returns (a: Answer)
    requires db.Valid()
    requires forall i :: 0 <= i < |db.rows| ==> NoNul(db.rows[i].revocation)
    ensures a == AnswerFor(f, db.rows, known, serial)
  {
    var inf := db.GetBySerial(SerialText(serial));
    if !known || inf.None? { return Say(Unknown); }
    var row := db.rows[inf.value];
    if row.Type() == 'V' { return Say(Good); }
    if row.Type() != 'R' { return Omit; }
    var ok, out := UnpackRevinfo(f, row.revocation);
    if out.time.None? { return Refuse; }
    return Say(RevokedAs(OneExtension(RevInfo(out.time.value, out.reason, out.hold, out.invalidity))));
  }

  /** One id of the request. */
  method AnswerNext(f: Formats, db: CaDb, cas: seq<int>, id: CertId, singles: seq<Single>)
    returns (r: Option<seq<Single>>)
    requires db.Valid()
    requires forall i :: 0 <= i < |db.rows| ==> NoNul(db.rows[i].revocation)
    ensures r == AddAnswer(singles, id, AnswerFor(f, db.rows, id.issuer in cas, id.serial))
  {
    if !id.digestKnown { return None; }
    var known := KnownIssuer(cas, id.issuer);
    var answer := AnswerOne(f, db, known, id.serial);
    match answer {
      case Omit => return Some(singles);
      case Refuse => return None;
      case Say(status) => return Some(singles + [Single(id, status)]);
    }
  }

  /** `make_ocsp_response` up to the signature. */
  method MakeResponse(f: Formats, db: CaDb, cas: seq<int>, ids: seq<CertId>) returns (resp: Response)
    requires db.Valid()
    requires forall i :: 0 <= i < |db.rows| ==> NoNul(db.rows[i].revocation)
    ensures ids == [] <==> resp.Malformed?
    ensures ids != [] ==> resp == match Responses(f, db.rows, cas, ids) case None => InternalError
        case Some(s) => Basic(s)
  {
    if ids == [] { return Malformed; }
    var bs: Option<seq<Single>> := Some([]);
    var i := 0;
    while i < |ids|
      invariant 0 <= i <= |ids|
      invariant bs.Some? && bs == Responses(f, db.rows, cas, ids[..i])
    {
      ResponsesStep(f, db.rows, cas, ids, i);
      bs := AnswerNext(f, db, cas, ids[i], bs.value);
      if bs.None? {
        ResponsesPrefix(f, db.rows, cas, ids, i + 1);
        return InternalError;
      }
      i := i + 1;
    }
    assert ids[..i] == ids;
    return Basic(bs.value);
  }

  lemma ResponsesStep(f: Formats, rows: seq<Row>, cas: seq<int>, ids: seq<CertId>, i: nat)
    requires i < |ids| && Responses(f, rows, cas, ids[..i]).Some?
    ensures Responses(f, rows, cas, ids[..i + 1])
         == AddAnswer(Responses(f, rows, cas, ids[..i]).value, ids[i],
                      AnswerFor(f, rows, ids[i].issuer in cas, ids[i].serial))
  {
    assert ids[..i + 1][..i] == ids[..i];
  }

  lemma {:induction false} ResponsesPrefix(f: Formats, rows: seq<Row>, cas: seq<int>, ids: seq<CertId>, n: nat)
    requires n <= |ids| && Responses(f, rows, cas, ids[..n]).None?
    ensures Responses(f, rows, cas, ids).None?
    decreases |ids| - n
  {
    if n < |ids| {
      assert ids[..n + 1][..n] == ids[..n];
      ResponsesPrefix(f, rows, cas, ids, n + 1);
    } else {
      assert ids[..n] == ids;
    }
  }

  // ----- what is answered

  /** The text before the first comma of a revocation string is the time of the revocation. */
  predicate TimeReadable(f: Formats, row: Row) {
    f.utcTime(Cut(row.revocation).0)
  }

  /** What the responder says of a row with a readable time: the whole of a readable revocation string, with one
      extension, and otherwise the time alone. */
  ghost predicate SaysOf(f: Formats, row: Row, info: RevInfo) {
    match RevInfoOf(f, row.revocation)
    case None => info == RevInfo(Cut(row.revocation).0, -1, None, None)
    case Some(i) =>
      && info.time == i.time == Cut(row.revocation).0 && info.reason == i.reason && info.invalidity == i.invalidity
      && info.hold == if i.invalidity.Some? then None else i.hold
  }

  /** The status of every certificate, on every table that loads: "unknown" exactly for an unknown issuer or a number
      that is not in the table, "good" exactly for a row of type 'V', "revoked" exactly for a row of type 'R' with a
      readable time, an error for one without, and nothing for all other rows. */
  lemma AnswerExactly(f: Formats, rows: seq<Row>, known: bool, n: int)
    requires SerialsDistinct(rows)
    ensures var a := AnswerFor(f, rows, known, n);
      && (a == Say(Unknown) <==> !known || forall i :: 0 <= i < |rows| ==> !HasNumber(rows[i], n))
      && (a == Say(Good) <==> known && exists i :: 0 <= i < |rows| && HasNumber(rows[i], n) && rows[i].Type() == 'V')
      && (a.Omit? <==> known && exists i :: 0 <= i < |rows| && HasNumber(rows[i], n) && rows[i].Type() !in {'V', 'R'})
      && (a.Refuse? <==> known && exists i :: 0 <= i < |rows| && HasNumber(rows[i], n) && rows[i].Type() == 'R'
                                              && !TimeReadable(f, rows[i]))
      && (forall info :: a == Say(RevokedAs(info)) <==>
            known && exists i :: 0 <= i < |rows| && HasNumber(rows[i], n) && rows[i].Type() == 'R'
                                 && TimeReadable(f, rows[i]) && SaysOf(f, rows[i], info))
  {
    if known && exists i :: 0 <= i < |rows| && HasNumber(rows[i], n) {
      var i :| 0 <= i < |rows| && HasNumber(rows[i], n);
      OneRow(rows, n, i);
      FoundAt(rows, n, i);
      AnswerOfRow(f, rows, n, i);
    } else {
      TakenIs(rows, n);
    }
  }

  lemma OneRow(rows: seq<Row>, n: int, i: nat)
    requires SerialsDistinct(rows) && i < |rows| && HasNumber(rows[i], n)
    ensures forall j :: 0 <= j < |rows| && HasNumber(rows[j], n) ==> j == i
  {
    forall j | 0 <= j < |rows| && HasNumber(rows[j], n) ensures j == i {
      assert SerialKey(rows[j].serial) == SerialKey(rows[i].serial);
    }
  }

  lemma AnswerOfRow(f: Formats, rows: seq<Row>, n: int, i: nat)
    requires FindSerial(rows, SerialText(n)) == Some(i) && i < |rows|
    ensures var a := AnswerFor(f, rows, true, n);
      && (rows[i].Type() == 'V' ==> a == Say(Good))
      && (rows[i].Type() == 'R' && !TimeReadable(f, rows[i]) ==> a == Refuse)
      && (rows[i].Type() == 'R' && TimeReadable(f, rows[i]) ==> a.Say? && a.status.RevokedAs?)
      && (rows[i].Type() !in {'V', 'R'} ==> a == Omit)
      && (a.Say? && a.status.RevokedAs? ==> forall info :: SaysOf(f, rows[i], info) <==> info == a.status.info)
  {
    if rows[i].Type() == 'R' && TimeReadable(f, rows[i]) { SaidOfRow(f, rows[i]); }
  }

  lemma SaidOfRow(f: Formats, row: Row)
    requires TimeReadable(f, row)
    ensures RevocationData(f, row.revocation).Some?
    ensures forall info :: SaysOf(f, row, info) <==> info == RevocationData(f, row.revocation).value
  {
  }

  /** A response cannot be made exactly when some id has an unknown digest or finds a revoked row without a readable
      time. */
  lemma {:induction false} ResponsesFail(f: Formats, rows: seq<Row>, cas: seq<int>, ids: seq<CertId>)
    ensures Responses(f, rows, cas, ids).None?
       <==> exists k :: 0 <= k < |ids| && (!ids[k].digestKnown || AnswerTo(f, rows, cas, ids[k]).Refuse?)
  {
    if ids != [] {
      var init, id := ids[..|ids| - 1], ids[|ids| - 1];
      ResponsesFail(f, rows, cas, init);
      if Responses(f, rows, cas, init).None? {
        var k :| 0 <= k < |init| && (!init[k].digestKnown || AnswerTo(f, rows, cas, init[k]).Refuse?);
        assert ids[k] == init[k];
      } else {
        assert forall k :: 0 <= k < |init| ==> ids[k] == init[k];
      }
    }
  }

  /** The answer to an id of a request. */
  function AnswerTo(f: Formats, rows: seq<Row>, cas: seq<int>, id: CertId): (a: Answer) {
    AnswerFor(f, rows, id.issuer in cas, id.serial)
  }

  /** An id with a status has it in the response, behind the answers to the ids before it. */
  lemma {:induction false} SingleAt(f: Formats, rows: seq<Row>, cas: seq<int>, ids: seq<CertId>, k: nat)
    requires Responses(f, rows, cas, ids).Some? && k < |ids| && AnswerTo(f, rows, cas, ids[k]).Say?
    ensures var before, singles := Responses(f, rows, cas, ids[..k]), Responses(f, rows, cas, ids).value;
      && before.Some? && |before.value| < |singles|
      && singles[|before.value|] == Single(ids[k], AnswerTo(f, rows, cas, ids[k]).status)
    decreases |ids|
  {
    var init := ids[..|ids| - 1];
    if k < |init| {
      SingleAt(f, rows, cas, init, k);
      assert init[..k] == ids[..k] && init[k] == ids[k];
    } else {
      assert init == ids[..k];
    }
  }

  /** And every status in a response is that of such an id. */
  lemma {:induction false} SingleFrom(f: Formats, rows: seq<Row>, cas: seq<int>, ids: seq<CertId>, j: nat)
    returns (k: nat)
    requires Responses(f, rows, cas, ids).Some? && j < |Responses(f, rows, cas, ids).value|
    ensures k < |ids| && AnswerTo(f, rows, cas, ids[k]).Say?
    ensures Responses(f, rows, cas, ids).value[j] == Single(ids[k], AnswerTo(f, rows, cas, ids[k]).status)
    ensures Responses(f, rows, cas, ids[..k]).Some? && |Responses(f, rows, cas, ids[..k]).value| == j
    decreases |ids|
  {
    var init := ids[..|ids| - 1];
    var before := Responses(f, rows, cas, init).value;
    if j < |before| {
      k := SingleFrom(f, rows, cas, init, j);
      assert init[..k] == ids[..k] && init[k] == ids[k];
    } else {
      k := |init|;
    }
  }

  /** Some entry carries a reason. */
  lemma {:induction false} AnyReasonIs(entries: seq<CrlEntry>)
    ensures AnyReason(entries) <==> exists k :: 0 <= k < |entries| && entries[k].info.reason != -1
  {
    if entries != [] {
      var init := entries[..|entries| - 1];
      AnyReasonIs(init);
      assert forall k :: 0 <= k < |init| ==> entries[k] == init[k];
    }
  }

  // ----- which ids are answered

  /** The responder has nothing to say about an id: it knows the issuer, and the row it finds is neither valid nor
      revoked. */
  predicate Silent(rows: seq<Row>, cas: seq<int>, id: CertId) {
    && id.issuer in cas
    && var found := FindSerial(rows, SerialText(id.serial));
    found.Some? && rows[found.value].Type() != 'V' && rows[found.value].Type() != 'R'
  }

  lemma OmitExactly(f: Formats, rows: seq<Row>, cas: seq<int>, id: CertId)
    ensures AnswerFor(f, rows, id.issuer in cas, id.serial).Omit? <==> Silent(rows, cas, id)
  {
  }

  /** The answers are those for the ids, one each and in order. */
  ghost predicate OneEach(singles: seq<Single>, ids: seq<CertId>) {
    |singles| == |ids| && forall i :: 0 <= i < |ids| ==> singles[i].id == ids[i]
  }

  lemma {:induction false} AnswersAtMost(f: Formats, rows: seq<Row>, cas: seq<int>, ids: seq<CertId>)
    requires Responses(f, rows, cas, ids).Some?
    ensures |Responses(f, rows, cas, ids).value| <= |ids|
  {
    if ids == [] {
    } else {
      AnswersAtMost(f, rows, cas, ids[..|ids| - 1]);
    }
  }

  /** A response that can be made answers every id, in order, exactly when the responder is silent about none. */
  lemma {:induction false} AnsweredExactly(f: Formats, rows: seq<Row>, cas: seq<int>, ids: seq<CertId>)
    requires Responses(f, rows, cas, ids).Some?
    ensures OneEach(Responses(f, rows, cas, ids).value, ids)
       <==> forall i :: 0 <= i < |ids| ==> !Silent(rows, cas, ids[i])
  {
    if ids == [] {
    } else {
      var init, id := ids[..|ids| - 1], ids[|ids| - 1];
      AnsweredExactly(f, rows, cas, init);
      AnswersAtMost(f, rows, cas, init);
      OmitExactly(f, rows, cas, id);
      var answer := AnswerFor(f, rows, id.issuer in cas, id.serial);
      OneEachSnoc(Responses(f, rows, cas, init).value, init, id, answer);
      assert ids == init + [id];
    }
  }

  lemma OneEachSnoc(singles: seq<Single>, ids: seq<CertId>, id: CertId, answer: Answer)
    requires AddAnswer(singles, id, answer).Some? && |singles| <= |ids|
    ensures OneEach(AddAnswer(singles, id, answer).value, ids + [id]) <==> OneEach(singles, ids) && !answer.Omit?
  {
    var more, all := AddAnswer(singles, id, answer).value, ids + [id];
    if OneEach(more, all) {
      forall i | 0 <= i < |ids| ensures singles[i].id == ids[i] {
        assert more[i] == singles[i] && all[i] == ids[i] && more[i].id == all[i];
      }
    }
  }

  /** An expired certificate of a known issuer gets no answer at all. */
  lemma ExpiredUnanswered(f: Formats, row: Row, issuer: int, serial: int)
    requires row.Type() == 'E' && row.serial == SerialText(serial)
    ensures Responses(f, [row], [issuer], [CertId(true, issuer, serial)]) == Some([])
  {
    var id := CertId(true, issuer, serial);
    assert FindSerial([row], SerialText(serial)) == Some(0);
    OmitExactly(f, [row], [issuer], id);
    assert [id][..0] == [];
  }

  // ----- agreement

  /** The index key of the CA's own spelling of a number. */
  function KeyOf(n: int): (k: string) {
    SerialKey(SerialText(n))
  }

  /** A row as both readers see it. */
  function RecOf(f: Formats, row: Row): (r: Rec<RevInfo>) {
    var info := RevInfoOf(f, row.revocation);
    Rec(SerialKey(row.serial), if SerialSyntaxOk(row.serial) then ParseSerial(row.serial) else 0, row.Type() == 'R',
        if info.Some? then info.value else RevInfo("", NO_STATUS, None, None))
  }

  function Recs(f: Formats, rows: seq<Row>): (r: seq<Rec<RevInfo>>)
    ensures |r| == |rows| && forall i :: 0 <= i < |rows| ==> r[i] == RecOf(f, rows[i])
  {
    seq(|rows|, i requires 0 <= i < |rows| => RecOf(f, rows[i]))
  }

  lemma RecsInit(f: Formats, rows: seq<Row>)
    requires rows != []
    ensures var recs := Recs(f, rows);
      recs != [] && recs[..|recs| - 1] == Recs(f, rows[..|rows| - 1]) && recs[|recs| - 1] == RecOf(f, rows[|rows| - 1])
  {
  }

  lemma EntryIs(f: Formats, row: Row)
    requires RowLoads(f, row) && row.Type() == 'R'
    ensures var rec := RecOf(f, row); rec.revoked && EntryOf(f, row) == Some(Entry(rec.number, rec.data))
  {
    Hex2bnIs(row.serial);
  }

  lemma AddEntryIs(f: Formats, entries: seq<CrlEntry>, row: Row, rec: Rec<RevInfo>)
    requires RowLoads(f, row) && rec == RecOf(f, row)
    ensures AddEntry(f, entries, row) == Some(if rec.revoked then entries + [Entry(rec.number, rec.data)] else entries)
  {
    if row.Type() == 'R' { EntryIs(f, row); }
  }

  /** The CRL of a table that loads can be made, and lists its revoked rows. */
  lemma {:induction false} CrlIs(f: Formats, rows: seq<Row>)
    requires RowsLoad(f, rows)
    ensures CrlOf(f, rows) == Some(Listed(Recs(f, rows)))
  {
    if rows == [] {
    } else {
      var init, last := rows[..|rows| - 1], rows[|rows| - 1];
      CrlIs(f, init);
      RecsInit(f, rows);
      assert RowLoads(f, last);
      AddEntryIs(f, Listed(Recs(f, init)), last, RecOf(f, last));
    }
  }

  lemma {:induction false} FoundIs(f: Formats, rows: seq<Row>, serial: string)
    ensures Found(Recs(f, rows), SerialKey(serial)) == FindSerial(rows, serial)
  {
    if rows == [] {
    } else {
      FoundIs(f, rows[..|rows| - 1], serial);
      RecsInit(f, rows);
    }
  }

  /** What the responder takes from the revocation string of a row that loads. */
  lemma DataIs(f: Formats, s: string)
    requires RevInfoOf(f, s).Some?
    ensures RevocationData(f, s) == RevInfoOf(f, s)
  {
    RevInfoRange(f, s);
  }

  /** The answer for a row that loads. */
  lemma RowAnswer(f: Formats, rows: seq<Row>, serial: int, i: nat, info: RevInfo)
    requires i < |rows| && FindSerial(rows, SerialText(serial)) == Some(i) && RowLoads(f, rows[i])
    ensures AnswerFor(f, rows, true, serial) == Say(RevokedAs(info))
       <==> rows[i].Type() == 'R' && RevInfoOf(f, rows[i].revocation) == Some(info)
  {
    if rows[i].Type() == 'R' { DataIs(f, rows[i].revocation); }
  }

  /** The responder says "revoked" with exactly the data of the row that the number finds. */
  lemma AnswerIs(f: Formats, rows: seq<Row>, serial: int, info: RevInfo)
    requires RowsLoad(f, rows)
    ensures AnswerFor(f, rows, true, serial) == Say(RevokedAs(info)) <==> Says(Recs(f, rows), KeyOf, serial, info)
  {
    FoundIs(f, rows, SerialText(serial));
    var found := FindSerial(rows, SerialText(serial));
    if found.Some? {
      assert RowLoads(f, rows[found.value]) && Recs(f, rows)[found.value] == RecOf(f, rows[found.value]);
      RowAnswer(f, rows, serial, found.value, info);
    }
  }

  lemma KeysSound(f: Formats, rows: seq<Row>)
    requires RowsLoad(f, rows)
    ensures Sound(Recs(f, rows), KeyOf)
  {
    var recs := Recs(f, rows);
    forall i, n | 0 <= i < |recs| && recs[i].key == KeyOf(n) ensures recs[i].number == n {
      assert RowLoads(f, rows[i]);
      SerialRoundTrip(n);
      KeyDecidesNumber(rows[i].serial, SerialText(n));
    }
  }

  /** For every serial number, a responder that knows the issuer says "revoked" with exactly the data that
      the CRL lists for that number. */
  ghost predicate ReadersAgree(f: Formats, rows: seq<Row>, crl: seq<CrlEntry>) {
    forall serial, info :: AnswerFor(f, rows, true, serial) == Say(RevokedAs(info)) <==> Entry(serial, info) in crl
  }

  lemma AgreeIs(f: Formats, rows: seq<Row>)
    requires RowsLoad(f, rows)
    ensures ReadersAgree(f, rows, Listed(Recs(f, rows))) <==> Agree(Recs(f, rows), KeyOf)
  {
    var recs := Recs(f, rows);
    if ReadersAgree(f, rows, Listed(recs)) {
      forall n, x ensures Says(recs, KeyOf, n, x) <==> Entry(n, x) in Listed(recs) { AnswerIs(f, rows, n, x); }
    }
    if Agree(recs, KeyOf) {
      forall serial, info ensures AnswerFor(f, rows, true, serial) == Say(RevokedAs(info))
         <==> Entry(serial, info) in Listed(recs) {
        AnswerIs(f, rows, serial, info);
      }
    }
  }

  /** The key of a row's serial column is the key of the CA's own spelling of that number. */
  predicate KeyCanonical(r: Row) {
    SerialSyntaxOk(r.serial) && SerialKey(r.serial) == KeyOf(ParseSerial(r.serial))
  }

  ghost predicate RevokedCanonical(rows: seq<Row>) {
    forall i :: 0 <= i < |rows| && rows[i].Type() == 'R' ==> KeyCanonical(rows[i])
  }

  /** The CA's spelling of a revoked row's number finds a revoked row, this or another, with the same data. */
  predicate RowEchoed(f: Formats, rows: seq<Row>, row: Row) {
    && SerialSyntaxOk(row.serial)
    && var found := FindSerial(rows, SerialText(ParseSerial(row.serial)));
    found.Some? && rows[found.value].Type() == 'R'
        && RevInfoOf(f, rows[found.value].revocation) == RevInfoOf(f, row.revocation)
  }

  ghost predicate RevokedEchoed(f: Formats, rows: seq<Row>) {
    forall i :: 0 <= i < |rows| && rows[i].Type() == 'R' ==> RowEchoed(f, rows, rows[i])
  }

  lemma EchoedIs(f: Formats, rows: seq<Row>, i: nat)
    requires RowsLoad(f, rows) && i < |rows| && rows[i].Type() == 'R'
    ensures Echoed(Recs(f, rows), KeyOf, i) <==> RowEchoed(f, rows, rows[i])
  {
    assert RowLoads(f, rows[i]);
    var serial := SerialText(ParseSerial(rows[i].serial));
    FoundIs(f, rows, serial);
    var found := FindSerial(rows, serial);
    if found.Some? { assert RowLoads(f, rows[found.value]); }
  }

  /** On a table that loads, the responder and the CRL agree on every serial number exactly when every revoked row is
      echoed. */
  lemma CrlOcspAgree(f: Formats, rows: seq<Row>)
    requires RowsLoad(f, rows)
    ensures CrlOf(f, rows).Some?
    ensures ReadersAgree(f, rows, CrlOf(f, rows).value) <==> RevokedEchoed(f, rows)
  {
    var recs := Recs(f, rows);
    CrlIs(f, rows);
    AgreeIs(f, rows);
    KeysSound(f, rows);
    AgreeExactly(recs, KeyOf);
    AllEchoedIs(f, rows);
  }

  lemma AllEchoedIs(f: Formats, rows: seq<Row>)
    requires RowsLoad(f, rows)
    ensures RevokedEchoed(f, rows)
       <==> forall i :: 0 <= i < |Recs(f, rows)| && Recs(f, rows)[i].revoked ==> Echoed(Recs(f, rows), KeyOf, i)
  {
    var recs := Recs(f, rows);
    forall i | 0 <= i < |rows| && rows[i].Type() == 'R'
      ensures recs[i].revoked && (Echoed(recs, KeyOf, i) <==> RowEchoed(f, rows, rows[i])) {
      EchoedIs(f, rows, i);
    }
    assert forall i :: 0 <= i < |rows| ==> recs[i].revoked == (rows[i].Type() == 'R');
  }

  lemma OwnKeyIs(f: Formats, row: Row)
    requires RowLoads(f, row)
    ensures RecOf(f, row).key == KeyOf(RecOf(f, row).number) <==> KeyCanonical(row)
    ensures RecOf(f, row).revoked <==> row.Type() == 'R'
  {
  }

  lemma AllOwnKeyIs(f: Formats, rows: seq<Row>)
    requires RowsLoad(f, rows)
    ensures RevokedCanonical(rows)
       <==> forall i :: 0 <= i < |Recs(f, rows)| && Recs(f, rows)[i].revoked ==> OwnKey(Recs(f, rows), KeyOf, i)
  {
    var recs := Recs(f, rows);
    forall i | 0 <= i < |rows|
      ensures recs[i].revoked == (rows[i].Type() == 'R') && OwnKey(recs, KeyOf, i) == KeyCanonical(rows[i]) {
      assert RowLoads(f, rows[i]);
      OwnKeyIs(f, rows[i]);
    }
  }

  /** They agree and the CRL lists no number twice exactly when the serial column of every revoked row has the key that
      the CA itself would give it. */
  lemma CrlOcspAgreeOnce(f: Formats, rows: seq<Row>)
    requires RowsLoad(f, rows) && SerialsDistinct(rows)
    ensures CrlOf(f, rows).Some?
    ensures var crl := CrlOf(f, rows).value; ReadersAgree(f, rows, crl) && NumbersOnce(crl) <==> RevokedCanonical(rows)
  {
    var recs := Recs(f, rows);
    CrlIs(f, rows);
    AgreeIs(f, rows);
    KeysSound(f, rows);
    AgreeOnceExactly(recs, KeyOf);
    AllOwnKeyIs(f, rows);
  }

  /** So they agree on every table that a sequence of runs can make from a canonical one. */
  lemma ReachableAgree(f: Formats, unique: bool, start: seq<Row>, serial: Option<int>, invs: seq<Invocation>)
    requires WellFormed(f, unique, start) && AllCanonical(start)
    requires forall i :: 0 <= i < |invs| ==> InvocationOk(f, invs[i])
    ensures var r := RunAll(f, unique, Disk(Some(start), serial), invs);
      && r.Some?
      && (r.value.index.Some? ==>
            var crl := CrlOf(f, r.value.index.value);
            crl.Some? && ReadersAgree(f, r.value.index.value, crl.value) && NumbersOnce(crl.value))
  {
    SelfHistory(start);
    SerialNumbersDistinct(f, unique, start, serial, invs);
    HistoryTheorem(f, unique, start, Disk(Some(start), serial), invs);
    var r := RunAll(f, unique, Disk(Some(start), serial), invs).value;
    if r.index.Some? { CanonicalAgree(f, unique, r.index.value); }
  }

  lemma CanonicalAgree(f: Formats, unique: bool, rows: seq<Row>)
    requires WellFormed(f, unique, rows) && AllCanonical(rows)
    ensures var crl := CrlOf(f, rows); crl.Some? && ReadersAgree(f, rows, crl.value) && NumbersOnce(crl.value)
  {
    CrlOcspAgreeOnce(f, rows);
    assert forall i :: 0 <= i < |rows| ==> KeyCanonical(rows[i]);
  }

  /** Without canonical keys they may still agree: two spellings of one number, revoked alike, are echoed. */
  lemma AgreeWithoutCanonical(f: Formats, date: string, rev: string)
    requires f.Time(date) && RevInfoOf(f, rev).Some?
    ensures var rows := [Row("R", date, rev, "0A", "unknown", "a"), Row("R", date, rev, "0a", "unknown", "a")];
      && RowsLoad(f, rows) && SerialsDistinct(rows) && !RevokedCanonical(rows)
      && CrlOf(f, rows).Some? && ReadersAgree(f, rows, CrlOf(f, rows).value)
  {
    var rows := [Row("R", date, rev, "0A", "unknown", "a"), Row("R", date, rev, "0a", "unknown", "a")];
    TwoSpellings(rows);
    assert !KeyCanonical(rows[1]);
    assert RevokedEchoed(f, rows);
    CrlOcspAgree(f, rows);
  }

  lemma TwoSpellings(rows: seq<Row>)
    requires |rows| == 2 && rows[0].serial == "0A" && rows[1].serial == "0a"
    ensures SerialsDistinct(rows) && SerialSyntaxOk("0A") && SerialSyntaxOk("0a")
    ensures ParseSerial("0A") == 10 && ParseSerial("0a") == 10 && KeyOf(10) != SerialKey("0a")
    ensures FindSerial(rows, SerialText(10)) == Some(0)
  {
    KeyCaseSensitive();
    TenSpelled();
    FirstFound(rows, SerialText(10));
  }

  lemma FirstFound(rows: seq<Row>, serial: string)
    requires |rows| == 2 && SerialKey(rows[0].serial) == SerialKey(serial) != SerialKey(rows[1].serial)
    ensures FindSerial(rows, serial) == Some(0)
  {
    assert rows[..1] == [rows[0]];
  }

  lemma TenSpelled()
    ensures SerialText(10) == "0A" && ParseSerial("0A") == 10 && ParseSerial("0a") == 10
  {
    assert HexBytes(10) == HexBytes(0) + HexPair(10) && HexPair(10) == "0A";
    assert SerialText(10) == "0A";
    SerialRoundTrip(10);
    KeyCaseSensitive();
  }
}
