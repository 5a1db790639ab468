/** Whole histories of the CA: what every run of the program keeps, and what no sequence of runs can do. */
module CaRuns {
  import opened Text
  import opened HexSerial
  import opened Revocation
  import opened TextDb
  import opened CaTable

  // ----- a run of the program

  /** One certificate request with what the world decides about it: the subject and end date of the
      certificate, whether it passes the policy, whether the operator consents and signing succeeds. */
  datatype Request = Request(subject: string, notAfter: string, accepted: bool, consent: bool, signs: bool)

  /** The issue loop: requests are served in order with consecutive serial numbers; an error ends
      the whole batch, a declined request is skipped. */
  datatype Batch = Batch(ok: bool, db: Db, serial: int, issued: seq<Cert>)

  function IssueOne(db: Db, serial: int, req: Request): (r: (int, Db)) {
    if !req.accepted then (-1, db)
    else Issued(db, Cert(req.subject, serial, req.notAfter), req.consent, req.signs)
  }

  function IssueAll(b: Batch, reqs: seq<Request>): (r: Batch)
    decreases reqs
  {
    if reqs == [] || !b.ok then b else IssueAll(NextBatch(b, reqs[0]), reqs[1..])
  }

  function NextBatch(b: Batch, req: Request): (r: Batch) {
    var (code, db) := IssueOne(b.db, b.serial, req);
    if code < 0 then b.(ok := false, db := db)
    else if code == 0 then b.(db := db)
    else Batch(b.ok, db, b.serial + 1, b.issued + [Cert(req.subject, b.serial, req.notAfter)])
  }

  datatype RevokeArgs = RevokeArgs(cert: Cert, kind: RevocationType, arg: string, now: string)

  /** The live files, as far as they are there. */
  datatype Disk = Disk(index: Option<seq<Row>>, serial: Option<int>)

  /** How saving goes. A save that fails, or a crash, ends the run; it may leave either live file in its old or new
      version or missing, but never a new table beside an old serial number. */
  datatype Save = Done | Failed(left: Left)

  datatype Version = Old | New | Gone

  datatype LivePair = LivePair(index: Version, serial: Version)

  type Left = p: LivePair | p.index.New? ==> !p.serial.Old? witness LivePair(Old, Old)

  function Pick<T>(v: Version, before: Option<T>, after: Option<T>): (r: Option<T>) {
    match v case Old => before case New => after case Gone => None
  }

  function Leave(before: Disk, after: Disk, save: Save): (r: Disk) {
    match save
    case Done => after
    case Failed(left) =>
      Disk(Pick(left.index, before.index, after.index), Pick(left.serial, before.serial, after.serial))
  }

  datatype Saves = Saves(update: Save, issue: Save, revoke: Save)

  /** The parts of one command line that touch the database, in the order the program does them, and how the
      saves between them go. */
  datatype Invocation = Invocation(update: Option<int>, reqs: seq<Request>, commit: bool,
                                   revoke: Option<RevokeArgs>, saves: Saves)

  datatype Session = Session(db: Db, disk: Disk, running: bool)

  function UpdatePhase(f: Formats, s: Session, update: Option<int>, save: Save): (r: Session) {
    if update.None? then s
    else
      var (cnt, rows) := Expired(f, s.db.rows, update.value);
      var db := s.db.(rows := rows);
      if cnt < 0 then Session(db, s.disk, false)
      else if cnt == 0 then Session(db, s.disk, true)
      else Session(db, Leave(s.disk, s.disk.(index := Some(rows)), save), save.Done?)
  }

  function IssuePhase(s: Session, reqs: seq<Request>, commit: bool, save: Save): (r: Session) {
    if !s.running || reqs == [] then s
    else if s.disk.serial.None? then s.(running := false)
    else
      var b := IssueAll(Batch(true, s.db, s.disk.serial.value, []), reqs);
      if !b.ok then Session(b.db, s.disk, false)
      else if b.issued == [] then Session(b.db, s.disk, true)
      else if !commit then Session(b.db, s.disk, false)
      else Session(b.db, Leave(s.disk, Disk(Some(b.db.rows), Some(b.serial)), save), save.Done?)
  }

  function RevokePhase(f: Formats, s: Session, revoke: Option<RevokeArgs>, save: Save): (r: Session) {
    if !s.running || revoke.None? then s
    else
      var RevokeArgs(cert, kind, arg, now) := revoke.value;
      var (code, db) := Revoked(f, s.db, cert, kind, arg, now);
      if code <= 0 then Session(db, s.disk, false)
      else Session(db, Leave(s.disk, s.disk.(index := Some(db.rows)), save), save.Done?)
  }

  /** One run on the live files. Without an index file it does nothing; the result is nothing if there is one that
      does not load. */
  ghost function RunOnce(f: Formats, unique: bool, disk: Disk, inv: Invocation): (r: Option<Disk>) {
    if disk.index.None? then Some(disk)
    else
      match Loaded(f, unique, FileText(disk.index.value))
      case None => None
      case Some(db) =>
        Some(RevokePhase(f, Prepared(f, Session(db, disk, true), inv), inv.revoke, inv.saves.revoke).disk)
  }

  /** The session when it gets to revoking. */
  function Prepared(f: Formats, s: Session, inv: Invocation): (r: Session) {
    IssuePhase(UpdatePhase(f, s, inv.update, inv.saves.update), inv.reqs, inv.commit, inv.saves.issue)
  }

  ghost function RunAll(f: Formats, unique: bool, disk: Disk, invs: seq<Invocation>): (r: Option<Disk>)
    decreases invs
  {
    if invs == [] then Some(disk)
    else
      match RunOnce(f, unique, disk, invs[0])
      case None => None
      case Some(next) => RunAll(f, unique, next, invs[1..])
  }

  // ----- what the world owes the program

  /** Text that a column other than the last can hold. */
  predicate Fits(s: string) {
    '\n' !in s && NoNul(s) && !EndsInBackslash(s)
  }

  /** A certificate whose end date is a time and whose columns fit on a line: X.509 names are printed
      without control characters and dates without backslashes. */
  ghost predicate CertOk(f: Formats, cert: Cert) {
    f.Time(cert.notAfter) && CertFits(cert)
  }

  predicate CertFits(cert: Cert) {
    Fits(cert.notAfter) && '\n' !in cert.subject && NoNul(cert.subject)
  }

  /** What a revocation writes fits in its column. */
  predicate RevocationWrites(kind: RevocationType, arg: string, now: string) {
    Fits(now) && (kind.RevHold? || kind.RevKeyCompromise? || kind.RevCaCompromise? ==> Fits(arg))
  }

  /** A revocation made while the clock prints as a UTCTime, with an argument that fits in a column if it is
      written there. Nothing is asked of a request that only adds its certificate. */
  ghost predicate ClockOk(f: Formats, kind: RevocationType, arg: string, now: string) {
    || kind.RevValid?
    || (f.utcTime(now) && ',' !in now && RevocationWrites(kind, arg, now))
  }

  /** Whatever their serial numbers will be, the certificates of the requests fit. */
  ghost predicate RequestsOk(f: Formats, reqs: seq<Request>) {
    forall i :: 0 <= i < |reqs| ==> CertOk(f, Cert(reqs[i].subject, 0, reqs[i].notAfter))
  }

  ghost predicate InvocationOk(f: Formats, inv: Invocation) {
    && RequestsOk(f, inv.reqs)
    && (inv.revoke.Some? ==>
          var RevokeArgs(cert, kind, arg, now) := inv.revoke.value;
          CertOk(f, cert) && ClockOk(f, kind, arg, now))
  }

  // ----- how rows may change

  /** The identity of a row is fixed; a 'V' row may become 'E', any unrevoked row may become 'R', and a
      revoked row never changes again. */
  ghost predicate RowHistory(a: Row, b: Row) {
    && a.serial == b.serial && a.name == b.name && a.expiry == b.expiry && a.file == b.file
    && (|| a == b
        || (a.Type() == 'V' && b.kind == "E" && a.revocation == b.revocation)
        || (a.Type() != 'R' && b.kind == "R"))
  }

  /** No row disappears, old rows only age or get revoked, and new rows start as 'V' with the CA's own
      spelling of their serial number. */
  ghost predicate History(a: seq<Row>, b: seq<Row>) {
    && |a| <= |b|
    && (forall i :: 0 <= i < |a| ==> RowHistory(a[i], b[i]))
    && (forall i :: |a| <= i < |b| ==> b[i].kind in {"V", "E", "R"} && Canonical(b[i]))
  }

  /** The serial column is the CA's own spelling of a number. */
  ghost predicate Canonical(r: Row) {
    SerialSyntaxOk(r.serial) && r.serial == SerialText(ParseSerial(r.serial))
  }

  ghost predicate AllCanonical(rows: seq<Row>) {
    forall i :: 0 <= i < |rows| ==> Canonical(rows[i])
  }

  lemma HistoryTrans(a: seq<Row>, b: seq<Row>, c: seq<Row>)
    requires History(a, b) && History(b, c)
    ensures History(a, c)
  {
    forall i | 0 <= i < |a| ensures RowHistory(a[i], c[i]) {
      assert RowHistory(a[i], b[i]) && RowHistory(b[i], c[i]);
    }
    forall i | |a| <= i < |c| ensures c[i].kind in {"V", "E", "R"} && Canonical(c[i]) {
      if i < |b| { assert RowHistory(b[i], c[i]); }
    }
  }

  // ----- each operation keeps the table well formed

  /** A step from one loaded table to another that keeps it well formed and continues it. */
  ghost predicate Keeps(f: Formats, db: Db, db': Db) {
    DbOk(f, db') && History(db.rows, db'.rows) && db'.unique == db.unique
  }

  lemma SelfHistory(rows: seq<Row>)
    ensures History(rows, rows)
  {
  }

  /** A row that may be added to a table. */
  ghost predicate RowFits(f: Formats, row: Row) {
    RowLoads(f, row) && RowStorable(row) && row.kind == "V" && Canonical(row)
  }

  lemma ColumnsFit(r: Row)
    requires r.kind in {"V", "E", "R"} && ValuesFit(r)
    ensures RowStorable(r)
  {
    assert Fits(r.kind) && r.kind[0] != '#';
    var c := r.Columns();
    assert c == [r.kind, r.expiry, r.revocation, r.serial, r.file, r.name];
  }

  /** All columns but the type. */
  predicate ValuesFit(r: Row) {
    && Fits(r.expiry) && Fits(r.revocation) && Fits(r.serial) && Fits(r.file)
    && '\n' !in r.name && NoNul(r.name)
  }

  lemma FitColumns(r: Row)
    requires RowStorable(r)
    ensures ValuesFit(r)
  {
    var c := r.Columns();
    assert c[1] == r.expiry && c[2] == r.revocation && c[3] == r.serial && c[4] == r.file && c[5] == r.name;
  }

  lemma SerialTextFits(n: int)
    ensures SerialSyntaxOk(SerialText(n)) && Fits(SerialText(n))
  {
    SerialRoundTrip(n);
    var s := SerialText(n);
    if n < 0 {
      var h := HexBytes(-n);
      assert s == ['-'] + h;
    }
    assert forall i :: 0 <= i < |s| ==> s[i] == '-' || IsUpperHex(s[i]);
  }

  lemma NewRowStorable(cert: Cert)
    requires CertFits(cert)
    ensures RowStorable(cert.NewRow())
  {
    SerialTextFits(cert.serial);
    assert Fits("unknown") by { assert "unknown"[6] == 'n'; }
    ColumnsFit(cert.NewRow());
  }

  lemma NewRowFits(f: Formats, cert: Cert)
    requires CertOk(f, cert)
    ensures RowFits(f, cert.NewRow())
  {
    SerialRoundTrip(cert.serial);
    NewRowStorable(cert);
  }

  lemma AppendSerial(rows: seq<Row>, row: Row)
    requires SerialsDistinct(rows)
    requires forall i :: 0 <= i < |rows| ==> SerialKey(rows[i].serial) != SerialKey(row.serial)
    ensures SerialsDistinct(rows + [row])
  {
  }

  lemma AppendName(rows: seq<Row>, row: Row)
    requires ValidNamesDistinct(rows)
    requires forall i :: 0 <= i < |rows| && rows[i].Type() == 'V' ==> rows[i].name != row.name
    ensures ValidNamesDistinct(rows + [row])
  {
  }

  lemma InsertShaped(db: Db, row: Row)
    requires Shaped(db) && RowStorable(row) && Inserted(db, row).Some?
    ensures Shaped(Inserted(db, row).value)
  {
    AppendSerial(db.rows, row);
    if db.unique && row.Type() == 'V' { AppendName(db.rows, row); }
    var rows := db.rows + [row];
    assert forall i :: 0 <= i < |rows| ==> rows[i] == if i < |db.rows| then db.rows[i] else row;
  }

  lemma InsertRowKeeps(f: Formats, db: Db, row: Row)
    requires DbOk(f, db) && RowFits(f, row)
    requires Inserted(db, row).Some?
    ensures Keeps(f, db, Inserted(db, row).value)
  {
    InsertShaped(db, row);
    var rows := db.rows + [row];
    assert forall i :: 0 <= i < |rows| ==> rows[i] == if i < |db.rows| then db.rows[i] else row;
  }

  lemma IssueKeeps(f: Formats, db: Db, cert: Cert, consent: bool, signs: bool)
    requires DbOk(f, db) && CertOk(f, cert)
    ensures Keeps(f, db, Issued(db, cert, consent, signs).1)
  {
    SelfHistory(db.rows);
    NewRowFits(f, cert);
    if Inserted(db, cert.NewRow()).Some? { InsertRowKeeps(f, db, cert.NewRow()); }
  }

  lemma JoinedFits(now: string, reason: Option<string>, other: Option<string>)
    requires Fits(now) && (reason.Some? ==> Fits(reason.value)) && (other.Some? ==> Fits(other.value))
    ensures Fits(Joined(now, reason, other))
  {
  }

  /** A revocation string fits in a column. */
  lemma RevocationFits(f: Formats, kind: RevocationType, arg: string, now: string)
    requires RevocationWrites(kind, arg, now) && RevocationText(f, kind, arg, now).Some?
    ensures Fits(RevocationText(f, kind, arg, now).value)
  {
    match kind {
      case RevNone => JoinedFits(now, None, None);
      case RevValid => JoinedFits(now, None, None);
      case RevCrlReason =>
        var i := ReasonIndex(arg, 8);
        ReasonFits(i);
        JoinedFits(now, Some(CRL_REASONS[i]), None);
      case RevHold =>
        ReasonFits(8);
        JoinedFits(now, Some(CRL_REASONS[8]), Some(arg));
      case RevKeyCompromise =>
        ReasonFits(9);
        JoinedFits(now, Some(CRL_REASONS[9]), Some(arg));
      case RevCaCompromise =>
        ReasonFits(10);
        JoinedFits(now, Some(CRL_REASONS[10]), Some(arg));
    }
  }

  lemma ReasonFits(i: nat)
    requires i < |CRL_REASONS|
    ensures Fits(CRL_REASONS[i])
  {
  }

  lemma MarkShaped(db: Db, i: nat, text: string)
    requires Shaped(db) && i < |db.rows| && Fits(text)
    ensures Shaped(MarkRevoked(db, i, text))
  {
    var row := db.rows[i].(kind := "R", revocation := text);
    assert row.Type() == 'R';
    FitColumns(db.rows[i]);
    ColumnsFit(row);
  }

  lemma MarkKeeps(f: Formats, db: Db, i: nat, text: string)
    requires DbOk(f, db) && i < |db.rows| && db.rows[i].Type() != 'R'
    requires RevInfoOf(f, text).Some? && Fits(text)
    ensures Keeps(f, db, MarkRevoked(db, i, text))
  {
    MarkShaped(db, i, text);
    assert db.rows[i].(kind := "R", revocation := text).Type() == 'R';
  }

  /** Whatever the clock says, a request leaves the table one that can be saved and indexed. */
  lemma RevokedShaped(f: Formats, db: Db, row: Row, kind: RevocationType, arg: string, now: string)
    requires Shaped(db) && RowStorable(row) && (kind.RevValid? || RevocationWrites(kind, arg, now))
    ensures Shaped(RevokedRow(f, db, row, kind, arg, now).1)
  {
    var text := RevocationText(f, kind, arg, now);
    if !kind.RevValid? && text.Some? { RevocationFits(f, kind, arg, now); }
    var found := FindSerial(db.rows, row.serial);
    if found.Some? {
      if !kind.RevValid? && text.Some? { MarkShaped(db, found.value, text.value); }
    } else if Inserted(db, row).Some? {
      InsertShaped(db, row);
      if !kind.RevValid? && text.Some? { MarkShaped(Inserted(db, row).value, |db.rows|, text.value); }
    }
  }

  lemma RevokeAtKeeps(f: Formats, db: Db, i: nat, kind: RevocationType, arg: string, now: string)
    requires DbOk(f, db) && i < |db.rows| && db.rows[i].Type() != 'R'
    requires !kind.RevValid? && ClockOk(f, kind, arg, now)
    ensures Keeps(f, db, RevokeAt(f, db, i, kind, arg, now).1)
  {
    var text := RevocationText(f, kind, arg, now);
    if text.Some? {
      RevocationFits(f, kind, arg, now);
      RevocationRoundTrip(f, kind, arg, now);
      MarkKeeps(f, db, i, text.value);
    } else {
      SelfHistory(db.rows);
    }
  }

  lemma RevokeRowKeeps(f: Formats, db: Db, row: Row, kind: RevocationType, arg: string, now: string)
    requires DbOk(f, db) && RowFits(f, row) && ClockOk(f, kind, arg, now)
    ensures Keeps(f, db, RevokedRow(f, db, row, kind, arg, now).1)
  {
    SelfHistory(db.rows);
    var found := FindSerial(db.rows, row.serial);
    if found.Some? {
      if db.rows[found.value].Type() != 'R' && !kind.RevValid? { RevokeAtKeeps(f, db, found.value, kind, arg, now); }
    } else if Inserted(db, row).Some? {
      var added := Inserted(db, row).value;
      InsertRowKeeps(f, db, row);
      if !kind.RevValid? {
        RevokeAtKeeps(f, added, |db.rows|, kind, arg, now);
        HistoryTrans(db.rows, added.rows, RevokeAt(f, added, |db.rows|, kind, arg, now).1.rows);
      }
    }
  }

  lemma RevokeKeeps(f: Formats, db: Db, cert: Cert, kind: RevocationType, arg: string, now: string)
    requires DbOk(f, db) && CertOk(f, cert) && ClockOk(f, kind, arg, now)
    ensures Keeps(f, db, Revoked(f, db, cert, kind, arg, now).1)
  {
    NewRowFits(f, cert);
    RevokeRowKeeps(f, db, cert.NewRow(), kind, arg, now);
  }

  /** The positions from `i` on of 'V' rows that time `now` has passed. */
  ghost function Due(f: Formats, rows: seq<Row>, now: int, i: nat): (s: set<nat>) {
    set j: nat | i <= j < |rows| && rows[j].Type() == 'V' && f.instant(rows[j].expiry) <= now
  }

  lemma {:induction false} ExpiredFromRows(f: Formats, rows: seq<Row>, now: int, i: nat, cnt: nat)
    requires i <= |rows|
    ensures var (n, rows') := ExpiredFrom(f, rows, now, i, cnt);
      && |rows'| == |rows| && rows'[..i] == rows[..i]
      && (forall j :: i <= j < |rows| ==> rows'[j] == rows[j] || rows'[j] == Aged(f, rows[j], now))
      && n >= -1 && (n >= 0 <==> forall j :: i <= j < |rows| && rows[j].Type() == 'V' ==> f.Time(rows[j].expiry))
      && (n >= 0 ==> forall j :: i <= j < |rows| ==> rows'[j] == Aged(f, rows[j], now))
    decreases |rows| - i
  {
    if i < |rows| && !(rows[i].Type() == 'V' && !f.Time(rows[i].expiry)) {
      var row := Aged(f, rows[i], now);
      var rows1 := rows[i := row];
      ExpiredFromRows(f, rows1, now, i + 1, if row != rows[i] then cnt + 1 else cnt);
      var rows' := ExpiredFrom(f, rows, now, i, cnt).1;
      assert rows'[..i] == rows'[..i + 1][..i] && rows1[..i] == rows[..i];
      assert rows'[i] == rows'[..i + 1][i] == row;
    }
  }

  lemma DueStep(f: Formats, rows: seq<Row>, now: int, i: nat)
    requires i < |rows|
    ensures var row := Aged(f, rows[i], now);
      |Due(f, rows, now, i)| == |Due(f, rows[i := row], now, i + 1)| + if row != rows[i] then 1 else 0
  {
    var row, due := Aged(f, rows[i], now), Due(f, rows, now, i);
    assert due - {i} == Due(f, rows[i := row], now, i + 1);
    assert row != rows[i] <==> i in due;
  }

  lemma {:induction false} ExpiredFromCount(f: Formats, rows: seq<Row>, now: int, i: nat, cnt: nat)
    requires i <= |rows|
    ensures var n := ExpiredFrom(f, rows, now, i, cnt).0; n >= 0 ==> n == cnt + |Due(f, rows, now, i)|
    decreases |rows| - i
  {
    if i == |rows| {
      assert Due(f, rows, now, i) == {};
    } else if !(rows[i].Type() == 'V' && !f.Time(rows[i].expiry)) {
      var row := Aged(f, rows[i], now);
      var rows1 := rows[i := row];
      ExpiredFromCount(f, rows1, now, i + 1, if row != rows[i] then cnt + 1 else cnt);
      DueStep(f, rows, now, i);
    }
  }

  /** An update that does not fail ages every row and counts exactly the rows it changed; it fails
      exactly when some 'V' row has an unreadable expiry date. */
  lemma ExpiredMeaning(f: Formats, rows: seq<Row>, now: int)
    ensures var (cnt, rows') := Expired(f, rows, now);
      && |rows'| == |rows|
      && (forall i :: 0 <= i < |rows| ==> rows'[i] == rows[i] || rows'[i] == Aged(f, rows[i], now))
      && (cnt == -1 <==> exists i :: 0 <= i < |rows| && rows[i].Type() == 'V' && !f.Time(rows[i].expiry))
      && (cnt != -1 ==> cnt == |Due(f, rows, now, 0)|)
      && (cnt != -1 ==> forall i :: 0 <= i < |rows| ==> rows'[i] == Aged(f, rows[i], now))
  {
    ExpiredFromRows(f, rows, now, 0, 0);
    ExpiredFromCount(f, rows, now, 0, 0);
  }

  /** An update that fails has aged the rows before the first unreadable date, and no others. */
  lemma {:induction false} ExpiredStops(f: Formats, rows: seq<Row>, now: int, i: nat, cnt: nat) returns (k: nat)
    requires i <= |rows| && ExpiredFrom(f, rows, now, i, cnt).0 == -1
    ensures i <= k < |rows| && rows[k].Type() == 'V' && !f.Time(rows[k].expiry)
    ensures forall j :: i <= j < k && rows[j].Type() == 'V' ==> f.Time(rows[j].expiry)
    ensures var rows' := ExpiredFrom(f, rows, now, i, cnt).1;
      && |rows'| == |rows|
      && forall j :: 0 <= j < |rows| ==> rows'[j] == if i <= j < k then Aged(f, rows[j], now) else rows[j]
    decreases |rows| - i
  {
    k := i;
    if !(rows[i].Type() == 'V' && !f.Time(rows[i].expiry)) {
      var row := Aged(f, rows[i], now);
      var rows1 := rows[i := row];
      k := ExpiredStops(f, rows1, now, i + 1, if row != rows[i] then cnt + 1 else cnt);
      assert forall j :: 0 <= j < |rows| && j != i ==> rows1[j] == rows[j];
    }
  }

  /** After an update, an update at the same or an earlier time finds nothing to do. */
  lemma UpdateIdempotent(f: Formats, rows: seq<Row>, now: int, earlier: int)
    requires earlier <= now && Expired(f, rows, now).0 >= 0
    ensures Expired(f, Expired(f, rows, now).1, earlier) == (0, Expired(f, rows, now).1)
  {
    var rows' := Expired(f, rows, now).1;
    ExpiredMeaning(f, rows, now);
    ExpiredMeaning(f, rows', earlier);
    assert Due(f, rows', earlier, 0) == {};
    assert Expired(f, rows', earlier).1 == rows';
  }

  lemma UpdateKeeps(f: Formats, db: Db, now: int)
    requires DbOk(f, db)
    ensures var db' := db.(rows := Expired(f, db.rows, now).1); DbOk(f, db') && History(db.rows, db'.rows)
  {
    var rows' := Expired(f, db.rows, now).1;
    ExpiredMeaning(f, db.rows, now);
    forall i | 0 <= i < |rows'|
      ensures RowLoads(f, rows'[i]) && RowStorable(rows'[i]) && RowHistory(db.rows[i], rows'[i])
    {
      FitColumns(db.rows[i]);
      if rows'[i] != db.rows[i] { ColumnsFit(rows'[i]); }
    }
  }

  // ----- whole runs

  lemma IssueOneKeeps(f: Formats, db: Db, serial: int, req: Request)
    requires DbOk(f, db) && CertOk(f, Cert(req.subject, 0, req.notAfter))
    ensures Keeps(f, db, IssueOne(db, serial, req).1)
  {
    SelfHistory(db.rows);
    IssueKeeps(f, db, Cert(req.subject, serial, req.notAfter), req.consent, req.signs);
  }

  lemma KeepsTrans(f: Formats, a: Db, b: Db, c: Db)
    requires Keeps(f, a, b) && Keeps(f, b, c)
    ensures Keeps(f, a, c)
  {
    HistoryTrans(a.rows, b.rows, c.rows);
  }

  lemma {:induction false} BatchKeeps(f: Formats, b: Batch, reqs: seq<Request>)
    requires DbOk(f, b.db)
    requires RequestsOk(f, reqs)
    ensures Keeps(f, b.db, IssueAll(b, reqs).db)
    decreases reqs
  {
    SelfHistory(b.db.rows);
    if reqs != [] && b.ok {
      var next := NextBatch(b, reqs[0]);
      IssueOneKeeps(f, b.db, b.serial, reqs[0]);
      BatchKeeps(f, next, reqs[1..]);
      KeepsTrans(f, b.db, next.db, IssueAll(next, reqs[1..]).db);
    }
  }

  /** A saved table loads again, with the name index cut back to the current 'V' rows. */
  lemma SavedLoads(f: Formats, unique: bool, rows: seq<Row>)
    requires WellFormed(f, unique, rows)
    ensures Loaded(f, unique, FileText(rows)) == Some(Db(rows, if unique then ValidNames(rows) else {}, unique))
  {
    ColumnsStorable(rows);
    TableRoundTrip(ColumnsOf(rows), COLUMNS);
    ParsedLoads(f, unique, rows, FileText(rows));
  }

  /** An index file that was cut off anywhere loads without notice, and the rows behind the cut are gone. */
  lemma TruncatedLoads(f: Formats, unique: bool, rows: seq<Row>, n: nat) returns (k: nat)
    requires WellFormed(f, unique, rows) && n <= |FileText(rows)|
    ensures k <= |rows| && (k == |rows| <==> n == |FileText(rows)|)
    ensures Loaded(f, unique, FileText(rows)[..n])
        == Some(Db(rows[..k], if unique then ValidNames(rows[..k]) else {}, unique))
  {
    var part;
    ColumnsStorable(rows);
    k, part := Truncated(ColumnsOf(rows), n);
    assert ColumnsOf(rows)[..k] == ColumnsOf(rows[..k]);
    PrefixWellFormed(f, unique, rows, k);
    ColumnsStorable(rows[..k]);
    UnfinishedDropped(ColumnsOf(rows[..k]), COLUMNS, part);
    ParsedLoads(f, unique, rows[..k], FileText(rows)[..n]);
  }

  lemma ColumnsStorable(rows: seq<Row>)
    requires RowsStorable(rows)
    ensures AllStorable(ColumnsOf(rows)) && AllOneLine(ColumnsOf(rows)) && NoNul(FileText(rows))
  {
    forall i | 0 <= i < |rows| ensures Storable(ColumnsOf(rows)[i]) && Lacks(ColumnsOf(rows)[i], '\0') {
      assert RowStorable(rows[i]);
    }
    WrittenLacks(ColumnsOf(rows), '\0');
  }

  lemma PrefixWellFormed(f: Formats, unique: bool, rows: seq<Row>, k: nat)
    requires WellFormed(f, unique, rows) && k <= |rows|
    ensures WellFormed(f, unique, rows[..k])
  {
  }

  /** A text that parses to a well-formed table loads as that table. */
  lemma ParsedLoads(f: Formats, unique: bool, rows: seq<Row>, text: string)
    requires WellFormed(f, unique, rows) && ParseTable(text, COLUMNS) == Some(ColumnsOf(rows))
    ensures Loaded(f, unique, text) == Some(Db(rows, if unique then ValidNames(rows) else {}, unique))
  {
    assert RowsOf(ColumnsOf(rows)) == rows;
  }

  /** The live index, if there is one, is well formed and continues the table `start`. */
  ghost predicate DiskOk(f: Formats, unique: bool, start: seq<Row>, disk: Disk) {
    disk.index.Some? ==> WellFormed(f, unique, disk.index.value) && History(start, disk.index.value)
  }

  /** So are memory and files during a run. */
  ghost predicate SessionOk(f: Formats, unique: bool, start: seq<Row>, s: Session) {
    DbOk(f, s.db) && s.db.unique == unique && History(start, s.db.rows) && DiskOk(f, unique, start, s.disk)
  }

  /** A table that continues the one in memory may be saved or not. */
  lemma NextTable(f: Formats, unique: bool, start: seq<Row>, s: Session, db: Db, save: Save)
    requires SessionOk(f, unique, start, s) && DbOk(f, db) && db.unique == unique && History(s.db.rows, db.rows)
    ensures SessionOk(f, unique, start, Session(db, s.disk, true))
    ensures SessionOk(f, unique, start, Session(db, s.disk, false))
    ensures SessionOk(f, unique, start, Session(db, Leave(s.disk, s.disk.(index := Some(db.rows)), save), save.Done?))
  {
    HistoryTrans(start, s.db.rows, db.rows);
  }

  lemma UpdatePhaseKeeps(f: Formats, unique: bool, start: seq<Row>, s: Session, update: Option<int>, save: Save)
    requires SessionOk(f, unique, start, s)
    ensures SessionOk(f, unique, start, UpdatePhase(f, s, update, save))
  {
    if update.Some? {
      UpdateKeeps(f, s.db, update.value);
      NextTable(f, unique, start, s, s.db.(rows := Expired(f, s.db.rows, update.value).1), save);
    }
  }

  lemma IssuePhaseKeeps(f: Formats, unique: bool, start: seq<Row>, s: Session, reqs: seq<Request>, commit: bool,
                        save: Save)
    requires SessionOk(f, unique, start, s)
    requires RequestsOk(f, reqs)
    ensures SessionOk(f, unique, start, IssuePhase(s, reqs, commit, save))
  {
    if s.disk.serial.Some? {
      var b := Batch(true, s.db, s.disk.serial.value, []);
      BatchKeeps(f, b, reqs);
      HistoryTrans(start, s.db.rows, IssueAll(b, reqs).db.rows);
    }
  }

  lemma RevokePhaseKeeps(f: Formats, unique: bool, start: seq<Row>, s: Session, revoke: Option<RevokeArgs>, save: Save)
    requires SessionOk(f, unique, start, s)
    requires revoke.Some? ==>
      var RevokeArgs(cert, kind, arg, now) := revoke.value;
      CertOk(f, cert) && ClockOk(f, kind, arg, now)
    ensures SessionOk(f, unique, start, RevokePhase(f, s, revoke, save))
  {
    if revoke.Some? {
      var RevokeArgs(cert, kind, arg, now) := revoke.value;
      RevokeKeeps(f, s.db, cert, kind, arg, now);
      NextTable(f, unique, start, s, Revoked(f, s.db, cert, kind, arg, now).1, save);
    }
  }

  /** One run loads the index file if there is one, and leaves none or a well-formed one that continues it. */
  lemma RunKeeps(f: Formats, unique: bool, start: seq<Row>, disk: Disk, inv: Invocation)
    requires DiskOk(f, unique, start, disk) && InvocationOk(f, inv)
    ensures var r := RunOnce(f, unique, disk, inv); r.Some? && DiskOk(f, unique, start, r.value)
  {
    if disk.index.Some? {
      var rows := disk.index.value;
      SavedLoads(f, unique, rows);
      var s := Session(Loaded(f, unique, FileText(rows)).value, disk, true);
      UpdatePhaseKeeps(f, unique, start, s, inv.update, inv.saves.update);
      var s1 := UpdatePhase(f, s, inv.update, inv.saves.update);
      IssuePhaseKeeps(f, unique, start, s1, inv.reqs, inv.commit, inv.saves.issue);
      RevokePhaseKeeps(f, unique, start, Prepared(f, s, inv), inv.revoke, inv.saves.revoke);
    }
  }

  /** Every sequence of runs, whatever saves fail and wherever runs crash, loads every index file it finds, keeps it
      well formed, and over the whole sequence rows only age or get revoked. */
  lemma {:induction false} HistoryTheorem(f: Formats, unique: bool, start: seq<Row>, disk: Disk, invs: seq<Invocation>)
    requires DiskOk(f, unique, start, disk)
    requires forall i :: 0 <= i < |invs| ==> InvocationOk(f, invs[i])
    ensures var r := RunAll(f, unique, disk, invs); r.Some? && DiskOk(f, unique, start, r.value)
    decreases invs
  {
    if invs == [] {
    } else {
      RunKeeps(f, unique, start, disk, invs[0]);
      HistoryTheorem(f, unique, start, RunOnce(f, unique, disk, invs[0]).value, invs[1..]);
    }
  }

  /** If the first table spelled its serial numbers canonically, then after every sequence of runs the
      certificates have pairwise different serial numbers (RFC 5280 section 4.1.2.2), as numbers. */
  lemma SerialNumbersDistinct(f: Formats, unique: bool, rows: seq<Row>, serial: Option<int>, invs: seq<Invocation>)
    requires WellFormed(f, unique, rows) && AllCanonical(rows)
    requires forall i :: 0 <= i < |invs| ==> InvocationOk(f, invs[i])
    ensures var r := RunAll(f, unique, Disk(Some(rows), serial), invs);
      r.Some? && (r.value.index.Some? ==> AllCanonical(r.value.index.value) && NumbersDistinct(r.value.index.value))
  {
    SelfHistory(rows);
    HistoryTheorem(f, unique, rows, Disk(Some(rows), serial), invs);
    var r := RunAll(f, unique, Disk(Some(rows), serial), invs).value;
    if r.index.Some? { CanonicalContinues(rows, r.index.value); CanonicalDistinct(r.index.value); }
  }

  lemma CanonicalContinues(rows: seq<Row>, rows': seq<Row>)
    requires AllCanonical(rows) && History(rows, rows')
    ensures AllCanonical(rows')
  {
    forall i | 0 <= i < |rows'| ensures Canonical(rows'[i]) {
      if i < |rows| { assert RowHistory(rows[i], rows'[i]); }
    }
  }

  lemma CanonicalDistinct(rows: seq<Row>)
    requires SerialsDistinct(rows) && AllCanonical(rows)
    ensures NumbersDistinct(rows)
  {
  }

  ghost predicate NumbersDistinct(rows: seq<Row>)
    requires forall i :: 0 <= i < |rows| ==> SerialSyntaxOk(rows[i].serial)
  {
    forall i, j :: 0 <= i < j < |rows| ==> ParseSerial(rows[i].serial) != ParseSerial(rows[j].serial)
  }

  /** A table that loads has pairwise different numbers exactly when its serial columns differ in more than letter
      case, leading zeros behind a sign, and the sign of zero. */
  lemma NumbersDistinctExactly(f: Formats, rows: seq<Row>)
    requires RowsLoad(f, rows)
    ensures NumbersDistinct(rows)
       <==> forall i, j :: 0 <= i < j < |rows| ==> NumberKey(rows[i].serial) != NumberKey(rows[j].serial)
  {
    assert forall i :: 0 <= i < |rows| ==> RowLoads(f, rows[i]);
    forall i, j | 0 <= i < j < |rows|
      ensures NumberKey(rows[i].serial) == NumberKey(rows[j].serial)
         <==> ParseSerial(rows[i].serial) == ParseSerial(rows[j].serial)
    {
      NumberKeyExact(rows[i].serial, rows[j].serial);
    }
  }

  /** The load checks alone do not give that: this table loads, and its two rows have one number. */
  lemma LoadedNumbersMayClash(f: Formats, date: string)
    requires f.Time(date) && Fits(date)
    ensures var rows := [Row("V", date, "", "0a", "unknown", "a"), Row("V", date, "", "0A", "unknown", "b")];
      WellFormed(f, true, rows) && ParseSerial(rows[0].serial) == ParseSerial(rows[1].serial)
  {
    var rows := [Row("V", date, "", "0a", "unknown", "a"), Row("V", date, "", "0A", "unknown", "b")];
    KeyCaseSensitive();
    ColumnsFit(rows[0]);
    ColumnsFit(rows[1]);
  }

  /** A row with the CA's own serial number loads exactly when its dates are readable. */
  lemma RowLoadsExactly(f: Formats, cert: Cert, row: Row)
    requires row.serial == SerialText(cert.serial) && row.expiry == cert.notAfter
    requires row.Type() == 'R' || (row.Type() == 'V' && row.revocation == "")
    ensures RowLoads(f, row) <==> f.Time(cert.notAfter) && (row.Type() == 'R' ==> RevInfoOf(f, row.revocation).Some?)
  {
    SerialRoundTrip(cert.serial);
  }

  /** The field checks on the table that a successful request leaves. */
  lemma RevokeChecksExactly(f: Formats, db: Db, cert: Cert, kind: RevocationType, arg: string, now: string)
    requires RowsLoad(f, db.rows) && ',' !in now
    requires Revoked(f, db, cert, kind, arg, now).0 == 1
    ensures RowsLoad(f, Revoked(f, db, cert, kind, arg, now).1.rows) <==> Reloadable(f, db, cert, kind, now)
  {
    var rows := Revoked(f, db, cert, kind, arg, now).1.rows;
    var i := RevokedAt(f, db, cert, kind, arg, now);
    OneRowDecides(f, db.rows, rows, i);
    if !kind.RevValid? { RevocationRoundTrip(f, kind, arg, now); }
    if i == |db.rows| { RowLoadsExactly(f, cert, rows[i]); } else { assert RowLoads(f, db.rows[i]); }
  }

  /** The end date of a certificate that is added is a time and, unless it is only added, the clock's text is a
      UTCTime. From 2050 on the clock's text is not. */
  predicate Reloadable(f: Formats, db: Db, cert: Cert, kind: RevocationType, now: string) {
    && (FindSerial(db.rows, SerialText(cert.serial)).Some? || f.Time(cert.notAfter))
    && (kind.RevValid? || f.utcTime(now))
  }

  /** A saved table loads exactly when its rows pass the field checks and its keys are distinct. */
  lemma SavedLoadsExactly(f: Formats, unique: bool, rows: seq<Row>)
    requires RowsStorable(rows)
    ensures Loaded(f, unique, FileText(rows)).Some?
       <==> RowsLoad(f, rows) && SerialsDistinct(rows) && (unique ==> ValidNamesDistinct(rows))
  {
    ColumnsStorable(rows);
    TableRoundTrip(ColumnsOf(rows), COLUMNS);
    assert RowsOf(ColumnsOf(rows)) == rows;
  }

  /** A request that succeeds and is saved leaves an index file that loads again exactly under this condition. */
  lemma RevokeLoadsExactly(f: Formats, db: Db, cert: Cert, kind: RevocationType, arg: string, now: string)
    requires DbOk(f, db) && CertFits(cert) && ',' !in now && (kind.RevValid? || RevocationWrites(kind, arg, now))
    requires Revoked(f, db, cert, kind, arg, now).0 == 1
    ensures Loaded(f, db.unique, FileText(Revoked(f, db, cert, kind, arg, now).1.rows)).Some?
       <==> Reloadable(f, db, cert, kind, now)
  {
    var db' := Revoked(f, db, cert, kind, arg, now).1;
    NewRowStorable(cert);
    RevokedShaped(f, db, cert.NewRow(), kind, arg, now);
    RevokedUnique(f, db, cert.NewRow(), kind, arg, now);
    RevokeChecksExactly(f, db, cert, kind, arg, now);
    SavedLoadsExactly(f, db.unique, db'.rows);
  }

  lemma RevokedUnique(f: Formats, db: Db, row: Row, kind: RevocationType, arg: string, now: string)
    ensures RevokedRow(f, db, row, kind, arg, now).1.unique == db.unique
  {
  }

  /** The row that a successful request writes, and what it writes there. */
  lemma RevokedAt(f: Formats, db: Db, cert: Cert, kind: RevocationType, arg: string, now: string) returns (i: nat)
    requires Revoked(f, db, cert, kind, arg, now).0 == 1
    ensures var rows := Revoked(f, db, cert, kind, arg, now).1.rows;
      && i < |rows| && |rows| <= |db.rows| + 1
      && (i < |db.rows| <==> FindSerial(db.rows, SerialText(cert.serial)).Some?)
      && (i < |db.rows| ==> |rows| == |db.rows| && !kind.RevValid?)
      && (forall j :: 0 <= j < |rows| && j != i ==> j < |db.rows| && rows[j] == db.rows[j])
      && (i < |db.rows| ==> rows[i].serial == db.rows[i].serial && rows[i].expiry == db.rows[i].expiry)
      && (i == |db.rows| ==> rows[i].serial == SerialText(cert.serial) && rows[i].expiry == cert.notAfter)
      && if kind.RevValid? then rows[i].Type() == 'V' && rows[i].revocation == ""
         else rows[i].Type() == 'R' && Some(rows[i].revocation) == RevocationText(f, kind, arg, now)
  {
    var found := FindSerial(db.rows, SerialText(cert.serial));
    i := if found.Some? then found.value else |db.rows|;
  }

  lemma OneRowDecides(f: Formats, rows: seq<Row>, rows': seq<Row>, i: nat)
    requires RowsLoad(f, rows) && i < |rows'|
    requires forall j :: 0 <= j < |rows'| && j != i ==> j < |rows| && rows'[j] == rows[j]
    ensures RowsLoad(f, rows') <==> RowLoads(f, rows'[i])
  {
    if RowLoads(f, rows'[i]) {
      forall j | 0 <= j < |rows'| ensures RowLoads(f, rows'[j]) {
        var row := rows'[j];
        if j != i { assert j < |rows| && RowLoads(f, rows[j]); }
      }
    }
  }

  /** From 2050 on: a revocation succeeds, and the index file it leaves does not load. */
  lemma ClockOf2050(f: Formats, cert: Cert)
    requires CertOk(f, cert) && !f.utcTime("20500101000000Z")
    ensures var db := Db([cert.NewRow()], {}, false);
      var r := Revoked(f, db, cert, RevNone, "", "20500101000000Z");
      DbOk(f, db) && r.0 == 1 && Loaded(f, false, FileText(r.1.rows)).None?
  {
    var rows := [cert.NewRow()];
    NewRowFits(f, cert);
    assert FindSerial(rows, SerialText(cert.serial)) == Some(0);
    TextOf2050();
    RevokeLoadsExactly(f, Db(rows, {}, false), cert, RevNone, "", "20500101000000Z");
  }

  lemma TextOf2050()
    ensures ',' !in "20500101000000Z" && Fits("20500101000000Z")
  {
    assert "20500101000000Z"[14] == 'Z';
  }

  // ----- batches

  function NewRows(certs: seq<Cert>): (r: seq<Row>) {
    if certs == [] then [] else [certs[0].NewRow()] + NewRows(certs[1..])
  }

  lemma NewRowsCons(cert: Cert, certs: seq<Cert>)
    ensures NewRows([cert] + certs) == [cert.NewRow()] + NewRows(certs)
  {
    assert ([cert] + certs)[1..] == certs;
  }

  /** From `b` to `b'` the certificates `certs` were issued: one row was appended for each, in order, they
      are numbered consecutively, and the counter has moved past them. */
  ghost predicate Continues(b: Batch, certs: seq<Cert>, b': Batch) {
    && b'.issued == b.issued + certs
    && b'.serial == b.serial + |certs|
    && b'.db.rows == b.db.rows + NewRows(certs)
    && forall i :: 0 <= i < |certs| ==> certs[i].serial == b.serial + i
  }

  lemma Assoc<T>(s: seq<T>, x: T, t: seq<T>)
    ensures s + [x] + t == s + ([x] + t)
  {
  }

  lemma ContinuesCons(a: Batch, cert: Cert, b: Batch, certs: seq<Cert>, c: Batch)
    requires cert.serial == a.serial && b.serial == a.serial + 1
    requires b.db.rows == a.db.rows + [cert.NewRow()] && b.issued == a.issued + [cert]
    requires Continues(b, certs, c)
    ensures Continues(a, [cert] + certs, c)
  {
    NewRowsCons(cert, certs);
    Assoc(a.db.rows, cert.NewRow(), NewRows(certs));
    Assoc(a.issued, cert, certs);
    forall i | 0 <= i < |[cert] + certs| ensures ([cert] + certs)[i].serial == a.serial + i {
      if i > 0 { assert ([cert] + certs)[i] == certs[i - 1]; }
    }
  }

  /** A batch conserves: what it hands out, what it records and how far it counts agree. This also holds
      for the part of a batch before an error. */
  lemma {:induction false} BatchConserves(b: Batch, reqs: seq<Request>) returns (certs: seq<Cert>)
    ensures Continues(b, certs, IssueAll(b, reqs))
    decreases reqs
  {
    certs := [];
    assert NewRows([]) == [] && b.db.rows + [] == b.db.rows && b.issued + [] == b.issued;
    if reqs != [] && b.ok {
      var next := NextBatch(b, reqs[0]);
      certs := BatchConserves(next, reqs[1..]);
      if next.serial != b.serial {
        var cert := Cert(reqs[0].subject, b.serial, reqs[0].notAfter);
        ContinuesCons(b, cert, next, certs, IssueAll(next, reqs[1..]));
        certs := [cert] + certs;
      }
    }
  }

  /** A whole batch: the rows, the numbers and the counter in terms of what was issued. */
  lemma BatchIs(db: Db, serial: int, reqs: seq<Request>)
    ensures var b := IssueAll(Batch(true, db, serial, []), reqs);
      && b.serial == serial + |b.issued| && b.db.rows == db.rows + NewRows(b.issued)
      && forall i :: 0 <= i < |b.issued| ==> b.issued[i].serial == serial + i
  {
    var certs := BatchConserves(Batch(true, db, serial, []), reqs);
    assert [] + certs == certs;
  }

  /** All or nothing: if the batch was served to the end, something was issued and the operator committed, then the
      files are saved, and a save that succeeds moves both together by exactly the issued certificates; otherwise
      neither file changes. */
  lemma BatchAllOrNothing(s: Session, reqs: seq<Request>, commit: bool, save: Save)
    requires s.running && s.disk.serial.Some?
    ensures var serial := s.disk.serial.value;
      var b := IssueAll(Batch(true, s.db, serial, []), reqs);
      IssuePhase(s, reqs, commit, save).disk ==
        if b.ok && b.issued != [] && commit
        then Leave(s.disk, Disk(Some(s.db.rows + NewRows(b.issued)), Some(serial + |b.issued|)), save)
        else s.disk
  {
    var b := IssueAll(Batch(true, s.db, s.disk.serial.value, []), reqs);
    BatchDisk(s.db, s.disk.serial.value, reqs, b);
    IssuePhaseIs(s, reqs, commit, save, b);
  }

  lemma BatchDisk(db: Db, serial: int, reqs: seq<Request>, b: Batch)
    requires b == IssueAll(Batch(true, db, serial, []), reqs)
    ensures Disk(Some(b.db.rows), Some(b.serial)) == Disk(Some(db.rows + NewRows(b.issued)), Some(serial + |b.issued|))
  {
    BatchIs(db, serial, reqs);
  }

  lemma IssuePhaseIs(s: Session, reqs: seq<Request>, commit: bool, save: Save, b: Batch)
    requires s.running && s.disk.serial.Some? && b == IssueAll(Batch(true, s.db, s.disk.serial.value, []), reqs)
    ensures IssuePhase(s, reqs, commit, save).disk ==
      if b.ok && b.issued != [] && commit then Leave(s.disk, Disk(Some(b.db.rows), Some(b.serial)), save) else s.disk
  {
  }

  // ----- the index file

  /** An index file loads exactly when only revoked rows have a revocation date and theirs can be read, every end date
      is a time, every number is an optional sign and pairs of hexadecimal digits, and no two rows share a key. */
  lemma LoadsExactly(f: Formats, unique: bool, rows: seq<Row>)
    requires RowsStorable(rows)
    ensures Loaded(f, unique, FileText(rows)).Some?
       <==> && (forall i :: 0 <= i < |rows| ==>
                  var r := rows[i];
                  && (if r.kind != "" && r.kind[0] == 'R' then RevInfoOf(f, r.revocation).Some? else r.revocation == "")
                  && (f.utcTime(r.expiry) || f.generalizedTime(r.expiry)) && NumberWritten(r.serial))
            && (forall i, j :: 0 <= i < j < |rows| ==> SerialKey(rows[i].serial) != SerialKey(rows[j].serial))
            && (unique ==> forall i, j :: 0 <= i < j < |rows| && rows[i].name == rows[j].name ==>
                  !(rows[i].kind != "" && rows[i].kind[0] == 'V' && rows[j].kind != "" && rows[j].kind[0] == 'V'))
  {
    SavedLoadsExactly(f, unique, rows);
    forall i | 0 <= i < |rows| ensures SerialSyntaxOk(rows[i].serial) <==> NumberWritten(rows[i].serial) {
      SyntaxExactly(rows[i].serial);
    }
  }

  /** The columns of a line: type, end date, revocation, number, file and name. */
  lemma RowText(row: Row)
    requires forall i :: 0 <= i < 6 ==> '\t' !in row.Columns()[i]
    ensures FileText([row]) == row.kind + "\t" + (row.expiry + "\t" + (row.revocation + "\t" + (
      row.serial + "\t" + (row.file + "\t" + row.name)))) + "\n"
  {
    var c := [row.kind, row.expiry, row.revocation, row.serial, row.file, row.name];
    assert ColumnsOf([row]) == [c];
    assert TableText([c]) == LineOf(c) + "\n" + TableText([c][1..]) && TableText([c][1..]) == "";
    forall i | 0 <= i < 6 ensures Escape(c[i]) == c[i] { EscapePlain(c[i]); }
    assert LineOf(c[5..]) == row.name;
    LineFrom(c, 4);
    LineFrom(c, 3);
    LineFrom(c, 2);
    LineFrom(c, 1);
    LineFrom(c, 0);
    assert c[0..] == c;
  }

  lemma LineFrom(row: Fields, i: nat)
    requires i + 1 < |row| && Escape(row[i]) == row[i]
    ensures LineOf(row[i..]) == row[i] + "\t" + LineOf(row[i + 1..])
  {
    assert row[i..][1..] == row[i + 1..];
  }

  /** Loading any text takes the rows as they are parsed, column by column. */
  lemma LoadedColumns(f: Formats, unique: bool, text: string)
    requires Loaded(f, unique, text).Some?
    ensures ParseTable(text, 6) == Some(ColumnsOf(Loaded(f, unique, text).value.rows))
  {
    ParseWidth(text, COLUMNS);
    ColumnsBack(ParseTable(text, COLUMNS).value);
  }

  lemma ColumnsBack(fields: seq<Fields>)
    requires Width(fields, 6)
    ensures ColumnsOf(RowsOf(fields)) == fields
  {
    forall i | 0 <= i < |fields| ensures RowOf(fields[i]).Columns() == fields[i] {
    }
  }

  /** The name index of a loaded table holds exactly the names of its valid rows, if names must be unique. */
  lemma LoadedNames(f: Formats, unique: bool, text: string, name: string)
    requires Loaded(f, unique, text).Some?
    ensures var db := Loaded(f, unique, text).value;
      && db.unique == unique
      && (name in db.names <==> unique && exists i :: 0 <= i < |db.rows| && db.rows[i].Type() == 'V'
                                                    && db.rows[i].name == name)
  {
  }
}
