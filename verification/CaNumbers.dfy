/** Sequential numbering over whole histories of the CA: the serial file stays above every number in the index. */
module CaNumbers {
  import opened Text
  import opened HexSerial
  import opened Revocation
  import opened CaTable
  import opened CaRuns

  /** A serial number above every one in a table. */
  ghost predicate Above(serial: int, rows: seq<Row>) {
    forall i :: 0 <= i < |rows| ==> SerialSyntaxOk(rows[i].serial) && ParseSerial(rows[i].serial) < serial
  }

  /** Numbering from above the table never meets a serial number that is already taken. */
  lemma AboveNeverClashes(serial: int, rows: seq<Row>)
    requires Above(serial, rows)
    ensures FindSerial(rows, SerialText(serial)).None?
  {
    var found := FindSerial(rows, SerialText(serial));
    if found.Some? {
      SerialRoundTrip(serial);
      KeyDecidesNumber(rows[found.value].serial, SerialText(serial));
    }
  }

  /** A certificate that is added leaves the serial number above the table exactly when its number is below it. */
  lemma AddedBelow(serial: int, rows: seq<Row>, cert: Cert)
    requires Above(serial, rows)
    ensures Above(serial, rows + [cert.NewRow()]) <==> cert.serial < serial
  {
    SerialRoundTrip(cert.serial);
    var rows' := rows + [cert.NewRow()];
    assert rows'[|rows|].serial == SerialText(cert.serial);
    forall i | 0 <= i < |rows| ensures SerialSyntaxOk(rows'[i].serial) && ParseSerial(rows'[i].serial) < serial {
      assert rows'[i] == rows[i];
    }
  }

  lemma AboveMore(serial: int, more: int, rows: seq<Row>)
    requires Above(serial, rows) && serial <= more
    ensures Above(more, rows)
  {
  }

  /** A batch numbered from a serial number above the table ends with one above the longer table. */
  lemma {:induction false} AboveBatch(serial: int, rows: seq<Row>, certs: seq<Cert>)
    requires Above(serial, rows)
    requires forall i :: 0 <= i < |certs| ==> certs[i].serial == serial + i
    ensures Above(serial + |certs|, rows + NewRows(certs))
    decreases certs
  {
    if certs == [] {
      assert rows + [] == rows;
    } else {
      AboveMore(serial, serial + 1, rows);
      AddedBelow(serial + 1, rows, certs[0]);
      AboveBatch(serial + 1, rows + [certs[0].NewRow()], certs[1..]);
      Assoc(rows, certs[0].NewRow(), NewRows(certs[1..]));
    }
  }

  /** At every point of a batch that started above the table, the next number is free. */
  lemma BatchNeverClashes(b: Batch, reqs: seq<Request>)
    requires Above(b.serial, b.db.rows)
    ensures var b' := IssueAll(b, reqs);
      Above(b'.serial, b'.db.rows) && FindSerial(b'.db.rows, SerialText(b'.serial)).None?
  {
    var certs := BatchConserves(b, reqs);
    AboveBatch(b.serial, b.db.rows, certs);
    AboveNeverClashes(IssueAll(b, reqs).serial, IssueAll(b, reqs).db.rows);
  }

  /** The counter is above the live table, if both are there. */
  ghost predicate DiskAbove(disk: Disk) {
    disk.index.Some? && disk.serial.Some? ==> Above(disk.serial.value, disk.index.value)
  }

  /** It is, and memory is the live table while the run goes on. */
  ghost predicate Tracked(s: Session) {
    DiskAbove(s.disk) && (s.running ==> s.disk.index == Some(s.db.rows))
  }

  /** Both files present before and after: whatever a save leaves of them is in order. */
  lemma LeaveAbove(rows: seq<Row>, serial: int, rows': seq<Row>, serial': int, save: Save)
    requires Above(serial, rows) && Above(serial', rows') && serial <= serial'
    ensures DiskAbove(Leave(Disk(Some(rows), Some(serial)), Disk(Some(rows'), Some(serial')), save))
  {
    AboveMore(serial, serial', rows);
  }

  /** Saving the table alone. */
  lemma IndexLeaveAbove(disk: Disk, rows: seq<Row>, save: Save)
    requires DiskAbove(disk) && disk.index.Some? && (disk.serial.Some? ==> Above(disk.serial.value, rows))
    ensures DiskAbove(Leave(disk, disk.(index := Some(rows)), save))
  {
    if disk.serial.Some? { LeaveAbove(disk.index.value, disk.serial.value, rows, disk.serial.value, save); }
  }

  /** Rows with the same serial columns. */
  lemma AboveSame(serial: int, rows: seq<Row>, rows': seq<Row>)
    requires |rows'| == |rows| && forall i :: 0 <= i < |rows| ==> rows'[i].serial == rows[i].serial
    ensures Above(serial, rows) <==> Above(serial, rows')
  {
  }

  lemma UpdateTracked(f: Formats, s: Session, update: Option<int>, save: Save)
    requires Tracked(s) && s.running
    ensures Tracked(UpdatePhase(f, s, update, save))
  {
    if update.Some? {
      var (cnt, rows) := Expired(f, s.db.rows, update.value);
      ExpiredMeaning(f, s.db.rows, update.value);
      if s.disk.serial.Some? { AboveSame(s.disk.serial.value, s.db.rows, rows); }
      IndexLeaveAbove(s.disk, rows, save);
      if cnt == 0 { NothingDue(f, s.db.rows, update.value); }
    }
  }

  lemma NothingDue(f: Formats, rows: seq<Row>, now: int)
    requires Expired(f, rows, now).0 == 0
    ensures Expired(f, rows, now).1 == rows
  {
    ExpiredMeaning(f, rows, now);
    assert Due(f, rows, now, 0) == {};
    forall i | 0 <= i < |rows| ensures Aged(f, rows[i], now) == rows[i] {
      assert i !in Due(f, rows, now, 0);
    }
  }

  lemma IssueTracked(s: Session, reqs: seq<Request>, commit: bool, save: Save)
    requires Tracked(s)
    ensures Tracked(IssuePhase(s, reqs, commit, save))
  {
    if s.running && s.disk.serial.Some? {
      var serial := s.disk.serial.value;
      var b := IssueAll(Batch(true, s.db, serial, []), reqs);
      BatchIs(s.db, serial, reqs);
      AboveBatch(serial, s.db.rows, b.issued);
      LeaveAbove(s.db.rows, serial, b.db.rows, b.serial, save);
      if b.issued == [] { assert s.db.rows + [] == s.db.rows; }
    }
  }

  /** Revoking keeps the counter above the table exactly when it adds no number that the counter has not passed. */
  lemma RevokedBelow(f: Formats, db: Db, serial: int, cert: Cert, kind: RevocationType, arg: string, now: string)
    requires Above(serial, db.rows) && Revoked(f, db, cert, kind, arg, now).0 == 1
    ensures Above(serial, Revoked(f, db, cert, kind, arg, now).1.rows)
       <==> FindSerial(db.rows, SerialText(cert.serial)).Some? || cert.serial < serial
  {
    var i := RevokedAt(f, db, cert, kind, arg, now);
    OneRowAbove(serial, db.rows, Revoked(f, db, cert, kind, arg, now).1.rows, i, cert);
  }

  /** `rows'` is `rows` with one row rewritten or, at its end, added for a certificate. */
  ghost predicate OneRowMore(rows: seq<Row>, rows': seq<Row>, i: nat, cert: Cert) {
    && i < |rows'| && |rows'| == (if i < |rows| then |rows| else i + 1) && i <= |rows|
    && (forall j :: 0 <= j < |rows| ==> j < |rows'| && rows'[j].serial == rows[j].serial)
    && (i == |rows| ==> rows'[i].serial == SerialText(cert.serial))
  }

  lemma OneRowAbove(serial: int, rows: seq<Row>, rows': seq<Row>, i: nat, cert: Cert)
    requires Above(serial, rows) && OneRowMore(rows, rows', i, cert)
    ensures Above(serial, rows') <==> i < |rows| || cert.serial < serial
  {
    if i < |rows| {
      AboveSame(serial, rows, rows');
    } else {
      AddedBelow(serial, rows, cert);
      AddedSerials(rows, rows', cert);
      AboveSame(serial, rows + [cert.NewRow()], rows');
    }
  }

  lemma AddedSerials(rows: seq<Row>, rows': seq<Row>, cert: Cert)
    requires OneRowMore(rows, rows', |rows|, cert)
    ensures |rows'| == |rows| + 1
    ensures forall j :: 0 <= j < |rows'| ==> rows'[j].serial == (rows + [cert.NewRow()])[j].serial
  {
    forall j | 0 <= j < |rows'| ensures rows'[j].serial == (rows + [cert.NewRow()])[j].serial {
      if j < |rows| { assert (rows + [cert.NewRow()])[j] == rows[j]; }
    }
  }

  /** After a successful request the counter's number is still free exactly when the request did not add it. */
  lemma NextNumberFree(f: Formats, db: Db, serial: int, cert: Cert, kind: RevocationType, arg: string, now: string)
    requires Above(serial, db.rows) && Revoked(f, db, cert, kind, arg, now).0 == 1
    ensures FindSerial(Revoked(f, db, cert, kind, arg, now).1.rows, SerialText(serial)).None?
       <==> FindSerial(db.rows, SerialText(cert.serial)).Some? || cert.serial != serial
  {
    var i := RevokedAt(f, db, cert, kind, arg, now);
    AboveNeverClashes(serial, db.rows);
    OneRowFree(serial, db.rows, Revoked(f, db, cert, kind, arg, now).1.rows, i, cert);
  }

  lemma OneRowFree(serial: int, rows: seq<Row>, rows': seq<Row>, i: nat, cert: Cert)
    requires FindSerial(rows, SerialText(serial)).None? && OneRowMore(rows, rows', i, cert)
    ensures FindSerial(rows', SerialText(serial)).None? <==> i < |rows| || cert.serial != serial
  {
    var found := FindSerial(rows', SerialText(serial));
    if found.Some? && found.value == |rows| { KeyInjective(cert.serial, serial); }
    if i == |rows| { assert rows'[i].serial == SerialText(cert.serial); }
  }

  /** The certificate named by a revocation is in the table or has a number that was handed out. */
  ghost predicate Known(s: Session, revoke: Option<RevokeArgs>) {
    s.running && revoke.Some? && s.disk.serial.Some? ==>
      || FindSerial(s.db.rows, SerialText(revoke.value.cert.serial)).Some?
      || revoke.value.cert.serial < s.disk.serial.value
  }

  lemma RevokeTracked(f: Formats, s: Session, revoke: Option<RevokeArgs>, save: Save)
    requires Tracked(s) && Known(s, revoke)
    ensures Tracked(RevokePhase(f, s, revoke, save))
  {
    if s.running && revoke.Some? {
      var RevokeArgs(cert, kind, arg, now) := revoke.value;
      var (code, db) := Revoked(f, s.db, cert, kind, arg, now);
      RevokeAbove(f, s, cert, kind, arg, now);
      RevokeSaved(s, code, db, save);
    }
  }

  lemma RevokeAbove(f: Formats, s: Session, cert: Cert, kind: RevocationType, arg: string, now: string)
    requires Tracked(s) && s.running && Known(s, Some(RevokeArgs(cert, kind, arg, now)))
    ensures var (code, db) := Revoked(f, s.db, cert, kind, arg, now);
      code > 0 && s.disk.serial.Some? ==> Above(s.disk.serial.value, db.rows)
  {
    if Revoked(f, s.db, cert, kind, arg, now).0 > 0 && s.disk.serial.Some? {
      RevokedBelow(f, s.db, s.disk.serial.value, cert, kind, arg, now);
    }
  }

  lemma RevokeSaved(s: Session, code: int, db: Db, save: Save)
    requires Tracked(s) && s.running && (code > 0 && s.disk.serial.Some? ==> Above(s.disk.serial.value, db.rows))
    ensures Tracked(if code <= 0 then Session(db, s.disk, false)
                    else Session(db, Leave(s.disk, s.disk.(index := Some(db.rows)), save), save.Done?))
  {
    if code > 0 { IndexLeaveAbove(s.disk, db.rows, save); }
  }

  /** Every revocation of the runs names a known certificate. */
  ghost predicate AllKnown(f: Formats, unique: bool, disk: Disk, invs: seq<Invocation>)
    decreases invs
  {
    || invs == [] || disk.index.None?
    || match Loaded(f, unique, FileText(disk.index.value))
       case None => true
       case Some(db) =>
         && Known(Prepared(f, Session(db, disk, true), invs[0]), invs[0].revoke)
         && AllKnown(f, unique, RunOnce(f, unique, disk, invs[0]).value, invs[1..])
  }

  lemma RunAbove(f: Formats, disk: Disk, db: Db, inv: Invocation)
    requires disk.index == Some(db.rows) && DiskAbove(disk)
    requires Known(Prepared(f, Session(db, disk, true), inv), inv.revoke)
    ensures DiskAbove(RevokePhase(f, Prepared(f, Session(db, disk, true), inv), inv.revoke, inv.saves.revoke).disk)
  {
    var s := Session(db, disk, true);
    UpdateTracked(f, s, inv.update, inv.saves.update);
    IssueTracked(UpdatePhase(f, s, inv.update, inv.saves.update), inv.reqs, inv.commit, inv.saves.issue);
    RevokeTracked(f, Prepared(f, s, inv), inv.revoke, inv.saves.revoke);
  }

  /** Without an index file nothing changes any more. */
  lemma {:induction false} NoIndexStays(f: Formats, unique: bool, disk: Disk, invs: seq<Invocation>)
    requires disk.index.None?
    ensures RunAll(f, unique, disk, invs) == Some(disk)
    decreases invs
  {
    if invs == [] {
    } else {
      NoIndexStays(f, unique, disk, invs[1..]);
    }
  }

  /** Over every sequence of runs whose revocations name known certificates, whatever saves fail and wherever runs
      crash, the counter stays above the table, so that no run ever meets a taken number. */
  lemma {:induction false} NumberingTheorem(f: Formats, unique: bool, start: seq<Row>, disk: Disk,
                                            invs: seq<Invocation>)
    requires DiskOk(f, unique, start, disk) && DiskAbove(disk)
    requires forall i :: 0 <= i < |invs| ==> InvocationOk(f, invs[i])
    requires AllKnown(f, unique, disk, invs)
    ensures var r := RunAll(f, unique, disk, invs);
      && r.Some? && DiskAbove(r.value)
      && (r.value.index.Some? && r.value.serial.Some? ==>
            FindSerial(r.value.index.value, SerialText(r.value.serial.value)).None?)
    decreases invs
  {
    if disk.index.None? {
      NoIndexStays(f, unique, disk, invs);
    } else if invs == [] {
      if disk.serial.Some? { AboveNeverClashes(disk.serial.value, disk.index.value); }
    } else {
      SavedLoads(f, unique, disk.index.value);
      RunKeeps(f, unique, start, disk, invs[0]);
      RunAbove(f, disk, Loaded(f, unique, FileText(disk.index.value)).value, invs[0]);
      NumberingTheorem(f, unique, start, RunOnce(f, unique, disk, invs[0]).value, invs[1..]);
    }
  }

  /** A certificate from elsewhere with the counter's number: once it is added, the next issue fails. */
  lemma ForeignNumberTaken(db: Db, cert: Cert, req: Request)
    requires Inserted(db, cert.NewRow()).Some?
    ensures IssueOne(Inserted(db, cert.NewRow()).value, cert.serial, req).0 == -1
  {
    var rows := Inserted(db, cert.NewRow()).value.rows;
    assert rows[|rows| - 1] == cert.NewRow();
  }
}
