/** What one run of the `ca` program does to the live files, and when it does it, in terms of its inputs alone. */
module CaEffects {
  import opened Text
  import opened HexSerial
  import opened Revocation
  import opened CaTable
  import opened CaRuns

  // ----- which certificates are issued

  /** The index takes the serial column of a row for number `n`. */
  predicate HasNumber(row: Row, n: int) {
    SerialKey(row.serial) == SerialKey(SerialText(n))
  }

  ghost predicate Taken(rows: seq<Row>, n: int) {
    exists i :: 0 <= i < |rows| && HasNumber(rows[i], n)
  }

  lemma TakenIs(rows: seq<Row>, n: int)
    ensures FindSerial(rows, SerialText(n)).Some? <==> Taken(rows, n)
  {
    var found := FindSerial(rows, SerialText(n));
    if found.Some? { assert HasNumber(rows[found.value], n); }
  }

  lemma FoundAt(rows: seq<Row>, n: int, i: nat)
    requires SerialsDistinct(rows) && i < |rows| && HasNumber(rows[i], n)
    ensures FindSerial(rows, SerialText(n)) == Some(i)
  {
    var found := FindSerial(rows, SerialText(n));
    assert found.Some?;
    SameRow(rows, found.value, i);
  }

  lemma SameRow(rows: seq<Row>, i: nat, j: nat)
    requires SerialsDistinct(rows) && i < |rows| && j < |rows| && SerialKey(rows[i].serial) == SerialKey(rows[j].serial)
    ensures i == j
  {
  }

  /** A certificate is issued exactly when number and name are free, the operator consents and signing succeeds; it is
      declined exactly when both are free and the operator does not consent. Nothing changes unless it is issued. */
  lemma IssuedExactly(db: Db, cert: Cert, consent: bool, signs: bool)
    ensures var name := if cert.subject == "" then SerialText(cert.serial) else cert.subject;
      var free := !Taken(db.rows, cert.serial) && (db.unique ==> name !in db.names);
      var (code, db') := Issued(db, cert, consent, signs);
      && (code == 1 <==> free && consent && signs)
      && (code == 0 <==> free && !consent)
      && (code == -1 <==> !free || (consent && !signs))
      && (code != 1 ==> db' == db)
      && (code == 1 ==>
            && db'.rows == db.rows + [Row("V", cert.notAfter, "", SerialText(cert.serial), "unknown", name)]
            && db'.names == (if db.unique then db.names + {name} else db.names) && db'.unique == db.unique)
  {
    TakenIs(db.rows, cert.serial);
  }

  /** How many of the requests the operator agrees to. */
  function Consents(reqs: seq<Request>): (n: nat) {
    if reqs == [] then 0 else (if reqs[0].consent then 1 else 0) + Consents(reqs[1..])
  }

  /** The certificates for those, numbered from `serial` on. */
  function Served(serial: int, reqs: seq<Request>): (certs: seq<Cert>)
    ensures |certs| == Consents(reqs)
    decreases reqs
  {
    if reqs == [] then []
    else if reqs[0].consent then [Cert(reqs[0].subject, serial, reqs[0].notAfter)] + Served(serial + 1, reqs[1..])
    else Served(serial, reqs[1..])
  }

  function NameFor(req: Request, n: int): (name: string) {
    if req.subject == "" then SerialText(n) else req.subject
  }

  /** The number that request `i` of a batch meets. */
  function NumberFor(serial: int, reqs: seq<Request>, i: nat): (n: int)
    requires i < |reqs|
  {
    serial + Consents(reqs[..i])
  }

  function NameAt(serial: int, reqs: seq<Request>, i: nat): (name: string)
    requires i < |reqs|
  {
    NameFor(reqs[i], NumberFor(serial, reqs, i))
  }

  /** The name of request `i` is in use neither in the table nor by a request before it. */
  ghost predicate NameFree(names: set<string>, serial: int, reqs: seq<Request>, i: nat)
    requires i < |reqs|
  {
    && NameAt(serial, reqs, i) !in names
    && forall j :: 0 <= j < i && reqs[j].consent ==> NameAt(serial, reqs, j) != NameAt(serial, reqs, i)
  }

  /** Request `i` can be served: it passes the policy, it can be signed if the operator agrees to it, its number is
      free, and so is its name where names must be unique. */
  ghost predicate Servable(db: Db, serial: int, reqs: seq<Request>, i: nat)
    requires i < |reqs|
  {
    && reqs[i].accepted && (reqs[i].consent ==> reqs[i].signs)
    && !Taken(db.rows, NumberFor(serial, reqs, i))
    && (db.unique ==> NameFree(db.names, serial, reqs, i))
  }

  ghost predicate AllServable(db: Db, serial: int, reqs: seq<Request>) {
    forall i :: 0 <= i < |reqs| ==> Servable(db, serial, reqs, i)
  }

  lemma ServedOne(b: Batch, req: Request)
    requires b.ok
    ensures NextBatch(b, req).ok
       <==> && req.accepted && (req.consent ==> req.signs) && !Taken(b.db.rows, b.serial)
            && (b.db.unique ==> NameFor(req, b.serial) !in b.db.names)
  {
    IssuedExactly(b.db, Cert(req.subject, b.serial, req.notAfter), req.consent, req.signs);
  }

  lemma ServableFirst(b: Batch, reqs: seq<Request>)
    requires b.ok && reqs != []
    ensures NextBatch(b, reqs[0]).ok <==> Servable(b.db, b.serial, reqs, 0)
  {
    ServedOne(b, reqs[0]);
    assert NumberFor(b.serial, reqs, 0) == b.serial by { assert reqs[..0] == []; }
  }

  lemma NumberForNext(serial: int, reqs: seq<Request>, i: nat)
    requires i + 1 < |reqs|
    ensures NumberFor(serial, reqs, i + 1) == NumberFor(if reqs[0].consent then serial + 1 else serial, reqs[1..], i)
  {
    assert reqs[..i + 1][1..] == reqs[1..][..i];
  }

  /** A served request takes one number and one name. */
  lemma NextBatchIs(b: Batch, req: Request)
    requires b.ok && NextBatch(b, req).ok
    ensures var next := NextBatch(b, req);
      if req.consent then
        && next.serial == b.serial + 1 && next.issued == b.issued + [Cert(req.subject, b.serial, req.notAfter)]
        && next.db.unique == b.db.unique
        && (forall n :: n > b.serial ==> (Taken(next.db.rows, n) <==> Taken(b.db.rows, n)))
        && (b.db.unique ==> next.db.names == b.db.names + {NameFor(req, b.serial)})
      else next == b
  {
    var cert := Cert(req.subject, b.serial, req.notAfter);
    IssuedExactly(b.db, cert, req.consent, req.signs);
    if req.consent { TakenAfter(b.db.rows, NextBatch(b, req).db.rows[|b.db.rows|], b.serial); }
  }

  lemma TakenAfter(rows: seq<Row>, row: Row, serial: int)
    requires row.serial == SerialText(serial)
    ensures forall n :: n > serial ==> (Taken(rows + [row], n) <==> Taken(rows, n))
  {
    forall n | n > serial ensures Taken(rows + [row], n) <==> Taken(rows, n) {
      if SerialKey(SerialText(serial)) == SerialKey(SerialText(n)) { KeyInjective(serial, n); }
      assert rows <= rows + [row];
      if Taken(rows, n) {
        var i :| 0 <= i < |rows| && HasNumber(rows[i], n);
        assert HasNumber((rows + [row])[i], n);
      }
    }
  }

  function NextSerial(serial: int, req: Request): (n: int) {
    if req.consent then serial + 1 else serial
  }

  function NextNames(names: set<string>, serial: int, req: Request): (r: set<string>) {
    if req.consent then names + {NameFor(req, serial)} else names
  }

  lemma NameAtNext(serial: int, reqs: seq<Request>, i: nat)
    requires i + 1 < |reqs|
    ensures NameAt(serial, reqs, i + 1) == NameAt(NextSerial(serial, reqs[0]), reqs[1..], i)
  {
    NumberForNext(serial, reqs, i);
  }

  lemma NameAtFirst(serial: int, reqs: seq<Request>)
    requires reqs != []
    ensures NameAt(serial, reqs, 0) == NameFor(reqs[0], serial)
  {
    assert reqs[..0] == [];
  }

  /** What request `i` must avoid, seen from behind the first one. */
  lemma NameFreeBehind(names: set<string>, serial: int, reqs: seq<Request>, i: nat)
    requires i + 1 < |reqs| && NameFree(names, serial, reqs, i + 1)
    ensures NameFree(NextNames(names, serial, reqs[0]), NextSerial(serial, reqs[0]), reqs[1..], i)
  {
    NameAtFirst(serial, reqs);
    NameAtNext(serial, reqs, i);
    var serial', rest := NextSerial(serial, reqs[0]), reqs[1..];
    forall j | 0 <= j < i && rest[j].consent ensures NameAt(serial', rest, j) != NameAt(serial', rest, i) {
      NameAtNext(serial, reqs, j);
      assert reqs[j + 1].consent;
    }
  }

  lemma NameFreeBefore(names: set<string>, serial: int, reqs: seq<Request>, i: nat)
    requires i + 1 < |reqs|
    requires NameFree(NextNames(names, serial, reqs[0]), NextSerial(serial, reqs[0]), reqs[1..], i)
    ensures NameFree(names, serial, reqs, i + 1)
  {
    NameAtFirst(serial, reqs);
    NameAtNext(serial, reqs, i);
    forall j | 0 <= j < i + 1 && reqs[j].consent ensures NameAt(serial, reqs, j) != NameAt(serial, reqs, i + 1) {
      if j > 0 {
        NameAtNext(serial, reqs, j - 1);
        assert reqs[1..][j - 1].consent;
      }
    }
  }

  lemma ServableNext(b: Batch, reqs: seq<Request>, i: nat)
    requires b.ok && i + 1 < |reqs| && NextBatch(b, reqs[0]).ok
    ensures var next := NextBatch(b, reqs[0]);
      Servable(next.db, next.serial, reqs[1..], i) <==> Servable(b.db, b.serial, reqs, i + 1)
  {
    NextBatchIs(b, reqs[0]);
    NumberForNext(b.serial, reqs, i);
    var next := NextBatch(b, reqs[0]);
    if NameFree(b.db.names, b.serial, reqs, i + 1) { NameFreeBehind(b.db.names, b.serial, reqs, i); }
    if NameFree(NextNames(b.db.names, b.serial, reqs[0]), next.serial, reqs[1..], i) {
      NameFreeBefore(b.db.names, b.serial, reqs, i);
    }
  }

  /** Request `k` is the first one that cannot be served. */
  ghost predicate StopsAt(db: Db, serial: int, reqs: seq<Request>, k: nat) {
    && k <= |reqs| && (forall i :: 0 <= i < k ==> Servable(db, serial, reqs, i))
    && (k < |reqs| ==> !Servable(db, serial, reqs, k))
  }

  /** A batch stops at the first request that cannot be served, and has by then issued exactly the certificates that the
      operator agreed to, in order. */
  lemma {:induction false} BatchStops(b: Batch, reqs: seq<Request>) returns (k: nat)
    requires b.ok
    ensures StopsAt(b.db, b.serial, reqs, k) && (IssueAll(b, reqs).ok <==> k == |reqs|)
    ensures IssueAll(b, reqs).issued == b.issued + Served(b.serial, reqs[..k])
    decreases reqs
  {
    k := 0;
    assert b.issued + Served(b.serial, reqs[..0]) == b.issued;
    if reqs != [] {
      ServableFirst(b, reqs);
      if NextBatch(b, reqs[0]).ok {
        k := BatchStops(NextBatch(b, reqs[0]), reqs[1..]);
        StopsBehind(b, reqs, k);
        ServedBehind(b, reqs, k);
        k := k + 1;
      }
    }
  }

  lemma StopsBehind(b: Batch, reqs: seq<Request>, k: nat)
    requires b.ok && reqs != [] && NextBatch(b, reqs[0]).ok
    requires StopsAt(NextBatch(b, reqs[0]).db, NextBatch(b, reqs[0]).serial, reqs[1..], k)
    ensures StopsAt(b.db, b.serial, reqs, k + 1)
  {
    ServableFirst(b, reqs);
    forall i | 0 <= i < k + 1 ensures Servable(b.db, b.serial, reqs, i) {
      if i > 0 { ServableNext(b, reqs, i - 1); }
    }
    if k + 1 < |reqs| { ServableNext(b, reqs, k); }
  }

  lemma ServedBehind(b: Batch, reqs: seq<Request>, k: nat)
    requires b.ok && reqs != [] && NextBatch(b, reqs[0]).ok && k <= |reqs[1..]|
    ensures var next := NextBatch(b, reqs[0]);
      next.issued + Served(next.serial, reqs[1..][..k]) == b.issued + Served(b.serial, reqs[..k + 1])
  {
    NextBatchIs(b, reqs[0]);
    ServedCons(b.serial, reqs, k);
    var next := NextBatch(b, reqs[0]);
    if reqs[0].consent {
      Assoc(b.issued, Cert(reqs[0].subject, b.serial, reqs[0].notAfter), Served(next.serial, reqs[1..][..k]));
    }
  }

  lemma ServedCons(serial: int, reqs: seq<Request>, k: nat)
    requires reqs != [] && k <= |reqs[1..]|
    ensures Served(serial, reqs[..k + 1]) ==
      if reqs[0].consent then [Cert(reqs[0].subject, serial, reqs[0].notAfter)] + Served(serial + 1, reqs[1..][..k])
      else Served(serial, reqs[1..][..k])
  {
    assert reqs[..k + 1][1..] == reqs[1..][..k];
  }

  /** The certificate of a request that the operator agrees to. */
  lemma {:induction false} ServedAt(serial: int, reqs: seq<Request>, i: nat)
    requires i < |reqs| && reqs[i].consent
    ensures var k := Consents(reqs[..i]);
      k < Consents(reqs) && Served(serial, reqs)[k] == Cert(reqs[i].subject, serial + k, reqs[i].notAfter)
    decreases reqs
  {
    if i == 0 {
      assert reqs[..0] == [];
    } else {
      assert reqs[..i][1..] == reqs[1..][..i - 1];
      ServedAt(if reqs[0].consent then serial + 1 else serial, reqs[1..], i - 1);
    }
  }

  /** Every certificate is that of such a request. */
  lemma {:induction false} ServedFrom(serial: int, reqs: seq<Request>, k: nat) returns (i: nat)
    requires k < Consents(reqs)
    ensures i < |reqs| && reqs[i].consent && Consents(reqs[..i]) == k
    decreases reqs
  {
    i := 0;
    assert reqs[..0] == [];
    if !reqs[0].consent || k > 0 {
      i := ServedFrom(serial, reqs[1..], if reqs[0].consent then k - 1 else k);
      assert reqs[..i + 1][1..] == reqs[1..][..i];
      i := i + 1;
    }
  }

  /** So it runs to its end exactly when every request can be served. */
  lemma BatchExactly(b: Batch, reqs: seq<Request>)
    requires b.ok
    ensures IssueAll(b, reqs).ok <==> AllServable(b.db, b.serial, reqs)
    ensures IssueAll(b, reqs).ok ==> IssueAll(b, reqs).issued == b.issued + Served(b.serial, reqs)
  {
    var k := BatchStops(b, reqs);
    assert reqs[..|reqs|] == reqs;
  }

  // ----- what each part of a run does when its save succeeds

  /** `-updatedb`: the live index is the table in memory, and exactly the 'V' rows that have run out become 'E'. */
  lemma UpdateDone(f: Formats, s: Session, now: int)
    requires s.disk.index == Some(s.db.rows) && RowsLoad(f, s.db.rows)
    ensures var s' := UpdatePhase(f, s, Some(now), Done);
      && s'.running && s'.db == s.db.(rows := s'.db.rows) && s'.disk == s.disk.(index := Some(s'.db.rows))
      && Outdated(f, s.db.rows, s'.db.rows, now)
  {
    var rows := s.db.rows;
    var (cnt, rows') := Expired(f, rows, now);
    ExpiredMeaning(f, rows, now);
    assert forall i :: 0 <= i < |rows| ==> RowLoads(f, rows[i]);
    if cnt == 0 {
      assert Due(f, rows, now, 0) == {};
      forall i | 0 <= i < |rows| ensures rows'[i] == rows[i] {
        assert i !in Due(f, rows, now, 0);
      }
      assert rows' == rows;
    }
  }

  /** `rows'` is `rows` with every row of type 'V' that has run out marked as expired, and nothing else changed. */
  ghost predicate Outdated(f: Formats, rows: seq<Row>, rows': seq<Row>, now: int) {
    && |rows'| == |rows|
    && forall i :: 0 <= i < |rows| ==>
         var due := rows[i].Type() == 'V' && f.instant(rows[i].expiry) <= now;
         rows'[i] == if due then rows[i].(kind := "E") else rows[i]
  }

  /** A batch goes to disk exactly when it can be served to its end, something is issued and the operator commits; the
      run goes on behind it exactly when it can be served, unless there was something to commit and it was not. */
  lemma IssueDone(s: Session, reqs: seq<Request>, commit: bool, serial: int)
    requires s.running && s.disk == Disk(Some(s.db.rows), Some(serial))
    ensures var certs, s' := Served(serial, reqs), IssuePhase(s, reqs, commit, Done);
      var ok := AllServable(s.db, serial, reqs) && (certs != [] ==> commit);
      && s'.running == ok
      && s'.disk == (if ok then Disk(Some(s.db.rows + NewRows(certs)), Some(serial + |certs|)) else s.disk)
      && (ok ==> s'.db.rows == s.db.rows + NewRows(certs) && s'.db.unique == s.db.unique)
  {
    BatchResult(s.db, serial, reqs);
    assert s.db.rows + NewRows([]) == s.db.rows;
  }

  lemma BatchResult(db: Db, serial: int, reqs: seq<Request>)
    ensures var b, certs := IssueAll(Batch(true, db, serial, []), reqs), Served(serial, reqs);
      && (b.ok <==> AllServable(db, serial, reqs))
      && (b.ok ==> b.issued == certs && b.serial == serial + |certs| && b.db.rows == db.rows + NewRows(certs))
      && b.db.unique == db.unique
  {
    var b := Batch(true, db, serial, []);
    BatchExactly(b, reqs);
    BatchIs(db, serial, reqs);
    BatchUnique(b, reqs);
    assert [] + Served(serial, reqs) == Served(serial, reqs);
  }

  /** The files behind a batch whose save succeeds. */
  ghost function AfterBatch(db: Db, serial: int, reqs: seq<Request>, commit: bool): (disk: Disk) {
    var certs := Served(serial, reqs);
    if AllServable(db, serial, reqs) && commit then Disk(Some(db.rows + NewRows(certs)), Some(serial + |certs|))
    else Disk(Some(db.rows), Some(serial))
  }

  lemma IssueWrites(s: Session, reqs: seq<Request>, commit: bool, serial: int)
    requires s.running && s.disk == Disk(Some(s.db.rows), Some(serial))
    ensures IssuePhase(s, reqs, commit, Done).disk == AfterBatch(s.db, serial, reqs, commit)
  {
    IssueDone(s, reqs, commit, serial);
    assert s.db.rows + NewRows([]) == s.db.rows;
  }

  lemma {:induction false} BatchUnique(b: Batch, reqs: seq<Request>)
    ensures IssueAll(b, reqs).db.unique == b.db.unique
    decreases reqs
  {
    if reqs != [] && b.ok { BatchUnique(NextBatch(b, reqs[0]), reqs[1..]); }
  }

  /** A batch needs the serial file. */
  lemma IssueNeedsCounter(s: Session, reqs: seq<Request>, commit: bool, save: Save)
    requires s.running && reqs != [] && s.disk.serial.None?
    ensures var s' := IssuePhase(s, reqs, commit, save); !s'.running && s'.disk == s.disk
  {
  }

  /** A certificate in the table is revoked exactly when its name agrees, it is not yet revoked and the argument is
      acceptable; it is never added again. */
  lemma RevokedFound(f: Formats, db: Db, args: RevokeArgs, i: nat)
    requires SerialsDistinct(db.rows) && i < |db.rows| && HasNumber(db.rows[i], args.cert.serial)
    ensures var rows, text := db.rows, RevocationText(f, args.kind, args.arg, args.now);
      var ok := !args.kind.RevValid? && rows[i].Type() != 'R' && text.Some? &&
        rows[i].name == if args.cert.subject == "" then SerialText(args.cert.serial) else args.cert.subject;
      Revoked(f, db, args.cert, args.kind, args.arg, args.now) ==
        if ok then (1, db.(rows := rows[i := rows[i].(kind := "R", revocation := text.value)])) else (-1, db)
  {
    FoundAt(db.rows, args.cert.serial, i);
  }

  /** One that is not is added exactly when its name is free, and then revoked unless that was not asked for; an
      argument that is not acceptable leaves it added in memory and is an error. */
  lemma RevokedAdded(f: Formats, db: Db, args: RevokeArgs)
    requires !Taken(db.rows, args.cert.serial)
    ensures var number, text := SerialText(args.cert.serial), RevocationText(f, args.kind, args.arg, args.now);
      var name := if args.cert.subject == "" then number else args.cert.subject;
      var valid := args.kind.RevValid? || text.None?;
      Revoked(f, db, args.cert, args.kind, args.arg, args.now) ==
        if db.unique && name in db.names then (-1, db)
        else (if args.kind.RevValid? || text.Some? then 1 else -1,
              db.(rows := db.rows + [Row(if valid then "V" else "R", args.cert.notAfter,
                                         if valid then "" else text.value, number, "unknown", name)],
                  names := if db.unique then db.names + {name} else db.names))
  {
    TakenIs(db.rows, args.cert.serial);
    var rows, row := db.rows, args.cert.NewRow();
    if RevocationText(f, args.kind, args.arg, args.now).Some? {
      var text := RevocationText(f, args.kind, args.arg, args.now).value;
      var revoked := row.(kind := "R", revocation := text);
      assert (rows + [row])[|rows| := revoked] == rows + [revoked];
    }
  }

  /** What succeeds is saved, and nothing else. */
  lemma RevokeWrites(f: Formats, s: Session, args: RevokeArgs)
    requires s.running
    ensures var (code, db) := Revoked(f, s.db, args.cert, args.kind, args.arg, args.now);
      var s' := RevokePhase(f, s, Some(args), Done);
      && s'.disk == (if code > 0 then s.disk.(index := Some(db.rows)) else s.disk)
      && s'.running == (code > 0) && s'.db == db
  {
  }

  // ----- whole runs

  /** The session that a run starts with. */
  function Opened(unique: bool, rows: seq<Row>, disk: Disk): (s: Session) {
    Session(Db(rows, if unique then ValidNames(rows) else {}, unique), disk, true)
  }

  lemma RunIs(f: Formats, unique: bool, rows: seq<Row>, disk: Disk, inv: Invocation)
    requires WellFormed(f, unique, rows) && disk.index == Some(rows)
    ensures RunOnce(f, unique, disk, inv)
         == Some(RevokePhase(f, Prepared(f, Opened(unique, rows, disk), inv), inv.revoke, inv.saves.revoke).disk)
  {
    SavedLoads(f, unique, rows);
  }

  /** All saves of a run succeed. */
  const ALL_DONE := Saves(Done, Done, Done)

  /** A run that does nothing but one thing. */
  predicate Alone(inv: Invocation, update: Option<int>, reqs: seq<Request>, revoke: Option<RevokeArgs>) {
    inv.update == update && inv.reqs == reqs && inv.revoke == revoke && inv.saves == ALL_DONE
  }

  /** A run of `-updatedb` leaves an index in which exactly the certificates that have run out are marked. */
  lemma UpdateRun(f: Formats, unique: bool, rows: seq<Row>, disk: Disk, inv: Invocation, now: int)
    requires WellFormed(f, unique, rows) && disk.index == Some(rows) && Alone(inv, Some(now), [], None)
    ensures var r := RunOnce(f, unique, disk, inv);
      r.Some? && r.value.serial == disk.serial && r.value.index.Some? && Outdated(f, rows, r.value.index.value, now)
  {
    RunIs(f, unique, rows, disk, inv);
    UpdateDone(f, Opened(unique, rows, disk), now);
  }

  lemma RunIssues(f: Formats, unique: bool, rows: seq<Row>, disk: Disk, inv: Invocation)
    requires WellFormed(f, unique, rows) && disk.index == Some(rows) && Alone(inv, None, inv.reqs, None)
    ensures RunOnce(f, unique, disk, inv)
         == Some(IssuePhase(Opened(unique, rows, disk), inv.reqs, inv.commit, Done).disk)
  {
    RunIs(f, unique, rows, disk, inv);
  }

  /** A run that only issues appends the rows of what is served and moves the counter, or changes nothing. */
  lemma IssueRun(f: Formats, unique: bool, rows: seq<Row>, serial: int, inv: Invocation)
    requires WellFormed(f, unique, rows) && Alone(inv, None, inv.reqs, None)
    ensures var disk := Disk(Some(rows), Some(serial));
      RunOnce(f, unique, disk, inv)
      == Some(AfterBatch(Opened(unique, rows, disk).db, serial, inv.reqs, inv.commit))
  {
    var disk := Disk(Some(rows), Some(serial));
    RunIssues(f, unique, rows, disk, inv);
    IssueWrites(Opened(unique, rows, disk), inv.reqs, inv.commit, serial);
  }

  /** A run of `-revoke` for a certificate in the table. */
  lemma RevokeRun(f: Formats, unique: bool, rows: seq<Row>, disk: Disk, inv: Invocation, args: RevokeArgs, i: nat)
    requires WellFormed(f, unique, rows) && disk.index == Some(rows) && Alone(inv, None, [], Some(args))
    requires i < |rows| && HasNumber(rows[i], args.cert.serial)
    ensures var text := RevocationText(f, args.kind, args.arg, args.now);
      var ok := !args.kind.RevValid? && rows[i].Type() != 'R' && text.Some? &&
        rows[i].name == if args.cert.subject == "" then SerialText(args.cert.serial) else args.cert.subject;
      RunOnce(f, unique, disk, inv) ==
        Some(if ok then disk.(index := Some(rows[i := rows[i].(kind := "R", revocation := text.value)])) else disk)
  {
    RunIs(f, unique, rows, disk, inv);
    RevokeWrites(f, Opened(unique, rows, disk), args);
    RevokedFound(f, Opened(unique, rows, disk).db, args, i);
  }

  /** A run of `-valid` or `-revoke` for one that is not: its row is added unless a valid row has its name. */
  lemma AddRun(f: Formats, unique: bool, rows: seq<Row>, disk: Disk, inv: Invocation, args: RevokeArgs)
    requires WellFormed(f, unique, rows) && disk.index == Some(rows) && Alone(inv, None, [], Some(args))
    requires !Taken(rows, args.cert.serial)
    ensures var number, text := SerialText(args.cert.serial), RevocationText(f, args.kind, args.arg, args.now);
      var name := if args.cert.subject == "" then number else args.cert.subject;
      var inUse := exists i :: 0 <= i < |rows| && rows[i].Type() == 'V' && rows[i].name == name;
      var ok := !(unique && inUse) && (args.kind.RevValid? || text.Some?);
      RunOnce(f, unique, disk, inv) ==
        Some(if !ok then disk
             else disk.(index := Some(rows + [
                    if args.kind.RevValid? then Row("V", args.cert.notAfter, "", number, "unknown", name)
                    else Row("R", args.cert.notAfter, text.value, number, "unknown", name)])))
  {
    RunIs(f, unique, rows, disk, inv);
    RevokeWrites(f, Opened(unique, rows, disk), args);
    RevokedAdded(f, Opened(unique, rows, disk).db, args);
  }

  /** Updating and issuing in one run: the table is aged first, but the names in use are those of the rows that were
      valid when the run started. */
  lemma PreparedDone(f: Formats, unique: bool, rows: seq<Row>, serial: int, inv: Invocation, now: int, aged: seq<Row>)
    requires RowsLoad(f, rows) && Outdated(f, rows, aged, now) && inv.update == Some(now) && inv.commit
    requires inv.saves.update.Done? && inv.saves.issue.Done?
    ensures var s := Prepared(f, Opened(unique, rows, Disk(Some(rows), Some(serial))), inv);
      var certs := Served(serial, inv.reqs);
      if AllServable(Db(aged, if unique then ValidNames(rows) else {}, unique), serial, inv.reqs)
      then s.running && Both(s, aged + NewRows(certs), serial + |certs|)
      else !s.running && s.disk == Disk(Some(aged), Some(serial))
  {
    var s0 := Opened(unique, rows, Disk(Some(rows), Some(serial)));
    UpdatedIs(f, s0, now, aged);
    IssueDone(UpdatePhase(f, s0, Some(now), Done), inv.reqs, true, serial);
  }

  lemma UpdatedIs(f: Formats, s: Session, now: int, aged: seq<Row>)
    requires s.disk.index == Some(s.db.rows) && RowsLoad(f, s.db.rows) && Outdated(f, s.db.rows, aged, now)
    ensures UpdatePhase(f, s, Some(now), Done) == Session(s.db.(rows := aged), s.disk.(index := Some(aged)), true)
  {
    UpdateDone(f, s, now);
    assert UpdatePhase(f, s, Some(now), Done).db.rows == aged;
  }

  /** Memory and both live files. */
  predicate Both(s: Session, rows: seq<Row>, serial: int) {
    s.db.rows == rows && s.disk == Disk(Some(rows), Some(serial))
  }

  /** The row that `-revoke` leaves for row `row`. */
  function AfterRevoke(f: Formats, row: Row, args: RevokeArgs): (r: Row) {
    var text := RevocationText(f, args.kind, args.arg, args.now);
    if !args.kind.RevValid? && row.Type() != 'R' && text.Some? && row.name == args.cert.Name()
    then row.(kind := "R", revocation := text.value) else row
  }

  /** A run that does everything: it ages the table, issues, and revokes a certificate of the result; a batch that
      cannot be served ends it before the revocation. */
  lemma WholeRun(f: Formats, unique: bool, rows: seq<Row>, serial: int, inv: Invocation, now: int, aged: seq<Row>,
                 i: nat)
    requires WellFormed(f, unique, rows) && Outdated(f, rows, aged, now) && inv.update == Some(now) && inv.commit
    requires inv.saves == ALL_DONE && inv.revoke.Some?
    requires var all := aged + NewRows(Served(serial, inv.reqs));
      SerialsDistinct(all) && i < |all| && HasNumber(all[i], inv.revoke.value.cert.serial)
    ensures var certs := Served(serial, inv.reqs);
      var all := aged + NewRows(certs);
      RunOnce(f, unique, Disk(Some(rows), Some(serial)), inv) ==
        if AllServable(Db(aged, if unique then ValidNames(rows) else {}, unique), serial, inv.reqs)
        then Some(Disk(Some(all[i := AfterRevoke(f, all[i], inv.revoke.value)]), Some(serial + |certs|)))
        else Some(Disk(Some(aged), Some(serial)))
  {
    var disk := Disk(Some(rows), Some(serial));
    RunIs(f, unique, rows, disk, inv);
    PreparedDone(f, unique, rows, serial, inv, now, aged);
    var s := Prepared(f, Opened(unique, rows, disk), inv);
    if s.running {
      var all := aged + NewRows(Served(serial, inv.reqs));
      RevokeWrites(f, s, inv.revoke.value);
      RevokedFound(f, s.db, inv.revoke.value, i);
      assert all[i := all[i]] == all;
    }
  }

  /** A certificate that has run out, and a request for its name. */
  ghost predicate Renewal(f: Formats, row: Row, serial: int, req: Request, now: int) {
    && WellFormed(f, true, [row]) && row.Type() == 'V' && f.instant(row.expiry) <= now && !HasNumber(row, serial)
    && req.subject == row.name != "" && req.accepted && req.consent && req.signs
  }

  /** In the run that marks the certificate as expired its name still counts as in use, and the request is refused. */
  lemma RenewalRefused(f: Formats, row: Row, serial: int, req: Request, now: int)
    requires Renewal(f, row, serial, req, now)
    ensures RunOnce(f, true, Disk(Some([row]), Some(serial)), Invocation(Some(now), [req], true, None, ALL_DONE))
         == Some(Disk(Some([row.(kind := "E")]), Some(serial)))
  {
    var both := Invocation(Some(now), [req], true, None, ALL_DONE);
    RunIs(f, true, [row], Disk(Some([row]), Some(serial)), both);
    PreparedDone(f, true, [row], serial, both, now, [row.(kind := "E")]);
    OneRequest([row.(kind := "E")], ValidNames([row]), serial, req);
    assert row.name in ValidNames([row]) by { assert [row][0].Type() == 'V'; }
  }

  lemma ExpiredRow(f: Formats, row: Row, now: int)
    requires WellFormed(f, true, [row]) && row.Type() == 'V' && f.instant(row.expiry) <= now
    ensures WellFormed(f, true, [row.(kind := "E")]) && Outdated(f, [row], [row.(kind := "E")], now)
  {
    var names := ValidNames([row]);
    assert RowLoads(f, [row][0]);
    UpdateKeeps(f, Db([row], names, true), now);
    ExpiredMeaning(f, [row], now);
    assert Expired(f, [row], now).1 == [row.(kind := "E")];
  }

  /** In a run of its own behind that one it is served. */
  lemma RenewalServed(f: Formats, row: Row, serial: int, req: Request, now: int)
    requires Renewal(f, row, serial, req, now)
    ensures var update, issue :=
      Invocation(Some(now), [], true, None, ALL_DONE), Invocation(None, [req], true, None, ALL_DONE);
      RunAll(f, true, Disk(Some([row]), Some(serial)), [update, issue])
      == Some(Disk(Some([row.(kind := "E")] + NewRows([Cert(req.subject, serial, req.notAfter)])), Some(serial + 1)))
  {
    var update, issue :=
      Invocation(Some(now), [], true, None, ALL_DONE), Invocation(None, [req], true, None, ALL_DONE);
    var disk, expired := Disk(Some([row]), Some(serial)), row.(kind := "E");
    ExpiredRow(f, row, now);
    RunIs(f, true, [row], disk, update);
    UpdatedIs(f, Opened(true, [row], disk), now, [expired]);
    IssueRun(f, true, [expired], serial, issue);
    OneRequest([expired], ValidNames([expired]), serial, req);
    TwoRuns(f, disk, update, issue);
  }

  lemma TwoRuns(f: Formats, disk: Disk, a: Invocation, b: Invocation)
    requires RunOnce(f, true, disk, a).Some?
    ensures RunAll(f, true, disk, [a, b]) == RunOnce(f, true, RunOnce(f, true, disk, a).value, b)
  {
    var next := RunOnce(f, true, disk, a).value;
    assert [a, b][1..] == [b];
    assert RunAll(f, true, next, [b]) == RunOnce(f, true, next, b) by {
      if RunOnce(f, true, next, b).Some? {
        assert RunAll(f, true, RunOnce(f, true, next, b).value, [b][1..]) == RunOnce(f, true, next, b);
      }
    }
  }

  lemma OneRequest(rows: seq<Row>, names: set<string>, serial: int, req: Request)
    requires !Taken(rows, serial) && req.subject != "" && req.accepted && req.consent && req.signs
    ensures AllServable(Db(rows, names, true), serial, [req]) <==> req.subject !in names
    ensures Served(serial, [req]) == [Cert(req.subject, serial, req.notAfter)]
  {
    assert [req][..0] == [] && [req][1..] == [];
    assert Servable(Db(rows, names, true), serial, [req], 0) <==> req.subject !in names;
  }
}
