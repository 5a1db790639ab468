/** The CA database in memory: rows with a serial index and a name index, changed in place by the
    `ca` program (`TXT_DB`, `index_index`, `do_body`, `do_revoke`, `do_updatedb`). */
module CaDatabase {
  import opened Text
  import opened HexSerial
  import opened Revocation
  import opened TextDb
  import opened CaTable
  import opened CaRuns

  ghost predicate SerialIndexOk(rows: seq<Row>, m: map<string, nat>) {
    && (forall k :: k in m ==> m[k] < |rows| && SerialKey(rows[m[k]].serial) == k)
    && (forall i :: 0 <= i < |rows| ==> SerialKey(rows[i].serial) in m && m[SerialKey(rows[i].serial)] == i)
  }

  /** Name lookups are answered from positions of rows with that name. */
  ghost predicate NameIndexOk(unique: bool, rows: seq<Row>, m: map<string, nat>) {
    && (!unique ==> m == map[])
    && (forall k :: k in m ==> m[k] < |rows| && rows[m[k]].name == k)
    && (unique ==> forall i :: 0 <= i < |rows| && rows[i].Type() == 'V' ==> rows[i].name in m)
  }

  /** The index answers as a search through the rows would. */
  lemma {:induction false} IndexFinds(rows: seq<Row>, m: map<string, nat>, serial: string)
    requires SerialIndexOk(rows, m)
    ensures FindSerial(rows, serial) == if SerialKey(serial) in m then Some(m[SerialKey(serial)]) else None
  {
    var r := FindSerial(rows, serial);
    if r.Some? {
      assert m[SerialKey(rows[r.value].serial)] == r.value;
    }
  }

  /** The field checks made on one row of a loaded table. */
  method CheckRow(f: Formats, r: Row) returns (ok: bool)
    requires NoNul(r.revocation)
    ensures ok <==> RowLoads(f, r)
  {
    if r.Type() != 'R' && r.revocation != "" { return false; }
    if r.Type() == 'R' {
      var read, out := UnpackRevinfo(f, r.revocation);
      if !read { return false; }
    }
    if !f.Time(r.expiry) { return false; }
    ok := CheckSerial(r.serial);
  }

  /** The same row by row. */
  method CheckFields(f: Formats, rows: seq<Row>) returns (ok: bool)
    requires forall i :: 0 <= i < |rows| ==> NoNul(rows[i].revocation)
    ensures ok <==> RowsLoad(f, rows)
  {
    for i := 0 to |rows|
      invariant forall k :: 0 <= k < i ==> RowLoads(f, rows[k])
    {
      var good := CheckRow(f, rows[i]);
      if !good { return false; }
    }
    return true;
  }

  method CheckSerial(s: string) returns (ok: bool)
    ensures ok <==> SerialSyntaxOk(s)
  {
    var p := 0;
    if s != "" && s[0] == '-' { p := 1; }
    var j := |s| - p;
    if j % 2 != 0 || j < 2 { return false; }
    ghost var digits := s[p..];
    ghost var start := p;
    while p < |s|
      invariant start <= p <= |s|
      invariant forall k :: 0 <= k < p - start ==> IsHex(digits[k])
    {
      if !IsHex(s[p]) {
        assert digits[p - start] == s[p];
        return false;
      }
      p := p + 1;
    }
    return true;
  }

  class CaDb {
    var rows: seq<Row>
    var bySerial: map<string, nat>
    var byName: map<string, nat>
    const unique: bool

    ghost predicate Valid()
      reads this
    {
      SerialIndexOk(rows, bySerial) && NameIndexOk(unique, rows, byName)
    }

    ghost function View(): (db: Db)
      reads this
    {
      Db(rows, byName.Keys, unique)
    }

    constructor (rows: seq<Row>, unique: bool)
      ensures this.rows == rows && this.unique == unique && bySerial == map[] && byName == map[]
    {
      this.rows := rows;
      this.unique := unique;
      bySerial, byName := map[], map[];
    }

    /** `TXT_DB_create_index` for serial numbers: fails at the first clash. */
    method CreateSerialIndex() returns (ok: bool)
      modifies this`bySerial
      ensures ok <==> SerialsDistinct(rows)
      ensures ok ==> SerialIndexOk(rows, bySerial)
    {
      var idx: map<string, nat> := map[];
      var i := 0;
      while i < |rows|
        invariant 0 <= i <= |rows|
        invariant SerialIndexOk(rows[..i], idx)
        invariant bySerial == old(bySerial)
      {
        var key := SerialKey(rows[i].serial);
        if key in idx {
          assert rows[..i][idx[key]] == rows[idx[key]];
          return false;
        }
        SerialIndexAppend(rows[..i], idx, rows[i]);
        assert rows[..i + 1] == rows[..i] + [rows[i]];
        idx := idx[key := i];
        i := i + 1;
      }
      assert rows[..i] == rows;
      SerialIndexDistinct(rows, idx);
      bySerial := idx;
      return true;
    }

    /** `TXT_DB_create_index` for names, which takes in only rows of type 'V'. */
    method CreateNameIndex() returns (ok: bool)
      requires unique
      modifies this`byName
      ensures ok <==> ValidNamesDistinct(rows)
      ensures ok ==> NameIndexOk(true, rows, byName) && byName.Keys == ValidNames(rows)
    {
      var idx: map<string, nat> := map[];
      var i := 0;
      while i < |rows|
        invariant 0 <= i <= |rows|
        invariant forall k :: k in idx ==> idx[k] < i && rows[idx[k]].name == k && rows[idx[k]].Type() == 'V'
        invariant forall j :: 0 <= j < i && rows[j].Type() == 'V' ==> rows[j].name in idx && idx[rows[j].name] == j
        invariant byName == old(byName)
      {
        if rows[i].Type() == 'V' {
          if rows[i].name in idx {
            return false;
          }
          idx := idx[rows[i].name := i];
        }
        i := i + 1;
      }
      byName := idx;
      assert idx.Keys == ValidNames(rows);
      return true;
    }

    /** `TXT_DB_get_by_index` on the serial column. */
    method GetBySerial(serial: string) returns (r: Option<nat>)
      requires Valid()
      ensures r == FindSerial(rows, serial)
    {
      IndexFinds(rows, bySerial, serial);
      var key := SerialKey(serial);
      return if key in bySerial then Some(bySerial[key]) else None;
    }

    /** `TXT_DB_insert`: all indexes are consulted before any is changed. */
    method Insert(row: Row) returns (ok: bool)
      requires Valid()
      modifies this
      ensures Valid()
      ensures ok <==> Inserted(old(View()), row).Some?
      ensures View() == if ok then Inserted(old(View()), row).value else old(View())
    {
      IndexFinds(rows, bySerial, row.serial);
      var key := SerialKey(row.serial);
      if key in bySerial { return false; }
      var named := unique && row.Type() == 'V';
      if named && row.name in byName { return false; }
      SerialIndexAppend(rows, bySerial, row);
      bySerial := bySerial[key := |rows|];
      if named { byName := byName[row.name := |rows|]; }
      rows := rows + [row];
      assert byName.Keys == if named then old(byName.Keys) + {row.name} else old(byName.Keys);
      return true;
    }

    /** The end of `do_body`. */
    method Issue(cert: Cert, consent: bool, signs: bool) returns (code: int)
      requires Valid()
      modifies this
      ensures Valid()
      ensures (code, View()) == Issued(old(View()), cert, consent, signs)
    {
      var row := cert.NewRow();
      if unique && row.name in byName { return -1; }
      var clash := GetBySerial(row.serial);
      if clash.Some? { return -1; }
      if !consent { return 0; }
      if !signs { return -1; }
      var ok := Insert(row);
      return if ok then 1 else -1;
    }

    /** Rewriting the type and the revocation date of a row. */
    method SetRevoked(i: nat, text: string)
      requires Valid() && i < |rows|
      modifies this`rows
      ensures Valid() && View() == MarkRevoked(old(View()), i, text)
    {
      rows := rows[i := rows[i].(kind := "R", revocation := text)];
      assert forall j :: 0 <= j < |rows| ==> rows[j].serial == old(rows)[j].serial && rows[j].name == old(rows)[j].name;
    }

    /** `do_revoke` for the row of a certificate: after adding a missing row it calls itself, and then
        the row is there. */
    method RevokeRow(f: Formats, row: Row, kind: RevocationType, arg: string, now: string) returns (code: int)
      requires Valid() && row.Type() == 'V'
      modifies this
      ensures Valid()
      ensures (code, View()) == RevokedRow(f, old(View()), row, kind, arg, now)
      decreases FindSerial(rows, row.serial).None?
    {
      var found := GetBySerial(row.serial);
      if found.None? {
        var ok := Insert(row);
        if !ok { return -1; }
        if kind.RevValid? { return 1; }
        RetryDecides(f, old(View()), row, kind, arg, now);
        code := RevokeRow(f, row, kind, arg, now);
      } else if row.name != rows[found.value].name {
        return -1;
      } else if kind.RevValid? {
        return -1;
      } else if rows[found.value].Type() == 'R' {
        return -1;
      } else {
        var text := MakeRevocationStr(f, kind, arg, now);
        if text.None? { return -1; }
        SetRevoked(found.value, text.value);
        return 1;
      }
    }

    /** `do_revoke`. */
    method Revoke(f: Formats, cert: Cert, kind: RevocationType, arg: string, now: string) returns (code: int)
      requires Valid()
      modifies this
      ensures Valid()
      ensures (code, View()) == Revoked(f, old(View()), cert, kind, arg, now)
    {
      code := RevokeRow(f, cert.NewRow(), kind, arg, now);
    }

    /** Row `i` of a type 'V' that has run out becomes a row of type 'E'. */
    method AgeRow(f: Formats, i: nat, now: int) returns (changed: bool)
      requires i < |rows|
      modifies this`rows
      ensures rows == old(rows)[i := Aged(f, old(rows[i]), now)] && (changed <==> rows[i] != old(rows[i]))
    {
      changed := rows[i].Type() == 'V' && f.instant(rows[i].expiry) <= now;
      if changed { rows := rows[i := rows[i].(kind := "E")]; }
    }

    /** `do_updatedb`. */
    method UpdateDb(f: Formats, now: int) returns (cnt: int)
      requires Valid()
      modifies this`rows
      ensures Valid()
      ensures (cnt, rows) == Expired(f, old(rows), now)
    {
      cnt := 0;
      var i := 0;
      AgedIndexes(f, unique, rows, now, bySerial, byName);
      while i < |rows|
        invariant 0 <= i <= |rows| && cnt >= 0
        invariant ExpiredFrom(f, rows, now, i, cnt) == Expired(f, old(rows), now)
      {
        if rows[i].Type() == 'V' && !f.Time(rows[i].expiry) {
          return -1;
        }
        var changed := AgeRow(f, i, now);
        if changed { cnt := cnt + 1; }
        i := i + 1;
      }
    }

    /** One request of the issue loop. */
    method IssueNext(req: Request, serial: int) returns (code: int)
      requires Valid()
      modifies this
      ensures Valid()
      ensures (code, View()) == IssueOne(old(View()), serial, req)
    {
      if !req.accepted { return -1; }
      code := Issue(Cert(req.subject, serial, req.notAfter), req.consent, req.signs);
    }

    /** The issue loop. */
    method IssueBatch(start: int, reqs: seq<Request>) returns (ok: bool, serial: int, issued: seq<Cert>)
      requires Valid()
      modifies this
      ensures Valid()
      ensures Batch(ok, View(), serial, issued) == IssueAll(Batch(true, old(View()), start, []), reqs)
    {
      ok, serial, issued := true, start, [];
      var i := 0;
      assert reqs[0..] == reqs;
      while i < |reqs| && ok
        invariant Valid()
        invariant 0 <= i <= |reqs|
        invariant IssueAll(Batch(ok, View(), serial, issued), reqs[i..])
            == IssueAll(Batch(true, old(View()), start, []), reqs)
      {
        assert reqs[i..][0] == reqs[i] && reqs[i..][1..] == reqs[i + 1..];
        var code := IssueNext(reqs[i], serial);
        if code < 0 {
          ok := false;
        } else if code > 0 {
          issued := issued + [Cert(reqs[i].subject, serial, reqs[i].notAfter)];
          serial := serial + 1;
        }
        i := i + 1;
      }
    }
  }

  // ----- whole runs

  /** `load_index`, the field checks and `index_index`. */
  method Load(f: Formats, unique: bool, text: string) returns (db: CaDb?)
    requires NoNul(text)
    ensures db == null <==> Loaded(f, unique, text).None?
    ensures db != null ==> fresh(db) && db.Valid() && db.View() == Loaded(f, unique, text).value
  {
    var fields := ReadTable(text, COLUMNS);
    if fields.None? { return null; }
    ParseWidth(text, COLUMNS);
    TableLacks(text, COLUMNS, '\0');
    var rows := RowsOf(fields.value);
    forall i | 0 <= i < |rows| ensures NoNul(rows[i].revocation) {
      assert rows[i].revocation == fields.value[i][2];
    }
    var ok := CheckFields(f, rows);
    if !ok { return null; }
    var loaded := new CaDb(rows, unique);
    ok := loaded.CreateSerialIndex();
    if !ok { return null; }
    if unique {
      ok := loaded.CreateNameIndex();
      if !ok { return null; }
    }
    return loaded;
  }

  /** `-updatedb`: the index file is rewritten only if some row changed. */
  method UpdateStep(f: Formats, db: CaDb, disk: Disk, update: Option<int>, save: Save)
    returns (live: Disk, running: bool)
    requires db.Valid()
    modifies db
    ensures db.Valid()
    ensures Session(db.View(), live, running) == UpdatePhase(f, Session(old(db.View()), disk, true), update, save)
  {
    live, running := disk, true;
    if update.Some? {
      var cnt := db.UpdateDb(f, update.value);
      if cnt < 0 {
        running := false;
      } else if cnt > 0 {
        live, running := Leave(disk, disk.(index := Some(db.rows)), save), save.Done?;
      }
    }
  }

  /** Issuing and committing a batch. */
  method IssueStep(db: CaDb, disk: Disk, reqs: seq<Request>, commit: bool, save: Save)
    returns (live: Disk, running: bool)
    requires db.Valid()
    modifies db
    ensures db.Valid()
    ensures Session(db.View(), live, running) == IssuePhase(Session(old(db.View()), disk, true), reqs, commit, save)
  {
    live, running := disk, true;
    if reqs == [] { return; }
    if disk.serial.None? { return disk, false; }
    var ok, serial, issued := db.IssueBatch(disk.serial.value, reqs);
    if !ok {
      running := false;
    } else if issued != [] {
      if commit {
        live, running := Leave(disk, Disk(Some(db.rows), Some(serial)), save), save.Done?;
      } else {
        running := false;
      }
    }
  }

  /** `-revoke` and `-valid`. */
  method RevokeStep(f: Formats, db: CaDb, disk: Disk, revoke: Option<RevokeArgs>, save: Save)
    returns (live: Disk, running: bool)
    requires db.Valid()
    modifies db
    ensures db.Valid()
    ensures Session(db.View(), live, running) == RevokePhase(f, Session(old(db.View()), disk, true), revoke, save)
  {
    live, running := disk, true;
    if revoke.Some? {
      var RevokeArgs(cert, kind, arg, now) := revoke.value;
      var code := db.Revoke(f, cert, kind, arg, now);
      if code > 0 {
        live, running := Leave(disk, disk.(index := Some(db.rows)), save), save.Done?;
      } else {
        running := false;
      }
    }
  }

  /** A whole run of `ca` on the live files. */
  method Run(f: Formats, unique: bool, disk: Disk, inv: Invocation) returns (r: Option<Disk>)
    requires disk.index.Some? ==> NoNul(FileText(disk.index.value))
    ensures r == RunOnce(f, unique, disk, inv)
  {
    if disk.index.None? { return Some(disk); }
    var text := WriteTable(ColumnsOf(disk.index.value));
    var db := Load(f, unique, text);
    if db == null { return None; }
    var live, running := UpdateStep(f, db, disk, inv.update, inv.saves.update);
    if running {
      live, running := IssueStep(db, live, inv.reqs, inv.commit, inv.saves.issue);
    }
    if running {
      live, running := RevokeStep(f, db, live, inv.revoke, inv.saves.revoke);
    }
    return Some(live);
  }

  /** A run on files that an earlier one has left. */
  method RunNext(f: Formats, unique: bool, start: seq<Row>, disk: Disk, inv: Invocation) returns (live: Disk)
    requires DiskOk(f, unique, start, disk) && InvocationOk(f, inv)
    ensures RunOnce(f, unique, disk, inv) == Some(live) && DiskOk(f, unique, start, live)
  {
    if disk.index.Some? { ColumnsStorable(disk.index.value); }
    RunKeeps(f, unique, start, disk, inv);
    var next := Run(f, unique, disk, inv);
    live := next.value;
  }

  /** Any number of runs, each on the files that the one before has left. */
  method RunMany(f: Formats, unique: bool, start: seq<Row>, disk: Disk, invs: seq<Invocation>) returns (live: Disk)
    requires DiskOk(f, unique, start, disk)
    requires forall i :: 0 <= i < |invs| ==> InvocationOk(f, invs[i])
    ensures RunAll(f, unique, disk, invs) == Some(live) && DiskOk(f, unique, start, live)
    decreases invs
  {
    if invs == [] { return disk; }
    live := RunNext(f, unique, start, disk, invs[0]);
    live := RunMany(f, unique, start, live, invs[1..]);
  }

  /** What a status query reports. */
  datatype Report = NotPresent | ValidCert | RevokedCert | ExpiredCert | SuspendedCert | UnknownType

  function ReportFor(rows: seq<Row>, serial: string): (r: Report) {
    match FindSerial(rows, serial)
    case None => NotPresent
    case Some(i) =>
      match rows[i].Type()
      case 'V' => ValidCert
      case 'R' => RevokedCert
      case 'E' => ExpiredCert
      case 'S' => SuspendedCert
      case _ => UnknownType
  }

  /** `get_certificate_status`: any hexadecimal spelling of a number gives the report for the CA's spelling. */
  method CertificateStatus(db: CaDb, serial: string) returns (ok: int, report: Report)
    requires db.Valid()
    ensures report == ReportFor(db.rows, QueryText(serial))
    ensures AllHex(serial) ==> report == ReportFor(db.rows, SerialText(HexValue(serial)))
    ensures ok == if report.NotPresent? || report.UnknownType? then -1 else 1
  {
    var found := db.GetBySerial(QueryText(serial));
    if AllHex(serial) {
      QueryFindsNumber(serial);
      SameKey(db.rows, QueryText(serial), SerialText(HexValue(serial)));
    }
    if found.None? { return -1, NotPresent; }
    var kind := db.rows[found.value].Type();
    if kind == 'V' { return 1, ValidCert; }
    if kind == 'R' { return 1, RevokedCert; }
    if kind == 'E' { return 1, ExpiredCert; }
    if kind == 'S' { return 1, SuspendedCert; }
    return -1, UnknownType;
  }

  /** The report is that of the one row with the key of the text. */
  lemma ReportExactly(rows: seq<Row>, serial: string)
    requires SerialsDistinct(rows)
    ensures var r := ReportFor(rows, serial);
      && (r.NotPresent? <==> forall i :: 0 <= i < |rows| ==> SerialKey(rows[i].serial) != SerialKey(serial))
      && forall i :: 0 <= i < |rows| && SerialKey(rows[i].serial) == SerialKey(serial) ==>
           && (r.ValidCert? <==> rows[i].Type() == 'V') && (r.RevokedCert? <==> rows[i].Type() == 'R')
           && (r.ExpiredCert? <==> rows[i].Type() == 'E') && (r.SuspendedCert? <==> rows[i].Type() == 'S')
           && (r.UnknownType? <==> rows[i].Type() !in {'V', 'R', 'E', 'S'})
  {
    var found := FindSerial(rows, serial);
    forall i | 0 <= i < |rows| && SerialKey(rows[i].serial) == SerialKey(serial) ensures found == Some(i) {
      assert SerialKey(rows[found.value].serial) == SerialKey(rows[i].serial);
    }
  }

  // ----- helper facts

  lemma SerialIndexAppend(rows: seq<Row>, m: map<string, nat>, row: Row)
    requires SerialIndexOk(rows, m) && SerialKey(row.serial) !in m
    ensures SerialIndexOk(rows + [row], m[SerialKey(row.serial) := |rows|])
  {
  }

  lemma SerialIndexDistinct(rows: seq<Row>, m: map<string, nat>)
    requires SerialIndexOk(rows, m)
    ensures SerialsDistinct(rows)
  {
    forall i, j | 0 <= i < j < |rows| ensures SerialKey(rows[i].serial) != SerialKey(rows[j].serial) {
      assert m[SerialKey(rows[i].serial)] == i && m[SerialKey(rows[j].serial)] == j;
    }
  }

  /** A row that was just added is the one its serial number finds. */
  lemma JustAdded(rows: seq<Row>, row: Row)
    ensures FindSerial(rows + [row], row.serial) == Some(|rows|)
  {
    assert (rows + [row])[|rows + [row]| - 1] == row;
  }

  /** The retry after an insertion computes the whole result. */
  lemma RetryDecides(f: Formats, db: Db, row: Row, kind: RevocationType, arg: string, now: string)
    requires FindSerial(db.rows, row.serial).None? && Inserted(db, row).Some? && !kind.RevValid? && row.Type() == 'V'
    ensures var added := Inserted(db, row).value;
      && FindSerial(added.rows, row.serial).Some?
      && RevokedRow(f, db, row, kind, arg, now) == RevokedRow(f, added, row, kind, arg, now)
  {
    JustAdded(db.rows, row);
  }

  /** Aging rows leaves both indexes right. */
  lemma AgedIndexes(f: Formats, unique: bool, rows: seq<Row>, now: int, bySerial: map<string, nat>,
                    byName: map<string, nat>)
    requires SerialIndexOk(rows, bySerial) && NameIndexOk(unique, rows, byName)
    ensures var rows' := Expired(f, rows, now).1; SerialIndexOk(rows', bySerial) && NameIndexOk(unique, rows', byName)
  {
    ExpiredMeaning(f, rows, now);
  }

  /** Only the key of a serial text matters to a search. */
  lemma {:induction false} SameKey(rows: seq<Row>, s: string, t: string)
    requires SerialKey(s) == SerialKey(t)
    ensures FindSerial(rows, s) == FindSerial(rows, t)
  {
    if rows != [] { SameKey(rows[..|rows| - 1], s, t); }
  }
}
