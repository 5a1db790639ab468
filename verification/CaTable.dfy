/** The rows of the CA database and the operations on them, as functions on values: what a run of
    the `ca` program may do to the table. */
module CaTable {
  import opened Text
  import opened HexSerial
  import opened Revocation
  import opened TextDb

  datatype Row = Row(kind: string, expiry: string, revocation: string, serial: string, file: string, name: string)
  {
    /** The first character of the type column, which is all the programs look at. */
    function Type(): (c: char) {
      if kind == "" then '\0' else kind[0]
    }

    function Columns(): (f: Fields) {
      [kind, expiry, revocation, serial, file, name]
    }
  }

  const COLUMNS := 6

  function RowOf(f: Fields): (r: Row)
    requires |f| == COLUMNS
  {
    Row(f[0], f[1], f[2], f[3], f[4], f[5])
  }

  /** A loaded table. `names` holds the keys of the name index, which is used only when subjects must
      be unique; it may keep the names of rows that have left type 'V' since the index was built. */
  datatype Db = Db(rows: seq<Row>, names: set<string>, unique: bool)

  // ----- what a table must satisfy to be loaded

  predicate RowLoads(f: Formats, r: Row) {
    && (r.Type() != 'R' ==> r.revocation == "")
    && (r.Type() == 'R' ==> RevInfoOf(f, r.revocation).Some?)
    && f.Time(r.expiry)
    && SerialSyntaxOk(r.serial)
  }

  ghost predicate RowsLoad(f: Formats, rows: seq<Row>) {
    forall i :: 0 <= i < |rows| ==> RowLoads(f, rows[i])
  }

  ghost predicate SerialsDistinct(rows: seq<Row>) {
    forall i, j :: 0 <= i < j < |rows| ==> SerialKey(rows[i].serial) != SerialKey(rows[j].serial)
  }

  ghost predicate ValidNamesDistinct(rows: seq<Row>) {
    forall i, j :: 0 <= i < j < |rows| && rows[i].Type() == 'V' && rows[j].Type() == 'V'
        ==> rows[i].name != rows[j].name
  }

  /** The row can be saved without loss, as C strings. */
  ghost predicate RowStorable(row: Row) {
    Storable(row.Columns()) && Lacks(row.Columns(), '\0')
  }

  /** The table can be saved without loss. */
  ghost predicate RowsStorable(rows: seq<Row>) {
    forall i :: 0 <= i < |rows| ==> RowStorable(rows[i])
  }

  ghost predicate WellFormed(f: Formats, unique: bool, rows: seq<Row>) {
    && RowsLoad(f, rows)
    && SerialsDistinct(rows)
    && (unique ==> ValidNamesDistinct(rows))
    && RowsStorable(rows)
  }

  /** Well formed, and the name index covers at least the rows of type 'V'. */
  ghost predicate DbOk(f: Formats, db: Db) {
    WellFormed(f, db.unique, db.rows) && (db.unique ==> NamesCovered(db))
  }

  /** The same without the field checks. */
  ghost predicate Shaped(db: Db) {
    && RowsStorable(db.rows) && SerialsDistinct(db.rows)
    && (db.unique ==> ValidNamesDistinct(db.rows) && NamesCovered(db))
  }

  ghost predicate NamesCovered(db: Db) {
    forall i :: 0 <= i < |db.rows| && db.rows[i].Type() == 'V' ==> db.rows[i].name in db.names
  }

  // ----- the operations

  function FindSerial(rows: seq<Row>, serial: string): (r: Option<nat>)
    ensures r.Some? ==> r.value < |rows| && SerialKey(rows[r.value].serial) == SerialKey(serial)
    ensures r.None? ==> forall i :: 0 <= i < |rows| ==> SerialKey(rows[i].serial) != SerialKey(serial)
  {
    if rows == [] then None
    else if SerialKey(rows[|rows| - 1].serial) == SerialKey(serial) then Some(|rows| - 1)
    else FindSerial(rows[..|rows| - 1], serial)
  }

  /** Appending a row, unless an index already has its key. */
  function Inserted(db: Db, row: Row): (r: Option<Db>) {
    if FindSerial(db.rows, row.serial).Some? then None
    else if db.unique && row.Type() == 'V' && row.name in db.names then None
    else Some(db.(rows := db.rows + [row],
                  names := if db.unique && row.Type() == 'V' then db.names + {row.name} else db.names))
  }

  /** A certificate as the database sees it. */
  datatype Cert = Cert(subject: string, serial: int, notAfter: string)
  {
    /** An empty subject is replaced by the serial number. */
    function Name(): (s: string) {
      if subject == "" then SerialText(serial) else subject
    }

    function NewRow(): (r: Row) {
      Row("V", notAfter, "", SerialText(serial), "unknown", Name())
    }
  }

  /** The end of `do_body`: clash checks, the operator's consent, the signature and the insertion.
      The result code is 1 for issued, 0 for declined and -1 for an error that ends the run. */
  function Issued(db: Db, cert: Cert, consent: bool, signs: bool): (r: (int, Db)) {
    var row := cert.NewRow();
    if db.unique && row.name in db.names then (-1, db)
    else if FindSerial(db.rows, row.serial).Some? then (-1, db)
    else if !consent then (0, db)
    else if !signs then (-1, db)
    else match Inserted(db, row) case Some(db') => (1, db') case None => (-1, db)
  }

  /** Marking row `i` revoked. */
  function MarkRevoked(db: Db, i: nat, text: string): (r: Db)
    requires i < |db.rows|
  {
    db.(rows := db.rows[i := db.rows[i].(kind := "R", revocation := text)])
  }

  /** Revoking row `i`, unless the argument is not acceptable. */
  function RevokeAt(f: Formats, db: Db, i: nat, kind: RevocationType, arg: string, now: string): (r: (int, Db))
    requires i < |db.rows|
  {
    match RevocationText(f, kind, arg, now)
    case None => (-1, db)
    case Some(text) => (1, MarkRevoked(db, i, text))
  }

  /** `do_revoke`, with its retry unfolded: a row that is not in the table is first added, and then
      revoked unless the request was only to add it. */
  function RevokedRow(f: Formats, db: Db, row: Row, kind: RevocationType, arg: string, now: string): (r: (int, Db)) {
    match FindSerial(db.rows, row.serial)
    case None =>
      (match Inserted(db, row)
       case None => (-1, db)
       case Some(added) => if kind.RevValid? then (1, added) else RevokeAt(f, added, |db.rows|, kind, arg, now))
    case Some(i) =>
      if db.rows[i].name != row.name || kind.RevValid? || db.rows[i].Type() == 'R' then (-1, db)
      else RevokeAt(f, db, i, kind, arg, now)
  }

  function Revoked(f: Formats, db: Db, cert: Cert, kind: RevocationType, arg: string, now: string): (r: (int, Db)) {
    RevokedRow(f, db, cert.NewRow(), kind, arg, now)
  }

  /** One row at time `now`. */
  function Aged(f: Formats, r: Row, now: int): (r': Row) {
    if r.Type() == 'V' && f.instant(r.expiry) <= now then r.(kind := "E") else r
  }

  /** `do_updatedb` from row `i` on, having counted `cnt`: rows are aged in order; an unreadable expiry
      date of a 'V' row stops the pass with count -1 and leaves the rest as it was. */
  function ExpiredFrom(f: Formats, rows: seq<Row>, now: int, i: nat, cnt: nat): (r: (int, seq<Row>))
    requires i <= |rows|
    decreases |rows| - i
  {
    if i == |rows| then (cnt, rows)
    else if rows[i].Type() == 'V' && !f.Time(rows[i].expiry) then (-1, rows)
    else
      var row := Aged(f, rows[i], now);
      ExpiredFrom(f, rows[i := row], now, i + 1, if row != rows[i] then cnt + 1 else cnt)
  }

  function Expired(f: Formats, rows: seq<Row>, now: int): (r: (int, seq<Row>)) {
    ExpiredFrom(f, rows, now, 0, 0)
  }

  // ----- saving and loading

  function ColumnsOf(rows: seq<Row>): (r: seq<Fields>)
    ensures |r| == |rows| && forall i :: 0 <= i < |rows| ==> r[i] == rows[i].Columns()
  {
    seq(|rows|, i requires 0 <= i < |rows| => rows[i].Columns())
  }

  function RowsOf(fields: seq<Fields>): (r: seq<Row>)
    requires forall i :: 0 <= i < |fields| ==> |fields[i]| == COLUMNS
    ensures |r| == |fields| && forall i :: 0 <= i < |fields| ==> r[i] == RowOf(fields[i])
  {
    seq(|fields|, i requires 0 <= i < |fields| => RowOf(fields[i]))
  }

  function FileText(rows: seq<Row>): (s: string) {
    TableText(ColumnsOf(rows))
  }

  function ValidNames(rows: seq<Row>): (s: set<string>) {
    set i | 0 <= i < |rows| && rows[i].Type() == 'V' :: rows[i].name
  }

  /** Loading an index file: parsing, the field checks, and building the indexes. */
  ghost function Loaded(f: Formats, unique: bool, text: string): (r: Option<Db>) {
    match ParseTable(text, COLUMNS)
    case None => None
    case Some(fields) =>
      ParseWidth(text, COLUMNS);
      var rows := RowsOf(fields);
      if RowsLoad(f, rows) && SerialsDistinct(rows) && (unique ==> ValidNamesDistinct(rows))
      then Some(Db(rows, if unique then ValidNames(rows) else {}, unique)) else None
  }
}
