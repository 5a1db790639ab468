/** Committing to disk (`save_serial`, `save_index`, `rotate_serial`, `rotate_index`): which states a crash, an I/O
    error or an unnoticed short write can leave behind. */
module Commit {
  import opened Text
  import opened CaTable
  import opened CaRuns
  import opened CaNumbers

  /** The files of a commit: live, ".new" and ".old" versions of serial number, index and attributes. */
  type Path = p: int | 0 <= p < 9

  const SERIAL: Path := 0
  const SERIAL_NEW: Path := 1
  const SERIAL_OLD: Path := 2
  const INDEX: Path := 3
  const INDEX_NEW: Path := 4
  const INDEX_OLD: Path := 5
  const ATTR: Path := 6
  const ATTR_NEW: Path := 7
  const ATTR_OLD: Path := 8

  datatype Content = Absent | Partial | SerialFile(next: int) | IndexFile(rows: seq<Row>) | AttrFile(unique: bool)

  const NO_FILES: seq<Content> := [Absent, Absent, Absent, Absent, Absent, Absent, Absent, Absent, Absent]

  /** What each file holds. */
  type Files = f: seq<Content> | |f| == 9 witness NO_FILES

  // ----- file operations

  /** A directory and all the states it has been in. */
  datatype Dir = Dir(files: Files, seen: seq<Files>)

  function Start(files: Files): (d: Dir) {
    Dir(files, [files])
  }

  function Enter(d: Dir, files: Files): (d': Dir) {
    Dir(files, d.seen + [files])
  }

  datatype Errno = Moved | NoEntry | Broken

  /** `rename`, which may fail for any reason. */
  function Renamed(d: Dir, src: Path, dst: Path, fault: bool): (r: (Errno, Dir)) {
    if d.files[src].Absent? then (NoEntry, d)
    else if fault then (Broken, d)
    else (Moved, Enter(d, d.files[dst := d.files[src]][src := Absent]))
  }

  /** How writing a file goes: it cannot be opened, it stays incomplete and this is noticed or not, or it is
      complete. */
  datatype Fate = Unopened | Noticed | Unnoticed | Complete

  /** Writing a file: it is emptied and then filled. Only what is noticed counts as a failure. */
  function Written(d: Dir, p: Path, c: Content, fate: Fate): (r: (bool, Dir)) {
    var emptied := Enter(d, d.files[p := Partial]);
    match fate
    case Unopened => (false, d)
    case Noticed => (false, emptied)
    case Unnoticed => (true, emptied)
    case Complete => (true, Enter(emptied, emptied.files[p := c]))
  }

  // ----- the commit

  /** From one pair of live files to another. */
  datatype Change = Change(before: Snapshot, after: Snapshot, unique: bool)

  datatype Snapshot = Snapshot(rows: seq<Row>, serial: int)

  datatype Writes = Writes(serial: Fate, index: Fate, attr: Fate)

  /** Which of the renames fail: live to old, new to live, and back. */
  datatype Turn = Turn(out: bool, into: bool, back: bool)

  datatype Faults = Faults(certs: bool, serial: Turn, index: Turn, attr: Turn, undoOut: bool, undoBack: bool)

  const NO_TURN := Turn(false, false, false)
  const NO_FAULTS := Faults(false, NO_TURN, NO_TURN, NO_TURN, false, false)

  /** The exchange of a live file for a new one, undone if its second half fails. */
  function Rotated(d: Dir, live: Path, staged: Path, aside: Path, t: Turn): (r: (bool, Dir)) {
    var (r, d1) := Renamed(d, live, aside, t.out);
    if r.Broken? then (false, d1) else BroughtIn(d1, live, staged, aside, t)
  }

  function BroughtIn(d: Dir, live: Path, staged: Path, aside: Path, t: Turn): (r: (bool, Dir)) {
    var (r, d1) := Renamed(d, staged, live, t.into);
    if r.Moved? then (true, d1) else (false, Renamed(d1, aside, live, t.back).1)
  }

  /** `save_index`. */
  function IndexSaved(d: Dir, c: Change, w: Writes): (r: (bool, Dir)) {
    var (ok, d1) := Written(d, INDEX_NEW, IndexFile(c.after.rows), w.index);
    if !ok then (false, d1) else Written(d1, ATTR_NEW, AttrFile(c.unique), w.attr)
  }

  /** `rotate_index`: if the attribute file cannot be exchanged, the exchange of the table is undone. */
  function IndexRotated(d: Dir, m: Faults): (r: (bool, Dir)) {
    var (ok, d1) := Rotated(d, INDEX, INDEX_NEW, INDEX_OLD, m.index);
    if !ok then (false, d1)
    else
      var (ok2, d2) := Rotated(d1, ATTR, ATTR_NEW, ATTR_OLD, m.attr);
      if ok2 then (true, d2)
      else (false, Renamed(Renamed(d2, INDEX, INDEX_NEW, m.undoOut).1, INDEX_OLD, INDEX, m.undoBack).1)
  }

  /** The commit of `-updatedb`, `-revoke` and `-valid`. */
  function IndexCommitted(d: Dir, c: Change, w: Writes, m: Faults): (r: (bool, Dir)) {
    var (ok, d1) := IndexSaved(d, c, w);
    if !ok then (false, d1) else IndexRotated(d1, m)
  }

  /** The commit of a batch. Between saving and rotating, the certificates are written. */
  function Committed(d: Dir, c: Change, w: Writes, m: Faults): (r: (bool, Dir)) {
    var (ok, d1) := Written(d, SERIAL_NEW, SerialFile(c.after.serial), w.serial);
    if !ok then (false, d1)
    else
      var (ok2, d2) := IndexSaved(d1, c, w);
      if !ok2 || m.certs then (false, d2)
      else
        var (ok3, d3) := Rotated(d2, SERIAL, SERIAL_NEW, SERIAL_OLD, m.serial);
        if !ok3 then (false, d3) else IndexRotated(d3, m)
  }

  // ----- the programs

  class Store {
    var files: Files
    ghost var seen: seq<Files>

    ghost function View(): (d: Dir)
      reads this
    {
      Dir(files, seen)
    }

    /** `rename`. */
    method Rename(src: Path, dst: Path, fault: bool) returns (r: Errno)
      modifies this
      ensures (r, View()) == Renamed(old(View()), src, dst, fault)
    {
      if files[src].Absent? { return NoEntry; }
      if fault { return Broken; }
      files := files[dst := files[src]][src := Absent];
      seen := seen + [files];
      return Moved;
    }

    /** Opening a file for writing, filling it and closing it. */
    method Write(p: Path, c: Content, fate: Fate) returns (ok: bool)
      modifies this
      ensures (ok, View()) == Written(old(View()), p, c, fate)
    {
      if fate.Unopened? { return false; }
      files := files[p := Partial];
      seen := seen + [files];
      if fate.Complete? {
        files := files[p := c];
        seen := seen + [files];
      }
      return !fate.Noticed?;
    }

    /** The renames of `rotate_serial`, and the two halves of `rotate_index`. */
    method Rotate(live: Path, staged: Path, aside: Path, t: Turn) returns (ok: bool)
      modifies this
      ensures (ok, View()) == Rotated(old(View()), live, staged, aside, t)
    {
      var r := Rename(live, aside, t.out);
      if r.Broken? { return false; }
      ok := BringIn(live, staged, aside, t);
    }

    /** Their second half. */
    method BringIn(live: Path, staged: Path, aside: Path, t: Turn) returns (ok: bool)
      modifies this
      ensures (ok, View()) == BroughtIn(old(View()), live, staged, aside, t)
    {
      var r := Rename(staged, live, t.into);
      if r.Moved? { return true; }
      r := Rename(aside, live, t.back);
      return false;
    }

    /** `save_index`. */
    method SaveIndex(c: Change, w: Writes) returns (ok: bool)
      modifies this
      ensures (ok, View()) == IndexSaved(old(View()), c, w)
    {
      ok := Write(INDEX_NEW, IndexFile(c.after.rows), w.index);
      if !ok { return false; }
      ok := Write(ATTR_NEW, AttrFile(c.unique), w.attr);
    }

    /** `rotate_index`. */
    method RotateIndex(m: Faults) returns (ok: bool)
      modifies this
      ensures (ok, View()) == IndexRotated(old(View()), m)
    {
      ok := Rotate(INDEX, INDEX_NEW, INDEX_OLD, m.index);
      if !ok { return false; }
      ok := Rotate(ATTR, ATTR_NEW, ATTR_OLD, m.attr);
      if !ok {
        var r := Rename(INDEX, INDEX_NEW, m.undoOut);
        r := Rename(INDEX_OLD, INDEX, m.undoBack);
      }
    }

    /** Saving and rotating the index alone. */
    method CommitIndex(c: Change, w: Writes, m: Faults) returns (ok: bool)
      modifies this
      ensures (ok, View()) == IndexCommitted(old(View()), c, w, m)
    {
      ok := SaveIndex(c, w);
      if !ok { return false; }
      ok := RotateIndex(m);
    }

    /** The commit sequence of the issue step. */
    method CommitBatch(c: Change, w: Writes, m: Faults) returns (ok: bool)
      modifies this
      ensures (ok, View()) == Committed(old(View()), c, w, m)
    {
      ok := Write(SERIAL_NEW, SerialFile(c.after.serial), w.serial);
      if !ok { return false; }
      ok := SaveIndex(c, w);
      if !ok { return false; }
      if m.certs { return false; }
      ok := Rotate(SERIAL, SERIAL_NEW, SERIAL_OLD, m.serial);
      if !ok { return false; }
      ok := RotateIndex(m);
    }
  }

  // ----- crash safety

  /** File `p` is there with content `c`. */
  predicate Has(files: Files, p: Path, c: Content) {
    files[p] == c
  }

  /** Two directories that differ at most in the files `ps`. */
  ghost predicate SameBut(a: Files, b: Files, ps: set<Path>) {
    forall q: Path :: q !in ps ==> a[q] == b[q]
  }

  /** What a state during a commit should look like to the next run: each live file is absent or is one of its two
      versions, a new index never stands beside an old serial file, and one of the two tables is on disk in full. */
  ghost predicate CrashSafe(c: Change, files: Files) {
    && (!files[SERIAL].Absent? ==> files[SERIAL] in {SerialFile(c.before.serial), SerialFile(c.after.serial)})
    && (!files[INDEX].Absent? ==> files[INDEX] in {IndexFile(c.before.rows), IndexFile(c.after.rows)})
    && (!files[ATTR].Absent? ==> files[ATTR] == AttrFile(c.unique))
    && (!files[SERIAL].Absent? && !files[INDEX].Absent? && files[INDEX] == IndexFile(c.after.rows)
        ==> files[SERIAL] == SerialFile(c.after.serial))
    && (|| Has(files, INDEX, IndexFile(c.before.rows)) || Has(files, INDEX, IndexFile(c.after.rows))
        || Has(files, INDEX_OLD, IndexFile(c.before.rows)) || Has(files, INDEX_NEW, IndexFile(c.after.rows)))
  }

  /** Every state so far. */
  ghost predicate Safe(c: Change, d: Dir) {
    CrashSafe(c, d.files) && forall k :: 0 <= k < |d.seen| ==> CrashSafe(c, d.seen[k])
  }

  /** Before the first rename: the live files are the old ones. */
  ghost predicate Staged(c: Change, files: Files) {
    && c.before.rows != c.after.rows
    && (files[SERIAL].Absent? || files[SERIAL] == SerialFile(c.before.serial))
    && Has(files, INDEX, IndexFile(c.before.rows))
    && (!files[ATTR].Absent? ==> files[ATTR] == AttrFile(c.unique))
  }

  /** A batch has also read the serial file. */
  ghost predicate BatchStaged(c: Change, files: Files) {
    Staged(c, files) && Has(files, SERIAL, SerialFile(c.before.serial))
  }

  /** There is no live attribute file, and the ".old" one is not what it should be. */
  ghost predicate StaleAttr(c: Change, files: Files) {
    files[ATTR].Absent? && !files[ATTR_OLD].Absent? && files[ATTR_OLD] != AttrFile(c.unique)
  }

  lemma StagedSafe(c: Change, files: Files)
    requires Staged(c, files)
    ensures Safe(c, Start(files))
  {
  }

  lemma EnterSafe(c: Change, d: Dir, files: Files)
    requires Safe(c, d) && CrashSafe(c, files)
    ensures Safe(c, Enter(d, files))
  {
  }

  /** Writing a ".new" file touches no live one. */
  lemma StageOne(c: Change, d: Dir, p: Path, content: Content, fate: Fate)
    requires Safe(c, d) && Staged(c, d.files) && p in {SERIAL_NEW, INDEX_NEW, ATTR_NEW}
    ensures var (ok, d') := Written(d, p, content, fate);
      && Safe(c, d') && Staged(c, d'.files) && SameBut(d'.files, d.files, {p})
      && (ok ==> Has(d'.files, p, if fate.Complete? then content else Partial))
  {
    EnterSafe(c, d, d.files[p := Partial]);
    if fate.Complete? { EnterSafe(c, Enter(d, d.files[p := Partial]), d.files[p := Partial][p := content]); }
  }

  /** The three staged files, complete or not. */
  ghost predicate AllStaged(c: Change, w: Writes, files: Files) {
    && Staged(c, files)
    && Has(files, SERIAL_NEW, if w.serial.Complete? then SerialFile(c.after.serial) else Partial)
    && IndexStaged(c, w, files)
  }

  ghost predicate IndexStaged(c: Change, w: Writes, files: Files) {
    && Has(files, INDEX_NEW, if w.index.Complete? then IndexFile(c.after.rows) else Partial)
    && Has(files, ATTR_NEW, if w.attr.Complete? then AttrFile(c.unique) else Partial)
  }

  lemma StageIndex(c: Change, d: Dir, w: Writes)
    requires Safe(c, d) && Staged(c, d.files)
    ensures var (ok, d') := IndexSaved(d, c, w);
      && Safe(c, d') && Staged(c, d'.files) && SameBut(d'.files, d.files, {INDEX_NEW, ATTR_NEW})
      && (ok <==> Reported(w.index) && Reported(w.attr)) && (ok ==> IndexStaged(c, w, d'.files))
  {
    StageOne(c, d, INDEX_NEW, IndexFile(c.after.rows), w.index);
    var (ok, d1) := Written(d, INDEX_NEW, IndexFile(c.after.rows), w.index);
    if ok { StageOne(c, d1, ATTR_NEW, AttrFile(c.unique), w.attr); }
  }

  /** The program takes the file for written. */
  predicate Reported(fate: Fate) {
    fate.Unnoticed? || fate.Complete?
  }

  // ----- rotating complete files

  lemma RotateSerial(c: Change, d: Dir, t: Turn)
    requires Safe(c, d) && BatchStaged(c, d.files) && Has(d.files, SERIAL_NEW, SerialFile(c.after.serial))
    ensures var (ok, d') := Rotated(d, SERIAL, SERIAL_NEW, SERIAL_OLD, t);
      && Safe(c, d') && SameBut(d'.files, d.files, {SERIAL, SERIAL_NEW, SERIAL_OLD})
      && (ok ==> Has(d'.files, SERIAL, SerialFile(c.after.serial)))
  {
  }

  /** Once the new serial file is live, or if there is none, the index may be exchanged. */
  ghost predicate Counted(c: Change, files: Files) {
    && c.before.rows != c.after.rows && NewCounter(c, files)
    && (!files[ATTR].Absent? ==> files[ATTR] == AttrFile(c.unique)) && !StaleAttr(c, files)
  }

  ghost predicate NewCounter(c: Change, files: Files) {
    files[SERIAL].Absent? || files[SERIAL] == SerialFile(c.after.serial)
  }

  lemma RotateTable(c: Change, d: Dir, t: Turn)
    requires Safe(c, d) && Counted(c, d.files)
    requires Has(d.files, INDEX, IndexFile(c.before.rows)) && Has(d.files, INDEX_NEW, IndexFile(c.after.rows))
    ensures var (ok, d') := Rotated(d, INDEX, INDEX_NEW, INDEX_OLD, t);
      && Safe(c, d') && SameBut(d'.files, d.files, {INDEX, INDEX_NEW, INDEX_OLD})
      && (ok ==> Has(d'.files, INDEX, IndexFile(c.after.rows)) && Has(d'.files, INDEX_OLD, IndexFile(c.before.rows)))
  {
  }

  lemma RotateAttr(c: Change, d: Dir, t: Turn)
    requires Safe(c, d) && Counted(c, d.files)
    requires Has(d.files, INDEX, IndexFile(c.after.rows)) && Has(d.files, ATTR_NEW, AttrFile(c.unique))
    ensures var (ok, d') := Rotated(d, ATTR, ATTR_NEW, ATTR_OLD, t);
      && Safe(c, d') && SameBut(d'.files, d.files, {ATTR, ATTR_NEW, ATTR_OLD})
      && (ok ==> Has(d'.files, ATTR, AttrFile(c.unique)))
  {
  }

  /** Undoing the exchange of the table. */
  lemma UndoTable(c: Change, d: Dir, out: bool, back: bool)
    requires Safe(c, d) && NewCounter(c, d.files)
    requires Has(d.files, INDEX, IndexFile(c.after.rows)) && Has(d.files, INDEX_OLD, IndexFile(c.before.rows))
    ensures Safe(c, Renamed(Renamed(d, INDEX, INDEX_NEW, out).1, INDEX_OLD, INDEX, back).1)
  {
    var d1 := Renamed(d, INDEX, INDEX_NEW, out).1;
    assert Safe(c, d1);
  }

  lemma RotateBoth(c: Change, d: Dir, m: Faults)
    requires Safe(c, d) && Counted(c, d.files) && Has(d.files, INDEX, IndexFile(c.before.rows))
    requires Has(d.files, INDEX_NEW, IndexFile(c.after.rows)) && Has(d.files, ATTR_NEW, AttrFile(c.unique))
    ensures var (ok, d') := IndexRotated(d, m);
      && Safe(c, d')
      && (ok ==> Has(d'.files, INDEX, IndexFile(c.after.rows)) && Has(d'.files, ATTR, AttrFile(c.unique)))
      && (ok ==> d'.files[SERIAL] == d.files[SERIAL])
  {
    RotateTable(c, d, m.index);
    var (ok, d1) := Rotated(d, INDEX, INDEX_NEW, INDEX_OLD, m.index);
    if ok {
      RotateAttr(c, d1, m.attr);
      var (ok2, d2) := Rotated(d1, ATTR, ATTR_NEW, ATTR_OLD, m.attr);
      if !ok2 { UndoTable(c, d2, m.undoOut, m.undoBack); }
    }
  }

  /** The staged files and how a batch goes on from there. */
  lemma StageAll(c: Change, files: Files, w: Writes, m: Faults) returns (d: Dir)
    requires BatchStaged(c, files)
    ensures Safe(c, d) && BatchStaged(c, d.files) && SameBut(d.files, files, {SERIAL_NEW, INDEX_NEW, ATTR_NEW})
    ensures var reported := Reported(w.serial) && Reported(w.index) && Reported(w.attr);
      && (reported ==> AllStaged(c, w, d.files))
      && Committed(Start(files), c, w, m) ==
           if !reported || m.certs then (false, d)
           else
             var (ok, d') := Rotated(d, SERIAL, SERIAL_NEW, SERIAL_OLD, m.serial);
             if ok then IndexRotated(d', m) else (false, d')
  {
    StagedSafe(c, files);
    StageOne(c, Start(files), SERIAL_NEW, SerialFile(c.after.serial), w.serial);
    var (ok, d1) := Written(Start(files), SERIAL_NEW, SerialFile(c.after.serial), w.serial);
    d := d1;
    if ok {
      StageIndex(c, d1, w);
      d := IndexSaved(d1, c, w).1;
    }
  }

  // ----- when a commit is safe

  /** Saving is noticed to fail, so that nothing is rotated. */
  predicate Stopped(w: Writes) {
    !Reported(w.serial) || !Reported(w.index) || !Reported(w.attr)
  }

  predicate AllComplete(w: Writes) {
    w == Writes(Complete, Complete, Complete)
  }

  /** A commit whose files are complete is safe in every state, wherever it stops and whatever renames fail. */
  lemma CompleteSafe(c: Change, files: Files, w: Writes, m: Faults)
    requires BatchStaged(c, files) && (Stopped(w) || (AllComplete(w) && !StaleAttr(c, files)))
    ensures var (ok, d) := Committed(Start(files), c, w, m);
      && Safe(c, d)
      && (ok ==> Has(d.files, SERIAL, SerialFile(c.after.serial)) && Has(d.files, INDEX, IndexFile(c.after.rows)))
      && (ok ==> Has(d.files, ATTR, AttrFile(c.unique)))
  {
    var d := StageAll(c, files, w, m);
    if !Stopped(w) && !m.certs {
      RotateSerial(c, d, m.serial);
      var (ok, d') := Rotated(d, SERIAL, SERIAL_NEW, SERIAL_OLD, m.serial);
      if ok {
        ReadyToRotate(c, w, files, d.files, d'.files);
        RotateBoth(c, d', m);
      }
    }
  }

  lemma ReadyToRotate(c: Change, w: Writes, files: Files, staged: Files, counted: Files)
    requires Staged(c, files) && AllStaged(c, w, staged) && AllComplete(w) && !StaleAttr(c, files)
    requires SameBut(staged, files, {SERIAL_NEW, INDEX_NEW, ATTR_NEW})
        && SameBut(counted, staged, {SERIAL, SERIAL_NEW, SERIAL_OLD})
    requires Has(counted, SERIAL, SerialFile(c.after.serial))
    ensures Counted(c, counted) && Has(counted, INDEX, IndexFile(c.before.rows))
    ensures Has(counted, INDEX_NEW, IndexFile(c.after.rows)) && Has(counted, ATTR_NEW, AttrFile(c.unique))
  {
  }

  /** Rotating without faults brings the new file live, whatever it holds. */
  lemma RotateBrings(d: Dir, live: Path, staged: Path, aside: Path)
    requires !d.files[staged].Absent? && live != staged && live != aside && staged != aside
    ensures var (ok, d') := Rotated(d, live, staged, aside, NO_TURN);
      ok && Has(d'.files, live, d.files[staged]) && SameBut(d'.files, d.files, {live, staged, aside})
  {
  }

  lemma IndexBrings(d: Dir)
    requires !d.files[INDEX_NEW].Absent? && !d.files[ATTR_NEW].Absent?
    ensures var (ok, d') := IndexRotated(d, NO_FAULTS);
      && ok && Has(d'.files, INDEX, d.files[INDEX_NEW]) && Has(d'.files, ATTR, d.files[ATTR_NEW])
      && SameBut(d'.files, d.files, {INDEX, INDEX_NEW, INDEX_OLD, ATTR, ATTR_NEW, ATTR_OLD})
  {
    RotateBrings(d, INDEX, INDEX_NEW, INDEX_OLD);
    RotateBrings(Rotated(d, INDEX, INDEX_NEW, INDEX_OLD, NO_TURN).1, ATTR, ATTR_NEW, ATTR_OLD);
  }

  lemma LiveUnsafe(c: Change, d: Dir)
    requires Has(d.files, SERIAL, Partial) || Has(d.files, INDEX, Partial) || Has(d.files, ATTR, Partial)
    ensures !Safe(c, d)
  {
  }

  /** A run without any fault but an unnoticed one brings an incomplete file live. */
  lemma IncompleteLive(c: Change, files: Files, w: Writes)
    requires BatchStaged(c, files) && !Stopped(w) && !AllComplete(w)
    ensures var (ok, d) := Committed(Start(files), c, w, NO_FAULTS);
      && ok
      && (w.serial.Unnoticed? ==> Has(d.files, SERIAL, Partial))
      && (w.index.Unnoticed? ==> Has(d.files, INDEX, Partial))
      && (w.attr.Unnoticed? ==> Has(d.files, ATTR, Partial))
      && !Safe(c, d)
  {
    var d := StageAll(c, files, w, NO_FAULTS);
    RotateBrings(d, SERIAL, SERIAL_NEW, SERIAL_OLD);
    var d1 := Rotated(d, SERIAL, SERIAL_NEW, SERIAL_OLD, NO_TURN).1;
    IndexBrings(d1);
    LiveUnsafe(c, IndexRotated(d1, NO_FAULTS).1);
  }

  /** The one fault that turns a stale attribute file live: its second rename. */
  const ATTR_FAULT := NO_FAULTS.(attr := Turn(false, true, false))

  lemma IndexBringsStale(d: Dir)
    requires !d.files[INDEX_NEW].Absent? && !d.files[ATTR_NEW].Absent? && d.files[ATTR].Absent?
        && !d.files[ATTR_OLD].Absent?
    ensures var (ok, d') := IndexRotated(d, ATTR_FAULT); !ok && Has(d'.files, ATTR, d.files[ATTR_OLD])
  {
    RotateBrings(d, INDEX, INDEX_NEW, INDEX_OLD);
    var d1 := Rotated(d, INDEX, INDEX_NEW, INDEX_OLD, NO_TURN).1;
    var (ok, d2) := Rotated(d1, ATTR, ATTR_NEW, ATTR_OLD, ATTR_FAULT.attr);
    assert !ok && Has(d2.files, ATTR, d.files[ATTR_OLD]);
  }

  /** If the live attribute file is missing, undoing a failed rotation puts the ".old" one in its place. */
  lemma StaleLive(c: Change, files: Files)
    requires BatchStaged(c, files) && files[ATTR].Absent? && !files[ATTR_OLD].Absent?
    ensures var (ok, d) := Committed(Start(files), c, Writes(Complete, Complete, Complete), ATTR_FAULT);
      !ok && Has(d.files, ATTR, files[ATTR_OLD])
  {
    var w := Writes(Complete, Complete, Complete);
    var d := StageAll(c, files, w, ATTR_FAULT);
    RotateBrings(d, SERIAL, SERIAL_NEW, SERIAL_OLD);
    var d1 := Rotated(d, SERIAL, SERIAL_NEW, SERIAL_OLD, NO_TURN).1;
    assert d1.files[ATTR].Absent? && Has(d1.files, ATTR_OLD, files[ATTR_OLD]);
    IndexBringsStale(d1);
  }

  /** How the writes go decides whether a batch can be committed safely: whatever renames fail, every state is crash
      safe exactly when a failed write was noticed, or all files are complete and no stale attribute file can come
      back. */
  lemma SafeExactly(c: Change, files: Files, w: Writes)
    requires BatchStaged(c, files)
    ensures (forall m :: Safe(c, Committed(Start(files), c, w, m).1))
       <==> Stopped(w) || (AllComplete(w) && !StaleAttr(c, files))
  {
    if Stopped(w) || (AllComplete(w) && !StaleAttr(c, files)) {
      forall m ensures Safe(c, Committed(Start(files), c, w, m).1) {
        CompleteSafe(c, files, w, m);
      }
    } else if !AllComplete(w) {
      IncompleteLive(c, files, w);
    } else {
      StaleLive(c, files);
    }
  }

  /** With complete files, a commit can leave a wrong attribute file live exactly when it was missing and the ".old" one
      is wrong. */
  lemma StaleExactly(c: Change, files: Files)
    requires BatchStaged(c, files)
    ensures (exists m :: StaleSeen(c, Committed(Start(files), c, Writes(Complete, Complete, Complete), m).1))
       <==> StaleAttr(c, files)
  {
    var w := Writes(Complete, Complete, Complete);
    if StaleAttr(c, files) {
      StaleLive(c, files);
      assert StaleSeen(c, Committed(Start(files), c, w, ATTR_FAULT).1);
    } else {
      forall m ensures !StaleSeen(c, Committed(Start(files), c, w, m).1) {
        CompleteSafe(c, files, w, m);
      }
    }
  }

  ghost predicate StaleSeen(c: Change, d: Dir) {
    !d.files[ATTR].Absent? && d.files[ATTR] != AttrFile(c.unique)
  }

  // ----- committing the index alone

  /** Saving and rotating the index alone, with the serial file as it is. */
  ghost predicate CounterKept(c: Change) {
    c.before.serial == c.after.serial
  }

  /** A failed write of the two is noticed, or both are complete and no stale attribute file can come back. */
  ghost predicate IndexWritesOk(c: Change, files: Files, w: Writes) {
    || !Reported(w.index) || !Reported(w.attr)
    || (w.index.Complete? && w.attr.Complete? && !StaleAttr(c, files))
  }

  lemma IndexCompleteSafe(c: Change, files: Files, w: Writes, m: Faults)
    requires Staged(c, files) && CounterKept(c) && IndexWritesOk(c, files, w)
    ensures var (ok, d) := IndexCommitted(Start(files), c, w, m);
      Safe(c, d) && (ok ==> Has(d.files, INDEX, IndexFile(c.after.rows)) && Has(d.files, ATTR, AttrFile(c.unique)))
  {
    StagedSafe(c, files);
    StageIndex(c, Start(files), w);
    var (ok, d) := IndexSaved(Start(files), c, w);
    if ok { RotateBoth(c, d, m); }
  }

  /** The same equivalence for the commits of `-updatedb`, `-revoke` and `-valid`. */
  lemma IndexSafeExactly(c: Change, files: Files, w: Writes)
    requires Staged(c, files) && CounterKept(c)
    ensures (forall m :: Safe(c, IndexCommitted(Start(files), c, w, m).1)) <==> IndexWritesOk(c, files, w)
  {
    if IndexWritesOk(c, files, w) {
      forall m ensures Safe(c, IndexCommitted(Start(files), c, w, m).1) {
        IndexCompleteSafe(c, files, w, m);
      }
    } else {
      IndexUnsafe(c, files, w);
    }
  }

  lemma IndexUnsafe(c: Change, files: Files, w: Writes)
    requires Staged(c, files) && !IndexWritesOk(c, files, w)
    ensures exists m :: !Safe(c, IndexCommitted(Start(files), c, w, m).1)
  {
    StagedSafe(c, files);
    StageIndex(c, Start(files), w);
    var d := IndexSaved(Start(files), c, w).1;
    if StaleAttr(c, files) {
      IndexBringsStale(d);
      assert !Safe(c, IndexCommitted(Start(files), c, w, ATTR_FAULT).1);
    } else {
      IndexBrings(d);
      LiveUnsafe(c, IndexRotated(d, NO_FAULTS).1);
      assert !Safe(c, IndexCommitted(Start(files), c, w, NO_FAULTS).1);
    }
  }

  // ----- what the next run finds

  /** The live files of a directory. */
  function Live(files: Files): (disk: Disk) {
    Disk(if files[INDEX].IndexFile? then Some(files[INDEX].rows) else None,
         if files[SERIAL].SerialFile? then Some(files[SERIAL].next) else None)
  }

  function DiskOf(s: Snapshot): (disk: Disk) {
    Disk(Some(s.rows), Some(s.serial))
  }

  /** The live files of a crash-safe state are those that a failed save of a history may leave. */
  lemma OutcomeIs(c: Change, files: Files) returns (left: Left)
    requires CrashSafe(c, files)
    ensures Live(files) == Leave(DiskOf(c.before), DiskOf(c.after), Failed(left))
  {
    var index := if files[INDEX].Absent? then Gone else if files[INDEX] == IndexFile(c.after.rows) then New else Old;
    var serial :=
      if files[SERIAL].Absent? then Gone else if files[SERIAL] == SerialFile(c.after.serial) then New else Old;
    left := LivePair(index, serial);
  }

  /** Every state of a safe commit, and so what a crash at any point leaves, is one that a failed save of a history
      may leave; and a commit that succeeds is a save that does. */
  lemma CommitIsSave(c: Change, files: Files, w: Writes, m: Faults, k: nat) returns (left: Left, save: Save)
    requires BatchStaged(c, files) && (Stopped(w) || (AllComplete(w) && !StaleAttr(c, files)))
    requires k < |Committed(Start(files), c, w, m).1.seen|
    ensures var (ok, d) := Committed(Start(files), c, w, m);
      && Live(d.seen[k]) == Leave(DiskOf(c.before), DiskOf(c.after), Failed(left))
      && Live(d.files) == Leave(DiskOf(c.before), DiskOf(c.after), save)
      && (ok ==> save.Done?)
  {
    CompleteSafe(c, files, w, m);
    var (ok, d) := Committed(Start(files), c, w, m);
    left := OutcomeIs(c, d.seen[k]);
    var last := OutcomeIs(c, d.files);
    save := if ok then Done else Failed(last);
  }

  /** All states so far have `v` as the serial file. */
  ghost predicate SerialKept(d: Dir, v: Content) {
    d.files[SERIAL] == v && forall k :: 0 <= k < |d.seen| ==> d.seen[k][SERIAL] == v
  }

  lemma RenamedKeeps(d: Dir, src: Path, dst: Path, fault: bool, v: Content)
    requires SerialKept(d, v) && src != SERIAL && dst != SERIAL
    ensures SerialKept(Renamed(d, src, dst, fault).1, v)
  {
  }

  lemma WrittenKeeps(d: Dir, p: Path, c: Content, fate: Fate, v: Content)
    requires SerialKept(d, v) && p != SERIAL
    ensures SerialKept(Written(d, p, c, fate).1, v)
  {
  }

  lemma RotatedKeeps(d: Dir, live: Path, staged: Path, aside: Path, t: Turn, v: Content)
    requires SerialKept(d, v) && live != SERIAL && staged != SERIAL && aside != SERIAL
    ensures SerialKept(Rotated(d, live, staged, aside, t).1, v)
  {
    RenamedKeeps(d, live, aside, t.out, v);
    var d1 := Renamed(d, live, aside, t.out).1;
    RenamedKeeps(d1, staged, live, t.into, v);
    RenamedKeeps(Renamed(d1, staged, live, t.into).1, aside, live, t.back, v);
  }

  lemma IndexRotatedKeeps(d: Dir, m: Faults, v: Content)
    requires SerialKept(d, v)
    ensures SerialKept(IndexRotated(d, m).1, v)
  {
    RotatedKeeps(d, INDEX, INDEX_NEW, INDEX_OLD, m.index, v);
    var d1 := Rotated(d, INDEX, INDEX_NEW, INDEX_OLD, m.index).1;
    RotatedKeeps(d1, ATTR, ATTR_NEW, ATTR_OLD, m.attr, v);
    var d2 := Rotated(d1, ATTR, ATTR_NEW, ATTR_OLD, m.attr).1;
    RenamedKeeps(d2, INDEX, INDEX_NEW, m.undoOut, v);
    RenamedKeeps(Renamed(d2, INDEX, INDEX_NEW, m.undoOut).1, INDEX_OLD, INDEX, m.undoBack, v);
  }

  /** Committing the index alone never touches the serial file. */
  lemma IndexCommittedKeeps(files: Files, c: Change, w: Writes, m: Faults)
    ensures SerialKept(IndexCommitted(Start(files), c, w, m).1, files[SERIAL])
  {
    var v := files[SERIAL];
    WrittenKeeps(Start(files), INDEX_NEW, IndexFile(c.after.rows), w.index, v);
    var d1 := Written(Start(files), INDEX_NEW, IndexFile(c.after.rows), w.index).1;
    WrittenKeeps(d1, ATTR_NEW, AttrFile(c.unique), w.attr, v);
    IndexRotatedKeeps(IndexSaved(Start(files), c, w).1, m, v);
  }

  lemma IndexOutcomeIs(c: Change, files: Files, state: Files) returns (left: Left)
    requires CrashSafe(c, state) && CounterKept(c) && Staged(c, files) && state[SERIAL] == files[SERIAL]
    ensures Live(state) == Leave(Live(files), Live(files).(index := Some(c.after.rows)), Failed(left))
  {
    var index := if state[INDEX].Absent? then Gone else if state[INDEX] == IndexFile(c.after.rows) then New else Old;
    left := LivePair(index, New);
  }

  /** The same for the commits of the index alone. */
  lemma IndexCommitIsSave(c: Change, files: Files, w: Writes, m: Faults, k: nat) returns (left: Left, save: Save)
    requires Staged(c, files) && CounterKept(c) && IndexWritesOk(c, files, w)
    requires k < |IndexCommitted(Start(files), c, w, m).1.seen|
    ensures var (ok, d) := IndexCommitted(Start(files), c, w, m);
      var after := Live(files).(index := Some(c.after.rows));
      && Live(d.seen[k]) == Leave(Live(files), after, Failed(left))
      && Live(d.files) == Leave(Live(files), after, save)
      && (ok ==> save.Done?)
  {
    IndexCompleteSafe(c, files, w, m);
    IndexCommittedKeeps(files, c, w, m);
    var (ok, d) := IndexCommitted(Start(files), c, w, m);
    left := IndexOutcomeIs(c, files, d.seen[k]);
    var last := IndexOutcomeIs(c, files, d.files);
    save := if ok then Done else Failed(last);
  }

  /** Even a rotation without any fault passes through a state without a live index. */
  lemma IndexGone(d: Dir)
    requires !d.files[INDEX].Absent? && !d.files[INDEX_NEW].Absent?
    ensures var d' := IndexRotated(d, NO_FAULTS).1; |d.seen| < |d'.seen| && d'.seen[|d.seen|][INDEX].Absent?
  {
    var gone := Renamed(d, INDEX, INDEX_OLD, false).1;
    assert gone.seen[|d.seen|][INDEX].Absent?;
    var d1 := Rotated(d, INDEX, INDEX_NEW, INDEX_OLD, NO_TURN).1;
    assert gone.seen <= d1.seen;
    RotatedExtends(d1, ATTR, ATTR_NEW, ATTR_OLD, NO_TURN);
    var d2 := Rotated(d1, ATTR, ATTR_NEW, ATTR_OLD, NO_TURN).1;
    RenamedExtends(d2, INDEX, INDEX_NEW, false);
    RenamedExtends(Renamed(d2, INDEX, INDEX_NEW, false).1, INDEX_OLD, INDEX, false);
  }

  lemma RenamedExtends(d: Dir, src: Path, dst: Path, fault: bool)
    ensures d.seen <= Renamed(d, src, dst, fault).1.seen
  {
  }

  lemma RotatedExtends(d: Dir, live: Path, staged: Path, aside: Path, t: Turn)
    ensures d.seen <= Rotated(d, live, staged, aside, t).1.seen
  {
    RenamedExtends(d, live, aside, t.out);
    var d1 := Renamed(d, live, aside, t.out).1;
    RenamedExtends(d1, staged, live, t.into);
    RenamedExtends(Renamed(d1, staged, live, t.into).1, aside, live, t.back);
  }

  lemma SnapshotsAbove(session: Session, reqs: seq<Request>, c: Change)
    requires session.running && session.disk == DiskOf(c.before) && Tracked(session)
    requires IssuePhase(session, reqs, true, Done).disk == DiskOf(c.after)
    ensures Above(c.before.serial, c.before.rows) && Above(c.after.serial, c.after.rows)
  {
    IssueTracked(session, reqs, true, Done);
  }

  lemma SnapshotsCount(session: Session, reqs: seq<Request>, c: Change)
    requires session.running && session.disk == DiskOf(c.before)
    requires IssuePhase(session, reqs, true, Done).disk == DiskOf(c.after)
    ensures c.before.serial <= c.after.serial
  {
    if reqs != [] { BatchAllOrNothing(session, reqs, true, Done); }
  }

  /** Sequential numbering survives any crash and any failure that is noticed while a batch is committed: if both live
      files are found afterwards, the serial file is above every number in the index. */
  lemma CrashKeepsAbove(session: Session, reqs: seq<Request>, c: Change, files: Files)
    requires session.running && session.disk == DiskOf(c.before) && Tracked(session)
    requires IssuePhase(session, reqs, true, Done).disk == DiskOf(c.after) && CrashSafe(c, files)
    ensures DiskAbove(Live(files))
  {
    var left := OutcomeIs(c, files);
    SnapshotsAbove(session, reqs, c);
    SnapshotsCount(session, reqs, c);
    LeaveAbove(c.before.rows, c.before.serial, c.after.rows, c.after.serial, Failed(left));
  }

  // ----- when a commit succeeds, and what it leaves

  /** An exchange succeeds exactly when neither rename fails; then the new file is live and the live one is kept. If it
      fails and can be undone, the live file is back. */
  lemma RotatedExactly(d: Dir, live: Path, staged: Path, aside: Path, t: Turn)
    requires !d.files[staged].Absent? && live != staged && live != aside && staged != aside
    ensures var (ok, d') := Rotated(d, live, staged, aside, t);
      && (ok <==> (d.files[live].Absent? || !t.out) && !t.into)
      && (ok ==> d'.files[live] == d.files[staged] && d'.files[staged].Absent?)
      && (ok && !d.files[live].Absent? ==> d'.files[aside] == d.files[live])
      && (!ok && !t.back && !d.files[live].Absent? ==> d'.files[live] == d.files[live])
      && (!ok ==> d'.files[staged] == d.files[staged])
      && SameBut(d'.files, d.files, {live, staged, aside})
  {
  }

  /** The renames that bring index and attributes in do not fail. */
  predicate IndexMoves(files: Files, m: Faults) {
    !m.index.out && !m.index.into && (files[ATTR].Absent? || !m.attr.out) && !m.attr.into
  }

  /** The renames that would undo an exchange do not fail. */
  predicate Undoable(m: Faults) {
    !m.serial.back && !m.index.back && !m.attr.back && !m.undoOut && !m.undoBack
  }

  lemma IndexRotatedExactly(d: Dir, m: Faults)
    requires !d.files[INDEX].Absent? && !d.files[INDEX_NEW].Absent? && !d.files[ATTR_NEW].Absent?
    ensures var (ok, d') := IndexRotated(d, m);
      && (ok <==> IndexMoves(d.files, m))
      && (ok ==> d'.files[INDEX] == d.files[INDEX_NEW] && d'.files[INDEX_OLD] == d.files[INDEX]
                 && d'.files[ATTR] == d.files[ATTR_NEW])
      && (!ok && Undoable(m) ==> d'.files[INDEX] == d.files[INDEX]
                                 && (!d.files[ATTR].Absent? ==> d'.files[ATTR] == d.files[ATTR]))
      && SameBut(d'.files, d.files, {INDEX, INDEX_NEW, INDEX_OLD, ATTR, ATTR_NEW, ATTR_OLD})
  {
    RotatedExactly(d, INDEX, INDEX_NEW, INDEX_OLD, m.index);
    var (ok, d1) := Rotated(d, INDEX, INDEX_NEW, INDEX_OLD, m.index);
    if ok { RotatedExactly(d1, ATTR, ATTR_NEW, ATTR_OLD, m.attr); }
  }

  /** Everything up to the rotation of the index goes well. */
  predicate CounterMoves(w: Writes, m: Faults) {
    && Reported(w.serial) && Reported(w.index) && Reported(w.attr) && !m.certs
    && !m.serial.out && !m.serial.into
  }

  /** The directory when the index is to be rotated. */
  ghost predicate Ready(c: Change, files: Files, w: Writes, now: Files) {
    && Has(now, INDEX, IndexFile(c.before.rows)) && now[ATTR] == files[ATTR] && IndexStaged(c, w, now)
    && Has(now, SERIAL, if w.serial.Complete? then SerialFile(c.after.serial) else Partial)
    && Has(now, SERIAL_OLD, SerialFile(c.before.serial))
  }

  /** The live files are as they were. */
  ghost predicate Kept(files: Files, now: Files) {
    now[SERIAL] == files[SERIAL] && now[INDEX] == files[INDEX] && now[ATTR] == files[ATTR]
  }

  /** What a batch does before it rotates the index. */
  lemma BatchSteps(c: Change, files: Files, w: Writes, m: Faults) returns (d: Dir)
    requires BatchStaged(c, files)
    ensures Committed(Start(files), c, w, m) == if CounterMoves(w, m) then IndexRotated(d, m) else (false, d)
    ensures CounterMoves(w, m) ==> Ready(c, files, w, d.files)
    ensures !CounterMoves(w, m) && !m.serial.back ==> Kept(files, d.files)
  {
    d := StageAll(c, files, w, m);
    if !Stopped(w) && !m.certs {
      RotatedExactly(d, SERIAL, SERIAL_NEW, SERIAL_OLD, m.serial);
      d := Rotated(d, SERIAL, SERIAL_NEW, SERIAL_OLD, m.serial).1;
    }
  }

  /** A batch is committed exactly when no write is noticed to fail, the certificates are written and no rename
      fails. */
  lemma CommitExactly(c: Change, files: Files, w: Writes, m: Faults)
    requires BatchStaged(c, files)
    ensures Committed(Start(files), c, w, m).0 <==> CounterMoves(w, m) && IndexMoves(files, m)
  {
    var d := BatchSteps(c, files, w, m);
    if CounterMoves(w, m) { IndexRotatedExactly(d, m); }
  }

  /** A batch that is committed with complete files leaves the new files live and the old ones under ".old". */
  lemma CommitLeaves(c: Change, files: Files, m: Faults)
    requires BatchStaged(c, files)
    ensures var (ok, d) := Committed(Start(files), c, Writes(Complete, Complete, Complete), m);
      ok ==>
        && Has(d.files, SERIAL, SerialFile(c.after.serial)) && Has(d.files, SERIAL_OLD, SerialFile(c.before.serial))
        && Has(d.files, INDEX, IndexFile(c.after.rows)) && Has(d.files, INDEX_OLD, IndexFile(c.before.rows))
        && Has(d.files, ATTR, AttrFile(c.unique))
  {
    var w := Writes(Complete, Complete, Complete);
    var d := BatchSteps(c, files, w, m);
    if CounterMoves(w, m) { IndexRotatedExactly(d, m); }
  }

  /** One that is not, and whose renames can be undone, leaves the old index live; the new number stays if it had been
      brought in by then. */
  lemma CommitUndone(c: Change, files: Files, w: Writes, m: Faults)
    requires BatchStaged(c, files) && Undoable(m) && !Committed(Start(files), c, w, m).0
    ensures var d := Committed(Start(files), c, w, m).1;
      && Has(d.files, INDEX, IndexFile(c.before.rows)) && (!files[ATTR].Absent? ==> d.files[ATTR] == files[ATTR])
      && (!CounterMoves(w, m) ==> Has(d.files, SERIAL, SerialFile(c.before.serial)))
      && (CounterMoves(w, m) && w.serial.Complete? ==> Has(d.files, SERIAL, SerialFile(c.after.serial)))
  {
    var d := BatchSteps(c, files, w, m);
    if CounterMoves(w, m) { IndexRotatedExactly(d, m); }
  }

  predicate IndexReported(w: Writes) {
    Reported(w.index) && Reported(w.attr)
  }

  /** Saving the index touches no live file. */
  lemma IndexSteps(c: Change, files: Files, w: Writes, m: Faults) returns (d: Dir)
    requires Staged(c, files)
    ensures IndexCommitted(Start(files), c, w, m) == if IndexReported(w) then IndexRotated(d, m) else (false, d)
    ensures Kept(files, d.files) && (IndexReported(w) ==> IndexStaged(c, w, d.files))
  {
    StagedSafe(c, files);
    StageIndex(c, Start(files), w);
    d := IndexSaved(Start(files), c, w).1;
  }

  /** The same for the commits of the index alone. */
  lemma IndexCommitExactly(c: Change, files: Files, w: Writes, m: Faults)
    requires Staged(c, files)
    ensures IndexCommitted(Start(files), c, w, m).0 <==> IndexReported(w) && IndexMoves(files, m)
  {
    var d := IndexSteps(c, files, w, m);
    if IndexReported(w) { IndexRotatedExactly(d, m); }
  }

  /** They leave the new index live and the old one under ".old", or, if their renames can be undone, the old one. */
  lemma IndexCommitLeaves(c: Change, files: Files, w: Writes, m: Faults)
    requires Staged(c, files)
    ensures IndexLeft(c, w, m, IndexCommitted(Start(files), c, w, m))
  {
    var d := IndexSteps(c, files, w, m);
    if IndexReported(w) { IndexRotatedExactly(d, m); }
  }

  ghost predicate IndexLeft(c: Change, w: Writes, m: Faults, r: (bool, Dir)) {
    && (r.0 && w.index.Complete? ==> Has(r.1.files, INDEX, IndexFile(c.after.rows)))
    && (r.0 ==> Has(r.1.files, INDEX_OLD, IndexFile(c.before.rows)))
    && (!r.0 && Undoable(m) ==> Has(r.1.files, INDEX, IndexFile(c.before.rows)))
  }

  /** A file that cannot be opened is as it was; any other is first emptied, and stays so unless all of it is written.
      Only what is noticed counts as a failure. */
  lemma WrittenExactly(d: Dir, p: Path, c: Content, fate: Fate)
    ensures var (ok, d') := Written(d, p, c, fate);
      && (ok <==> fate.Unnoticed? || fate.Complete?) && SameBut(d'.files, d.files, {p})
      && d'.files[p] == (if fate.Unopened? then d.files[p] else if fate.Complete? then c else Partial)
      && d.seen <= d'.seen && |d'.seen| == |d.seen| + (if fate.Unopened? then 0 else if fate.Complete? then 2 else 1)
      && (fate.Complete? ==> d'.seen[|d.seen|] == d.files[p := Partial])
  {
  }

  /** Files are written in the order serial number, table, attributes, and none behind a failure that is noticed. */
  lemma WritesInOrder(d: Dir, c: Change, w: Writes, m: Faults)
    ensures !Reported(w.index) ==> IndexSaved(d, c, w).1.files[ATTR_NEW] == d.files[ATTR_NEW]
    ensures !Reported(w.serial) ==>
      var d' := Committed(d, c, w, m).1;
      d'.files[INDEX_NEW] == d.files[INDEX_NEW] && d'.files[ATTR_NEW] == d.files[ATTR_NEW]
  {
  }
}
