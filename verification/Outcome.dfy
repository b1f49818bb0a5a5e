// When a run completes, and what it then leaves on disk, in terms of the database
// it found there and of what its saves left.
module Outcome {
  import opened Text
  import opened Asn1Time
  import opened Revocation
  import opened Table
  import opened Lifecycle
  import opened Reload
  import opened Readers
  import opened Disk
  import opened CertNames
  import opened CaRun
  import opened History
  import opened Reasons
  import opened Calendar
  import opened Fates

  // --------------------------------------------------------- the rows at the end

  function Updated(rows: seq<Row>, run: Run): seq<Row> {
    if run.updatedb then ExpireRows(rows, Seconds(run.now)) else rows
  }

  predicate Filed(r: Row, n: int) { Key(r.serial) == Key(SerialText(n)) }

  // The rows when the certificate has been revoked: its row is marked, and one is
  // added for it if there was none.
  function Revoked(rows: seq<Row>, c: Cert, text: string): (r: seq<Row>)
    ensures |rows| <= |r| <= |rows| + 1
  {
    if exists i :: 0 <= i < |rows| && Filed(rows[i], c.serial)
    then seq(|rows|, i requires 0 <= i < |rows| =>
           if Filed(rows[i], c.serial) then rows[i].(kind := "R", rev := text) else rows[i])
    else rows + [Row("R", c.notAfter, text, SerialText(c.serial), "unknown", NameKey(c))]
  }

  lemma RevokeMakes(t: Table, c: Cert, text: string)
    requires Consistent(t) && Revoke(t, c, false, Some(text)).ok
    ensures Revoke(t, c, false, Some(text)).table.rows == Revoked(t.rows, c, text)
  {
    var r := Revoke(t, c, false, Some(text)).table.rows;
    RevokeTouches(t, c, false, Some(text));
    if Find(t, c.serial).Some? {
      var i := Find(t, c.serial).value;
      assert Filed(t.rows[i], c.serial);
      forall j | 0 <= j < |t.rows| && j != i ensures !Filed(t.rows[j], c.serial) {}
      assert forall j :: 0 <= j < |t.rows| ==> r[j] == Revoked(t.rows, c, text)[j];
    } else {
      assert forall i :: 0 <= i < |t.rows| ==> !Filed(t.rows[i], c.serial);
      assert r == r[..|t.rows|] + [r[|t.rows|]];
    }
  }

  // ----------------------------------------------------------- completed sections

  // Index and attributes are what a save of them left.
  predicate Placed(d: Disk, rows: seq<Row>, unique: bool, env: Env, b: nat) {
    && LiveIs(d, Index, Stored(IndexText(SaveText(rows)), env(b)))
    && LiveIs(d, Attr, Stored(UniqueFlag(unique), env(b + 1)))
  }

  lemma ReplacePlaces(d: Disk, rows: seq<Row>, unique: bool, env: Env, b: nat)
    requires Path(Index, Live) in d && ReplaceIndex(d, rows, unique, env, b).status.Done?
    ensures Placed(ReplaceIndex(d, rows, unique, env, b).disk, rows, unique, env, b)
    ensures SameBut(d, ReplaceIndex(d, rows, unique, env, b).disk, {Index, Attr})
  {
    ReplaceIndexLive(d, rows, unique, env, b);
    ReplaceIndexKeeps(d, rows, unique, env, b);
  }

  // The expiry update: the rows are saved if and only if one has been marked.
  ghost predicate UpdateDid(s: Session, e: Session, run: Run) {
    && e.table == s.table.(rows := Updated(s.table.rows, run)) && e.certs == s.certs
    && (if e.table.rows == s.table.rows then e.disk == s.disk
        else Placed(e.disk, e.table.rows, s.table.unique, run.env, UPDATE) && SameBut(s.disk, e.disk, {Index, Attr}))
  }

  lemma UpdateCompleted(s: Session, run: Run)
    requires s.running && Path(Index, Live) in s.disk && UpdateSection(s, run).running
    ensures UpdateDid(s, UpdateSection(s, run), run)
  {
    if run.updatedb {
      var rows := ExpireRows(s.table.rows, Seconds(run.now));
      MarkedIfCounted(s.table.rows, Seconds(run.now));
      if ExpiredCount(s.table.rows, Seconds(run.now)) > 0 {
        ReplacePlaces(s.disk, rows, s.table.unique, run.env, UPDATE);
      }
    }
  }

  lemma MarkedIfCounted(rows: seq<Row>, now: int)
    ensures ExpireRows(rows, now) == rows <==> ExpiredCount(rows, now) == 0
  {
    ExpiredCountCounts(rows, now);
    if ExpiredCount(rows, now) == 0 {
      forall i | 0 <= i < |rows| ensures ExpireRows(rows, now)[i] == rows[i] {
        assert i !in ChangedRows(rows, now);
      }
    } else {
      var i :| i in ChangedRows(rows, now);
    }
  }

  // The issuing section: what the requests ask for, with the numbers from the
  // counter on.
  function Made(d: Disk, run: Run): seq<Cert> {
    if run.issue.Some? && LiveNumber(d, Serial).Some?
    then Numbered(Wanted(run.issue.value.requests), LiveNumber(d, Serial).value) else []
  }

  ghost predicate IssueDid(s: Session, e: Session, run: Run) {
    && e.certs == Made(s.disk, run) && (run.issue.Some? ==> LiveNumber(s.disk, Serial).Some?)
    && e.table.rows == s.table.rows + RowsFor(e.certs) && e.table.unique == s.table.unique
    && (e.certs == [] ==> e.disk == s.disk)
    && (e.certs != [] ==>
          && LiveNumber(s.disk, Serial).Some?
          && Counted(s.disk, e.disk, LiveNumber(s.disk, Serial).value + |e.certs|, e.table, run))
  }

  lemma IssueCompleted(s: Session, run: Run)
    requires s.running && s.certs == [] && Path(Index, Live) in s.disk && IssueSection(s, run).running
    ensures IssueDid(s, IssueSection(s, run), run)
  {
    if run.issue.Some? {
      var n, qs := LiveNumber(s.disk, Serial).value, run.issue.value.requests;
      var b := Batch(s.table, n, qs);
      BatchCertifiesWanted(s.table, n, qs);
      BatchNumbers(s.table, n, qs);
      BatchRows(s.table, n, qs);
      if b.certs != [] { CommitCompleted(s, run, n, b); } else { NoneCompleted(s, run, n, b); }
    } else {
      assert s.table.rows + RowsFor([]) == s.table.rows;
    }
  }

  lemma NoneCompleted(s: Session, run: Run, n: nat, b: BatchResult)
    requires s.running && s.certs == [] && run.issue.Some? && LiveNumber(s.disk, Serial) == Some(n)
    requires b == Batch(s.table, n, run.issue.value.requests) && b.certs == [] && Made(s.disk, run) == []
    requires b.table.rows == s.table.rows + RowsFor([]) && b.table.unique == s.table.unique
    requires IssueSection(s, run).running
    ensures IssueDid(s, IssueSection(s, run), run)
  {
  }

  lemma CommitCompleted(s: Session, run: Run, n: nat, b: BatchResult)
    requires s.running && run.issue.Some? && Path(Index, Live) in s.disk && LiveNumber(s.disk, Serial) == Some(n)
    requires b == Batch(s.table, n, run.issue.value.requests) && b.certs != [] && b.serial == n + |b.certs|
    requires b.certs == Made(s.disk, run)
    requires b.table.rows == s.table.rows + RowsFor(b.certs) && b.table.unique == s.table.unique
    requires IssueSection(s, run).running
    ensures IssueDid(s, IssueSection(s, run), run)
  {
    CommitIsLast(s, run);
    CommitPlaces(s.disk, b.table, b.serial, Named(run, b.certs), run);
  }

  predicate Numbers(d: Disk, f: File, n: nat, e: Event) { LiveIs(d, f, Stored(Number(n), e)) }

  // Counter and database are what the saves of a commit left.
  ghost predicate Counted(d: Disk, e: Disk, n: nat, t: Table, run: Run) {
    && Numbers(e, Serial, n, run.env(ISSUE))
    && Placed(e, t.rows, t.unique, run.env, ISSUE + 1)
    && SameBut(d, e, {Index, Attr, Serial})
  }

  lemma CommitPlaces(d: Disk, t: Table, serial: nat, named: bool, run: Run)
    requires Path(Index, Live) in d && Path(Serial, Live) in d
    requires CommitFiles(d, t.rows, t.unique, serial, named, run.env, ISSUE).status.Done?
    ensures Counted(d, CommitFiles(d, t.rows, t.unique, serial, named, run.env, ISSUE).disk, serial, t, run)
  {
    CommitCounts(d, t.rows, t.unique, serial, named, run.env, ISSUE);
  }

  // The CRL section: the CRL has been issued, and its number used up.
  ghost predicate CrlDid(s: Session, e: Session, run: Run) {
    && e.table == s.table && e.certs == s.certs && (run.gencrl.Some? ==> e.crl.Some?)
    && SameBut(s.disk, e.disk, {CrlNumber}) && NumberUsed(s.disk, e.disk, run)
  }

  predicate NumberUsed(d: Disk, e: Disk, run: Run) {
    if run.gencrl.Some? && run.gencrl.value.numbered then
      && LiveNumber(d, CrlNumber).Some?
      && Numbers(e, CrlNumber, LiveNumber(d, CrlNumber).value + 1, run.env(CRL + 1))
    else LiveNumber(e, CrlNumber) == LiveNumber(d, CrlNumber)
  }

  lemma CrlCompleted(s: Session, run: Run, objects: Objects)
    requires s.running && CrlSection(s, run, objects).running
    ensures CrlDid(s, CrlSection(s, run, objects), run)
  {
    var e := CrlSection(s, run, objects);
    if run.gencrl.Some? {
      var number := if run.gencrl.value.numbered then LiveNumber(s.disk, CrlNumber) else None;
      CrlFilesCompleted(s.disk, number, run.env);
      assert e.disk == CrlFiles(s.disk, number, run.env).disk;
    }
  }

  lemma CrlFilesCompleted(d: Disk, number: Option<nat>, env: Env)
    requires number.Some? ==> number == LiveNumber(d, CrlNumber)
    requires CrlFiles(d, number, env).status.Done?
    ensures Written(number, env)
    ensures number.None? ==> CrlFiles(d, number, env).disk == d
    ensures number.Some? ==> var e := CrlFiles(d, number, env).disk;
      SameBut(d, e, {CrlNumber}) && Numbers(e, CrlNumber, number.value + 1, env(CRL + 1))
  {
    if number.Some? {
      NumberFilesLive(d, number.value + 1, env, CRL + 1);
      NumberDone(d, number.value + 1, env, CRL + 1);
    }
  }

  // The revocation section: the rows are saved with the certificate revoked, or,
  // for a certificate that is only to be added, with its row.
  lemma RevokeCompleted(s: Session, run: Run, objects: Objects)
    requires s.running && Consistent(s.table) && Path(Index, Live) in s.disk
    requires run.revoke.Some? && RevokeSection(s, run, objects).running
    ensures SameBut(s.disk, RevokeSection(s, run, objects).disk, {Index, Attr})
    ensures RevocationPlaced(RevokeSection(s, run, objects).disk, s.table.rows, s.table.unique, run, objects)
  {
    var q := run.revoke.value;
    var text := RevocationStr(q.kind, q.arg, run.now, objects);
    var t := Revoke(s.table, q.cert, q.kind.RevValid?, text).table;
    RevokeTouches(s.table, q.cert, q.kind.RevValid?, text);
    RevokeDecides(s.table, q.cert, q.kind.RevValid?, text);
    RevokeUnique(s.table, q.cert, q.kind.RevValid?, text);
    ReplacePlaces(s.disk, t.rows, s.table.unique, run.env, REVOKE + 1);
    if q.kind.RevValid? {
      assert t.rows == t.rows[..|s.table.rows|] + [t.rows[|s.table.rows|]];
    } else {
      RevokeMakes(s.table, q.cert, text.value);
    }
  }

  lemma RevokeUnique(t: Table, c: Cert, addOnly: bool, text: Option<string>)
    ensures Revoke(t, c, addOnly, text).table.unique == t.unique
  {
  }

  ghost predicate RevocationPlaced(d: Disk, rows: seq<Row>, unique: bool, run: Run, objects: Objects)
    requires run.revoke.Some?
  {
    var q := run.revoke.value;
    if q.kind.RevValid? then Placed(d, rows + [RowFor(q.cert)], unique, run.env, REVOKE + 1)
    else
      var text := RevocationStr(q.kind, q.arg, run.now, objects);
      text.Some? && Placed(d, Revoked(rows, q.cert, text.value), unique, run.env, REVOKE + 1)
  }

  // ------------------------------------------------------------- completed runs

  lemma SectionsRan(d: Disk, run: Run, objects: Objects)
    requires Execute(d, run, objects).running
    ensures LoadDisk(d, run.unique, objects).Some? && Begin(d, run, objects).running
    ensures UpdateSection(Begin(d, run, objects), run).running
    ensures BeforeCrl(d, run, objects).running && BeforeRevoking(d, run, objects).running
  {
    UpdateRevokes(Begin(d, run, objects), run);
    IssueRevokes(UpdateSection(Begin(d, run, objects), run), run);
    CrlSectionKeeps(BeforeCrl(d, run, objects), run, objects);
    RevokeKeepsCrl(BeforeRevoking(d, run, objects), run, objects);
  }

  // The live database after a run that revokes nothing: with the new rows, or with
  // the marked ones if there is no new one, or as it was if there is neither.
  ghost predicate Left(d: Disk, e: Disk, t: Table, certs: seq<Cert>, run: Run) {
    var rows := Updated(t.rows, run);
    if certs != [] then Placed(e, rows + RowsFor(certs), t.unique, run.env, ISSUE + 1)
    else if rows != t.rows then Placed(e, rows, t.unique, run.env, UPDATE)
    else SameBut(d, e, {Serial, CrlNumber})
  }

  // The counter after it: one past the last certificate.
  predicate CountedOn(d: Disk, e: Disk, certs: seq<Cert>, run: Run) {
    if certs == [] then LiveNumber(e, Serial) == LiveNumber(d, Serial)
    else
      && LiveNumber(d, Serial).Some?
      && Numbers(e, Serial, LiveNumber(d, Serial).value + |certs|, run.env(ISSUE))
  }

  // A session that has come as far as the CRL section.
  ghost predicate Came(d: Disk, t: Table, e: Session, run: Run) {
    && e.certs == Made(d, run) && Path(Index, Live) in e.disk
    && e.table.rows == Updated(t.rows, run) + RowsFor(e.certs) && e.table.unique == t.unique
    && Left(d, e.disk, t, e.certs, run) && CountedOn(d, e.disk, e.certs, run)
    && LiveNumber(e.disk, CrlNumber) == LiveNumber(d, CrlNumber)
  }

  lemma CameSo(s: Session, m: Session, e: Session, run: Run)
    requires Path(Index, Live) in s.disk && UpdateDid(s, m, run) && IssueDid(m, e, run)
    ensures Came(s.disk, s.table, e, run)
  {
    CountersSame(s.disk, m.disk);
    if e.certs == [] {
      assert e.table.rows == Updated(s.table.rows, run) + [];
      assert Path(Index, Live) in e.disk;
    } else {
      CommitMoved(s.disk, m.disk, e, LiveNumber(m.disk, Serial).value + |e.certs|, run);
    }
  }

  lemma CountersSame(d: Disk, e: Disk)
    requires SameBut(d, e, {Index, Attr})
    ensures LiveNumber(e, Serial) == LiveNumber(d, Serial) && LiveNumber(e, CrlNumber) == LiveNumber(d, CrlNumber)
  {
  }

  lemma CommitMoved(d: Disk, m: Disk, e: Session, n: nat, run: Run)
    requires LiveNumber(m, CrlNumber) == LiveNumber(d, CrlNumber) && Counted(m, e.disk, n, e.table, run)
    ensures Path(Index, Live) in e.disk && LiveNumber(e.disk, CrlNumber) == LiveNumber(d, CrlNumber)
  {
    NumberUntouched(m, e.disk);
  }

  lemma UpToCrl(d: Disk, run: Run, objects: Objects)
    requires Begin(d, run, objects).running && UpdateSection(Begin(d, run, objects), run).running
    requires BeforeCrl(d, run, objects).running
    ensures LoadDisk(d, run.unique, objects).Some?
    ensures Came(d, LoadDisk(d, run.unique, objects).value, BeforeCrl(d, run, objects), run)
  {
    var s := Begin(d, run, objects);
    var m := UpdateSection(s, run);
    UpdateCompleted(s, run);
    assert m.certs == [] && Path(Index, Live) in m.disk;
    IssueCompleted(m, run);
    CameSo(s, m, IssueSection(m, run), run);
  }

  // What a completed run has left of the database t it found on the disk d.
  ghost predicate Completed(d: Disk, t: Table, e: Session, run: Run, objects: Objects) {
    && e.certs == Made(d, run)
    && (run.revoke.None? ==> Left(d, e.disk, t, e.certs, run))
    && (run.revoke.Some? ==>
          RevocationPlaced(e.disk, Updated(t.rows, run) + RowsFor(e.certs), t.unique, run, objects))
    && CountedOn(d, e.disk, e.certs, run) && NumberUsed(d, e.disk, run)
  }

  // A run that completes leaves the rows it loaded, with those marked that have
  // expired, with a row behind them for each certificate, and with the certificate
  // to be revoked marked or added -- in each file what its last save left; and it
  // leaves alone what it has no new contents for.
  lemma CompletedRun(d: Disk, run: Run, objects: Objects)
    requires Execute(d, run, objects).running
    ensures LoadDisk(d, run.unique, objects).Some?
    ensures Completed(d, LoadDisk(d, run.unique, objects).value, Execute(d, run, objects), run, objects)
    ensures run.gencrl.Some? ==> Execute(d, run, objects).crl.Some?
  {
    var s, c := BeforeCrl(d, run, objects), BeforeRevoking(d, run, objects);
    SectionsRan(d, run, objects);
    UpToCrl(d, run, objects);
    CrlCompleted(s, run, objects);
    TableBeforeCrl(d, run, objects);
    var t := LoadDisk(d, run.unique, objects).value;
    ThroughCrl(d, t, s, c, run);
    RevokeRan(c, run, objects);
    Finished(d, t, c, Execute(d, run, objects), run, objects);
  }

  // Up to the revocation section.
  lemma ThroughCrl(d: Disk, t: Table, s: Session, c: Session, run: Run)
    requires Came(d, t, s, run) && CrlDid(s, c, run)
    ensures c.certs == Made(d, run) && c.table == s.table && Path(Index, Live) in c.disk
    ensures Left(d, c.disk, t, c.certs, run) && CountedOn(d, c.disk, c.certs, run) && NumberUsed(d, c.disk, run)
  {
    LeftStays(d, s.disk, c.disk, t, c.certs, run);
    assert LiveNumber(c.disk, Serial) == LiveNumber(s.disk, Serial);
  }

  lemma LeftStays(d: Disk, e: Disk, e': Disk, t: Table, certs: seq<Cert>, run: Run)
    requires Left(d, e, t, certs, run) && SameBut(e, e', {CrlNumber})
    ensures Left(d, e', t, certs, run) && (Path(Index, Live) in e ==> Path(Index, Live) in e')
  {
  }

  ghost predicate RevokeDid(c: Session, e: Session, run: Run, objects: Objects) {
    && e.certs == c.certs && e.crl == c.crl
    && (if run.revoke.None? then e.disk == c.disk
        else
          && SameBut(c.disk, e.disk, {Index, Attr})
          && RevocationPlaced(e.disk, c.table.rows, c.table.unique, run, objects))
  }

  lemma RevokeRan(c: Session, run: Run, objects: Objects)
    requires c.running && Consistent(c.table) && Path(Index, Live) in c.disk && RevokeSection(c, run, objects).running
    ensures RevokeDid(c, RevokeSection(c, run, objects), run, objects)
  {
    RevokeKeepsCrl(c, run, objects);
    if run.revoke.Some? { RevokeCompleted(c, run, objects); }
    assert RevokeSection(c, run, objects).certs == c.certs;
  }

  // And through it.
  lemma Finished(d: Disk, t: Table, c: Session, e: Session, run: Run, objects: Objects)
    requires RevokeDid(c, e, run, objects) && c.certs == Made(d, run)
    requires c.table.rows == Updated(t.rows, run) + RowsFor(c.certs) && c.table.unique == t.unique
    requires Left(d, c.disk, t, c.certs, run) && CountedOn(d, c.disk, c.certs, run) && NumberUsed(d, c.disk, run)
    ensures Completed(d, t, e, run, objects)
  {
    if run.revoke.Some? { CountersStay(d, c.disk, e.disk, c.certs, run); }
  }

  lemma CountersStay(d: Disk, c: Disk, e: Disk, certs: seq<Cert>, run: Run)
    requires CountedOn(d, c, certs, run) && NumberUsed(d, c, run) && SameBut(c, e, {Index, Attr})
    ensures CountedOn(d, e, certs, run) && NumberUsed(d, e, run)
  {
    CountersSame(c, e);
  }

  lemma TableBeforeCrl(d: Disk, run: Run, objects: Objects)
    ensures Consistent(BeforeCrl(d, run, objects).table)
  {
    var s := Begin(d, run, objects);
    var m := UpdateSection(s, run);
    BeginConsistent(d, run, objects);
    ExpireConsistent(s.table, Seconds(run.now));
    assert m.table in {s.table, s.table.(rows := ExpireRows(s.table.rows, Seconds(run.now)))};
    IssueSectionConsistent(m, run);
  }

  lemma BeginConsistent(d: Disk, run: Run, objects: Objects)
    ensures Consistent(Begin(d, run, objects).table)
  {
    if LoadDisk(d, run.unique, objects).Some? {
      LoadIsSound(d[Path(Index, Live)].text, Flag(d, run.unique), objects);
    }
  }

  lemma IssueSectionConsistent(s: Session, run: Run)
    requires Consistent(s.table)
    ensures Consistent(IssueSection(s, run).table)
  {
    var n := LiveNumber(s.disk, Serial);
    if run.issue.Some? && n.Some? {
      BatchConsistent(s.table, n.value, run.issue.value.requests);
      assert IssueSection(s, run).table in {s.table, Batch(s.table, n.value, run.issue.value.requests).table};
    }
  }

  // ------------------------------------------------- what was marked or revoked

  // A completed run with -updatedb that finds a valid row whose expiry says a time
  // that has been reached, and that does nothing else to the database, has saved
  // the rows with that one, and all others like it, marked as the calendar wants it.
  lemma ExpiredOnDisk(d: Disk, run: Run, objects: Objects, i: nat, t: Tm)
    requires Execute(d, run, objects).running && run.updatedb && run.issue.None? && run.revoke.None?
    requires ValidTm(run.now) && LoadDisk(d, run.unique, objects).Some?
    requires var rows := LoadDisk(d, run.unique, objects).value.rows;
      i < |rows| && rows[i].Type() == 'V' && Says(rows[i].exp, t) && !Before(run.now, t)
    ensures var e, was := Execute(d, run, objects).disk, LoadDisk(d, run.unique, objects).value;
      exists rows :: MarkedByCalendar(was.rows, rows, run.now) && Placed(e, rows, was.unique, run.env, UPDATE)
  {
    CompletedRun(d, run, objects);
    var was := LoadDisk(d, run.unique, objects).value;
    var rows := ExpireRows(was.rows, Seconds(run.now));
    UpdateMarks(was.rows, run.now);
    assert rows[i].Type() == 'E' && rows != was.rows;
    assert MarkedByCalendar(was.rows, rows, run.now);
  }

  // A completed revocation: what has been saved has the row of the certificate, of
  // type R, with the field that is written for the options given; until 2049 it
  // tells what they ask for.
  lemma RevokedOnDisk(d: Disk, run: Run, objects: Objects)
    requires Execute(d, run, objects).running && run.revoke.Some? && !run.revoke.value.kind.RevValid?
    requires ValidTm(run.now) && 1950 <= run.now.year
    ensures LoadDisk(d, run.unique, objects).Some?
    ensures var e, unique := Execute(d, run, objects).disk, LoadDisk(d, run.unique, objects).value.unique;
      exists rows :: RowsTell(rows, run.revoke.value, run.now, objects) && Placed(e, rows, unique, run.env, REVOKE + 1)
  {
    CompletedRun(d, run, objects);
    var q, t := run.revoke.value, LoadDisk(d, run.unique, objects).value;
    var before := Updated(t.rows, run) + RowsFor(Execute(d, run, objects).certs);
    var text := RevocationStr(q.kind, q.arg, run.now, objects).value;
    var rows := Revoked(before, q.cert, text);
    if run.now.year < 2050 { WrittenIsRead(q.kind, q.arg, run.now, objects); }
    if i :| 0 <= i < |before| && Filed(before[i], q.cert.serial) {
      assert RowTells(rows[i], q, run.now, objects);
    } else {
      assert RowTells(rows[|before|], q, run.now, objects);
    }
    assert RowsTell(rows, q, run.now, objects);
  }

  predicate RowsTell(rows: seq<Row>, q: Revoking, now: Tm, objects: Objects)
    requires ValidTm(now)
  {
    exists i :: 0 <= i < |rows| && Filed(rows[i], q.cert.serial) && RowTells(rows[i], q, now, objects)
  }

  predicate RowTells(r: Row, q: Revoking, now: Tm, objects: Objects)
    requires ValidTm(now)
  {
    && r.kind == "R" && RevocationStr(q.kind, q.arg, now, objects) == Some(r.rev)
    && (now.year < 2050 ==> Tells(q.kind, q.arg, Format(now), Unpack(r.rev, objects), objects))
  }

  // ---------------------------------------------------------- when runs complete

  lemma UpdateRuns(s: Session, run: Run)
    requires s.running
    ensures UpdateSection(s, run).running <==>
      Updated(s.table.rows, run) == s.table.rows || ReplaceWorks(run.env, UPDATE)
  {
    if run.updatedb {
      var rows := ExpireRows(s.table.rows, Seconds(run.now));
      MarkedIfCounted(s.table.rows, Seconds(run.now));
      ReplaceDone(s.disk, rows, s.table.unique, run.env, UPDATE);
    }
  }

  // What is asked for can be issued: there is a counter, no request fails, and
  // certificates, if any, are to be committed and can be named.
  predicate Issuable(t: Table, number: Option<nat>, issue: Issuing) {
    number.Some? &&
    var b := Batch(t, number.value, issue.requests);
    b.ok && (b.certs != [] ==> issue.commit && NamesFit(issue.outdir, b.certs))
  }

  lemma IssueRuns(s: Session, run: Run)
    requires s.running && run.issue.Some?
    ensures var n := LiveNumber(s.disk, Serial);
      IssueSection(s, run).running <==>
        && Issuable(s.table, n, run.issue.value)
        && (Batch(s.table, n.value, run.issue.value.requests).certs != [] ==> CommitWorks(run.env, ISSUE))
  {
    var n := LiveNumber(s.disk, Serial);
    if n.Some? {
      var b := Batch(s.table, n.value, run.issue.value.requests);
      BatchRows(s.table, n.value, run.issue.value.requests);
      var t := s.(table := b.table, serialClash := b.serialClash, certs := b.certs);
      if b.certs != [] { CommitRuns(t, b.serial, run); }
    }
  }

  lemma CommitRuns(s: Session, serial: nat, run: Run)
    requires s.table.rows != []
    ensures SaveIssued(s, serial, run).running <==> Named(run, s.certs) && CommitWorks(run.env, ISSUE)
  {
    CommitDone(s.disk, s.table.rows, s.table.unique, serial, Named(run, s.certs), run.env, ISSUE);
  }

  predicate CrlWorks(env: Env, numbered: bool) {
    && env(CRL).Works? && env(CRL + 2).Works?
    && (numbered ==> env(CRL + 1).Works? && env(CRL + 3).Works? && env(CRL + 4).Works?)
  }

  lemma CrlRuns(s: Session, run: Run, objects: Objects)
    requires s.running && run.gencrl.Some? && RowsOk(s.table.rows, objects)
    ensures CrlSection(s, run, objects).running <==>
      && (run.gencrl.value.numbered ==> LiveNumber(s.disk, CrlNumber).Some?)
      && CrlWorks(run.env, run.gencrl.value.numbered)
  {
    var numbered := run.gencrl.value.numbered;
    var number := if numbered then LiveNumber(s.disk, CrlNumber) else None;
    CrlFilesRun(s.disk, number, run.env);
  }

  lemma CrlFilesRun(d: Disk, number: Option<nat>, env: Env)
    ensures CrlFiles(d, number, env).status.Done? <==>
      && env(CRL + 2).Works?
      && (number.Some? ==> env(CRL + 1).Works? && env(CRL + 3).Works? && env(CRL + 4).Works?)
  {
    if number.Some? { NumberDone(d, number.value + 1, env, CRL + 1); }
  }

  lemma RevokeRuns(s: Session, run: Run, objects: Objects)
    requires s.running && run.revoke.Some? && Consistent(s.table)
    ensures RevokeSection(s, run, objects).running <==>
      && run.env(REVOKE).Works? && ReplaceWorks(run.env, REVOKE + 1)
      && Revocable(s.table, run.revoke.value, run.now, objects)
  {
    var q := run.revoke.value;
    var text := RevocationStr(q.kind, q.arg, run.now, objects);
    var r := Revoke(s.table, q.cert, q.kind.RevValid?, text);
    RevokeTouches(s.table, q.cert, q.kind.RevValid?, text);
    ReplaceDone(s.disk, r.table.rows, r.table.unique, run.env, REVOKE + 1);
  }

  predicate Revocable(t: Table, q: Revoking, now: Tm, objects: Objects) {
    Revoke(t, q.cert, q.kind.RevValid?, RevocationStr(q.kind, q.arg, now, objects)).ok
  }

  // The table behind the issuing section.
  function TableFor(t: Table, number: Option<nat>, run: Run): Table {
    var marked := t.(rows := Updated(t.rows, run));
    if run.issue.Some? && number.Some? then Batch(marked, number.value, run.issue.value.requests).table else marked
  }

  // Sections one and two, from a database that has been loaded.
  predicate Issues(t: Table, number: Option<nat>, run: Run) {
    var marked := t.(rows := Updated(t.rows, run));
    && (marked.rows != t.rows ==> ReplaceWorks(run.env, UPDATE))
    && (run.issue.Some? ==>
          && Issuable(marked, number, run.issue.value)
          && (Batch(marked, number.value, run.issue.value.requests).certs != [] ==> CommitWorks(run.env, ISSUE)))
  }

  // Sections three and four, from the table behind them.
  predicate Publishes(t: Table, number: Option<nat>, run: Run, objects: Objects) {
    && (run.gencrl.Some? ==>
          (run.gencrl.value.numbered ==> number.Some?) && CrlWorks(run.env, run.gencrl.value.numbered))
    && (run.revoke.Some? ==>
          && run.env(REVOKE).Works? && ReplaceWorks(run.env, REVOKE + 1)
          && Revocable(t, run.revoke.value, run.now, objects))
  }

  // A run completes exactly when its database loads, what it is asked for can be
  // done, and no call fails that it needs for that.
  lemma RunCompletes(d: Disk, run: Run, objects: Objects)
    requires Proper(run)
    ensures Execute(d, run, objects).running <==>
      && LoadDisk(d, run.unique, objects).Some? && run.env(START).Works?
      && var t := LoadDisk(d, run.unique, objects).value;
      && Issues(t, LiveNumber(d, Serial), run)
      && Publishes(TableFor(t, LiveNumber(d, Serial), run), LiveNumber(d, CrlNumber), run, objects)
  {
    var s := Begin(d, run, objects);
    if Execute(d, run, objects).running { SectionsRan(d, run, objects); }
    if s.running {
      FirstSections(d, run, objects);
      if BeforeCrl(d, run, objects).running {
        TableBeforeCrl(d, run, objects);
        ReadableBeforeCrl(d, run, objects);
        LastSections(BeforeCrl(d, run, objects), run, objects);
      }
    }
  }

  lemma FirstSections(d: Disk, run: Run, objects: Objects)
    requires Begin(d, run, objects).running
    ensures LoadDisk(d, run.unique, objects).Some?
    ensures var t, e := LoadDisk(d, run.unique, objects).value, BeforeCrl(d, run, objects);
      && (e.running <==> Issues(t, LiveNumber(d, Serial), run))
      && (e.running ==> e.table == TableFor(t, LiveNumber(d, Serial), run))
      && (e.running ==> LiveNumber(e.disk, CrlNumber) == LiveNumber(d, CrlNumber))
  {
    var s := Begin(d, run, objects);
    var m := UpdateSection(s, run);
    UpdateRuns(s, run);
    if m.running {
      UpdateCompleted(s, run);
      CountersSame(d, m.disk);
      SecondSection(m, run);
      if IssueSection(m, run).running { UpToCrl(d, run, objects); }
    } else {
      IssueRevokes(m, run);
    }
  }

  lemma SecondSection(m: Session, run: Run)
    requires m.running
    ensures var n, e := LiveNumber(m.disk, Serial), IssueSection(m, run);
      && (e.running <==> run.issue.Some? ==>
            && Issuable(m.table, n, run.issue.value)
            && (Batch(m.table, n.value, run.issue.value.requests).certs != [] ==> CommitWorks(run.env, ISSUE)))
      && (e.running && run.issue.Some? && n.Some? ==>
            e.table == Batch(m.table, n.value, run.issue.value.requests).table)
      && (e.running && run.issue.None? ==> e.table == m.table)
  {
    if run.issue.Some? { IssueRuns(m, run); }
  }

  lemma LastSections(s: Session, run: Run, objects: Objects)
    requires s.running && Consistent(s.table) && RowsOk(s.table.rows, objects)
    ensures RevokeSection(CrlSection(s, run, objects), run, objects).running <==>
      Publishes(s.table, LiveNumber(s.disk, CrlNumber), run, objects)
  {
    var c := CrlSection(s, run, objects);
    CrlSectionKeeps(s, run, objects);
    RevokeKeepsCrl(c, run, objects);
    if run.gencrl.Some? { CrlRuns(s, run, objects); }
    if c.running && run.revoke.Some? { RevokeRuns(c, run, objects); }
  }

  lemma ReadableBeforeCrl(d: Disk, run: Run, objects: Objects)
    requires Proper(run) && Begin(d, run, objects).running
    ensures RowsOk(BeforeCrl(d, run, objects).table.rows, objects)
  {
    var s := Begin(d, run, objects);
    var m := UpdateSection(s, run);
    LoadIsSound(d[Path(Index, Live)].text, Flag(d, run.unique), objects);
    ExpireSound(s.table, Seconds(run.now), objects);
    assert m.table in {s.table, s.table.(rows := ExpireRows(s.table.rows, Seconds(run.now)))};
    IssueSound(m, run, objects);
  }

  lemma IssueSound(m: Session, run: Run, objects: Objects)
    requires Proper(run) && Sound(m.table, objects)
    ensures Sound(IssueSection(m, run).table, objects)
  {
    var n := LiveNumber(m.disk, Serial);
    if run.issue.Some? && n.Some? {
      BatchSound(m.table, n.value, run.issue.value.requests, objects);
      assert IssueSection(m, run).table in {m.table, Batch(m.table, n.value, run.issue.value.requests).table};
    }
  }

  // A CRL is issued exactly when the sections in front of it go through and it can
  // be signed and written -- if it is numbered, once its successor has been saved.
  lemma CrlIssued(d: Disk, run: Run, objects: Objects)
    requires Proper(run)
    ensures Execute(d, run, objects).crl.Some? <==>
      && LoadDisk(d, run.unique, objects).Some? && run.env(START).Works?
      && Issues(LoadDisk(d, run.unique, objects).value, LiveNumber(d, Serial), run)
      && run.gencrl.Some? && run.env(CRL).Works? && run.env(CRL + 2).Works?
      && (run.gencrl.value.numbered ==> LiveNumber(d, CrlNumber).Some? && run.env(CRL + 1).Works?)
  {
    var s := BeforeCrl(d, run, objects);
    CrlOnlyInSection(d, run, objects);
    if Begin(d, run, objects).running {
      FirstSections(d, run, objects);
      ReadableBeforeCrl(d, run, objects);
    } else {
      assert !s.running;
    }
    CrlMadeWhen(s, run, objects);
  }

  lemma CrlMadeWhen(s: Session, run: Run, objects: Objects)
    requires s.crl.None? && (s.running ==> RowsOk(s.table.rows, objects))
    ensures CrlSection(s, run, objects).crl.Some? <==>
      && s.running && run.gencrl.Some? && run.env(CRL).Works? && run.env(CRL + 2).Works?
      && (run.gencrl.value.numbered ==> LiveNumber(s.disk, CrlNumber).Some? && run.env(CRL + 1).Works?)
  {
  }

  // What is reported of the batch, whatever becomes of the run afterwards: the
  // certificates of one that is to be committed, and whether it met a serial that
  // has been issued already.
  lemma BatchReported(d: Disk, run: Run, objects: Objects)
    requires run.issue.Some?
    requires var s := UpdateSection(Begin(d, run, objects), run); s.running && LiveNumber(s.disk, Serial).Some?
    ensures var s, e := UpdateSection(Begin(d, run, objects), run), Execute(d, run, objects);
      var n, qs := LiveNumber(s.disk, Serial).value, run.issue.value.requests;
      var b := Batch(s.table, n, qs);
      && e.serialClash == b.serialClash
      && e.certs == if b.ok && run.issue.value.commit then Numbered(Wanted(qs), n) else []
  {
    var s := UpdateSection(Begin(d, run, objects), run);
    UpdateCertless(Begin(d, run, objects), run);
    IssueReports(s, run);
    LaterKeepReport(IssueSection(s, run), run, objects);
  }

  lemma UpdateCertless(s: Session, run: Run)
    ensures UpdateSection(s, run).certs == s.certs && UpdateSection(s, run).serialClash == s.serialClash
  {
  }

  lemma IssueReports(s: Session, run: Run)
    requires s.running && s.certs == [] && run.issue.Some? && LiveNumber(s.disk, Serial).Some?
    ensures var e, n, qs := IssueSection(s, run), LiveNumber(s.disk, Serial).value, run.issue.value.requests;
      var b := Batch(s.table, n, qs);
      && e.serialClash == b.serialClash
      && e.certs == if b.ok && run.issue.value.commit then Numbered(Wanted(qs), n) else []
  {
    var n, qs := LiveNumber(s.disk, Serial).value, run.issue.value.requests;
    if Batch(s.table, n, qs).ok { BatchCertifiesWanted(s.table, n, qs); }
  }

  lemma LaterKeepReport(s: Session, run: Run, objects: Objects)
    ensures var e := RevokeSection(CrlSection(s, run, objects), run, objects);
      e.certs == s.certs && e.serialClash == s.serialClash
  {
    var c := CrlSection(s, run, objects);
    assert c.certs == s.certs && c.serialClash == s.serialClash;
  }
}
