// ca_main itself: its sections as it runs them, one after the other, over the
// database in memory and the files on disk, each proved to do what the
// corresponding function on sessions says.
module CaMain {
  import opened Text
  import opened Asn1Time
  import opened Revocation
  import opened Table
  import opened Lifecycle
  import opened Reload
  import opened Readers
  import opened Disk
  import opened CertNames
  import opened CaRun
  import opened CaDb
  import opened Files
  import CString
  import TxtDb

  // What the program gets to see holds no terminators but those of C strings.
  predicate Texts(d: Disk, run: Run) {
    && (Path(Index, Live) in d && d[Path(Index, Live)].IndexText? ==> CString.NulFree(d[Path(Index, Live)].text))
    && (run.issue.Some? ==> CString.NulFree(run.issue.value.outdir))
    && (run.revoke.Some? ==> CString.NulFree(run.revoke.value.arg))
  }

  // The objects of a run are in the state s.
  ghost predicate In(fs: Files, db: Db, run: Run, s: Session)
    reads fs, db, db.rows
  {
    && fs.up && fs.env == run.env && fs.disk == s.disk
    && db.Valid() && db.table == s.table && s.running
  }

  // They are where the state after a section is, or the run has ended there.
  ghost predicate Now(fs: Files, db: Db, ok: bool, e: Session)
    reads fs, db, db.rows
  {
    fs.disk == e.disk && ok == e.running && (ok ==> fs.up) && db.table == e.table && db.Valid()
  }

  // A table whose rows pass the checks and can be unpacked as C strings.
  ghost predicate Readable(t: Table, objects: Objects) {
    Sound(t, objects) && forall i :: 0 <= i < |t.rows| ==> CString.NulFree(t.rows[i].rev)
  }

  // From opening the database to building its indexes.
  method LoadIndex(fs: Files, run: Run, objects: Objects) returns (db: Db?)
    requires fs.up && fs.env == run.env && Texts(fs.disk, run)
    modifies fs
    ensures fs.disk == old(fs.disk)
    ensures db != null <==> Begin(fs.disk, run, objects).running
    ensures db != null ==> fresh(db) && (forall i :: 0 <= i < |db.rows| ==> fresh(db.rows[i]))
    ensures db != null ==> In(fs, db, run, Begin(fs.disk, run, objects)) && Readable(db.table, objects)
  {
    db := null;
    var readable := fs.Attempt(START);
    var p := Path(Index, Live);
    if !readable || p !in fs.disk || !fs.disk[p].IndexText? { return; }
    db := OpenDb(fs.disk[p].text, Flag(fs.disk, run.unique), objects);
    assert LoadDisk(fs.disk, run.unique, objects) == if db == null then None else Some(db.table);
  }

  method OpenDb(text: string, flag: bool, objects: Objects) returns (db: Db?)
    requires CString.NulFree(text)
    ensures db != null <==> Load(text, flag, objects).Some?
    ensures db != null ==> fresh(db) && (forall i :: 0 <= i < |db.rows| ==> fresh(db.rows[i]))
    ensures db != null ==> db.Valid() && Load(text, flag, objects) == Some(db.table) && Readable(db.table, objects)
  {
    db := null;
    var fields := TxtDb.ReadDb(text);
    if fields.None? { return; }
    var d := new Db(FromFields(fields.value), flag);
    TxtDb.ReadNulFree(text);
    var fine := d.CheckFields(objects);
    if !fine { return; }
    var ok := d.BuildIndexes();
    if ok {
      LoadIsSound(text, flag, objects);
      db := d;
    }
  }

  method ReplaceIndexFiles(fs: Files, db: Db, at: nat) returns (ok: bool)
    requires fs.up && db.Shows()
    modifies fs
    ensures fs.Did(ok, ReplaceIndex(old(fs.disk), db.table.rows, db.unique, fs.env, at))
  {
    ok := fs.SaveIndexFiles(db, at);
    if ok { ok := fs.RotateIndexFiles(at + 2); }
  }

  // Mark expired certificates, and save the database if there were any.
  method UpdateDatabase(fs: Files, db: Db, run: Run, ghost s: Session) returns (ok: bool)
    requires In(fs, db, run, s) && ExpiriesReadable(s.table.rows) && Proper(run)
    modifies fs, db`table, db.rows
    ensures Now(fs, db, ok, UpdateSection(s, run))
  {
    if !run.updatedb { return true; }
    var cnt := db.DoUpdateDb(run.now);
    if cnt == -1 { return false; }
    ghost var t := s.(table := db.table);
    ok := SaveUpdated(fs, db, cnt, run, t);
  }

  method SaveUpdated(fs: Files, db: Db, cnt: int, run: Run, ghost s: Session) returns (ok: bool)
    requires In(fs, db, run, s)
    modifies fs
    ensures Now(fs, db, ok, SaveExpired(s, cnt, run))
  {
    if cnt == 0 { return true; }
    ok := ReplaceIndexFiles(fs, db, UPDATE);
  }

  // The requests one after the other. The counter is incremented in place as
  // certificates are made.
  method IssueBatch(db: Db, first: nat, qs: seq<Request>)
    returns (ok: bool, serial: nat, certs: seq<Cert>, taken: bool)
    requires db.Valid()
    modifies db
    ensures db.Valid()
    ensures BatchResult(ok, db.table, serial, certs, taken) == Batch(old(db.table), first, qs)
    ensures old(db.rows) <= db.rows && forall i :: |old(db.rows)| <= i < |db.rows| ==> fresh(db.rows[i])
  {
    ghost var whole := Batch(db.table, first, qs);
    ok, serial, certs, taken := true, first, [], false;
    var i := 0;
    while i < |qs| && ok
      invariant 0 <= i <= |qs| && db.Valid()
      invariant old(db.rows) <= db.rows && forall j :: |old(db.rows)| <= j < |db.rows| ==> fresh(db.rows[j])
      invariant whole ==
        if ok then Behind(certs, Batch(db.table, serial, qs[i..]))
        else BatchResult(false, db.table, serial, certs, taken)
      invariant ok ==> !taken
    {
      ok, serial, certs, taken := IssueNext(db, serial, qs, i, certs, whole);
      i := i + 1;
    }
  }

  method IssueNext(db: Db, first: nat, qs: seq<Request>, i: nat, done: seq<Cert>, ghost whole: BatchResult)
    returns (ok: bool, serial: nat, certs: seq<Cert>, taken: bool)
    requires db.Valid() && i < |qs| && whole == Behind(done, Batch(db.table, first, qs[i..]))
    modifies db
    ensures db.Valid()
    ensures old(db.rows) <= db.rows && forall j :: |old(db.rows)| <= j < |db.rows| ==> fresh(db.rows[j])
    ensures whole ==
      if ok then Behind(certs, Batch(db.table, serial, qs[i + 1..]))
      else BatchResult(false, db.table, serial, certs, taken)
    ensures ok ==> !taken
  {
    BatchStep(db.table, first, qs, i, done);
    var verdict;
    serial, certs := first, done;
    verdict, taken := db.IssueOne(serial, qs[i]);
    if verdict.Certified? {
      certs := certs + [Cert(serial, qs[i].subject, qs[i].notAfter)];
      serial := serial + 1;
    }
    ok := !verdict.Failed?;
  }

  // The result of a batch whose first requests have produced these certificates.
  function Behind(certs: seq<Cert>, b: BatchResult): BatchResult {
    b.(certs := certs + b.certs)
  }

  lemma BatchStep(t: Table, serial: nat, qs: seq<Request>, i: nat, certs: seq<Cert>)
    requires i < |qs|
    ensures var one, whole := Issue(t, serial, qs[i]), Behind(certs, Batch(t, serial, qs[i..]));
      match one.verdict
      case Failed => whole == BatchResult(false, one.table, serial, certs, one.serialClash)
      case Skipped => whole == Behind(certs, Batch(one.table, serial, qs[i + 1..])) && !one.serialClash
      case Certified =>
        && qs[i].Wellformed? && !one.serialClash
        && var c := Cert(serial, qs[i].subject, qs[i].notAfter);
          whole == Behind(certs + [c], Batch(one.table, serial + 1, qs[i + 1..]))
  {
    assert qs[i..][0] == qs[i] && qs[i..][1..] == qs[i + 1..];
    var one := Issue(t, serial, qs[i]);
    if one.verdict.Certified? {
      var c := Cert(serial, qs[i].subject, qs[i].notAfter);
      var rest := Batch(one.table, serial + 1, qs[i + 1..]).certs;
      assert certs + ([c] + rest) == certs + [c] + rest;
    }
  }

  // Writing the new certificates out and putting counter and database in place.
  method Commit(fs: Files, db: Db, run: Run, serial: nat, certs: seq<Cert>) returns (ok: bool)
    requires fs.up && fs.env == run.env && db.Shows() && run.issue.Some?
    requires CString.NulFree(run.issue.value.outdir)
    modifies fs
    ensures var r := CommitFiles(old(fs.disk), db.table.rows, db.unique, serial, Named(run, certs), run.env, ISSUE);
      fs.disk == r.disk && (ok <==> r.status.Done?) && (ok ==> fs.up)
  {
    ok := fs.Put(Path(Serial, New), Number(serial), ISSUE);
    if !ok { return; }
    ok := fs.SaveIndexFiles(db, ISSUE + 1);
    if !ok { return; }
    var fit, names := NameCerts(run.issue.value.outdir, certs);
    if !fit { return false; }
    ok := fs.Attempt(ISSUE + 3);
    if !ok { return; }
    ok := fs.RotateSerial(Serial, ISSUE + 4);
    if !ok { return; }
    ok := fs.RotateIndexFiles(ISSUE + 7);
  }

  // The issuing section.
  method IssueCerts(fs: Files, db: Db, run: Run, ghost s: Session) returns (ok: bool, certs: seq<Cert>, taken: bool)
    requires In(fs, db, run, s) && s.certs == [] && !s.serialClash
    requires run.issue.Some? ==> CString.NulFree(run.issue.value.outdir)
    modifies fs, db
    ensures Now(fs, db, ok, IssueSection(s, run))
    ensures certs == IssueSection(s, run).certs && taken == IssueSection(s, run).serialClash
    ensures old(db.rows) <= db.rows && forall i :: |old(db.rows)| <= i < |db.rows| ==> fresh(db.rows[i])
  {
    certs, taken := [], false;
    if run.issue.None? { return true, certs, taken; }
    var p := Path(Serial, Live);
    if p !in fs.disk || !fs.disk[p].Number? { return false, certs, taken; }
    var fine, serial, made, clash := IssueBatch(db, fs.disk[p].n, run.issue.value.requests);
    taken := clash;
    if !fine { return false, certs, taken; }
    if |made| == 0 { return true, certs, taken; }
    if !run.issue.value.commit { return false, certs, taken; }
    certs := made;
    ok := Commit(fs, db, run, serial, made);
  }

  // The CRL section: the entries are collected, the next number is saved, the
  // CRL written, and the number put in place.
  method MakeCrl(fs: Files, db: Db, run: Run, objects: Objects, ghost s: Session) returns (ok: bool, crl: Option<Crl>)
    requires In(fs, db, run, s) && s.crl.None?
    requires RowsOk(s.table.rows, objects) && db.RevsNulFree()
    modifies fs
    ensures Now(fs, db, ok, CrlSection(s, run, objects)) && crl == CrlSection(s, run, objects).crl
  {
    crl := None;
    if run.gencrl.None? { return true, crl; }
    var number;
    ok, number := LoadCrlNumber(fs, run.gencrl.value.numbered);
    if !ok { return; }
    ok := fs.Attempt(CRL);
    if !ok { return; }
    var made := CollectCrl(db, number, run.gencrl.value, objects);
    ok, crl := IssueCrl(fs, db, made, run, s);
  }

  method LoadCrlNumber(fs: Files, numbered: bool) returns (ok: bool, number: Option<nat>)
    ensures number == if numbered then LiveNumber(fs.disk, CrlNumber) else None
    ensures ok <==> (numbered ==> number.Some?)
  {
    var p := Path(CrlNumber, Live);
    if !numbered { return true, None; }
    if p !in fs.disk || !fs.disk[p].Number? { return false, None; }
    return true, Some(fs.disk[p].n);
  }

  method IssueCrl(fs: Files, db: Db, made: Crl, run: Run, ghost s: Session) returns (ok: bool, crl: Option<Crl>)
    requires In(fs, db, run, s) && s.crl.None?
    modifies fs
    ensures Now(fs, db, ok, SaveCrl(s, made, run)) && crl == SaveCrl(s, made, run).crl
  {
    var written;
    ok, written := WriteCrl(fs, made.number);
    crl := if written then Some(made) else None;
  }

  method CollectCrl(db: Db, number: Option<nat>, options: CrlOptions, objects: Objects) returns (crl: Crl)
    requires db.Shows() && RowsOk(db.table.rows, objects) && db.RevsNulFree()
    requires number.Some? <==> options.numbered
    ensures crl == CrlOf(db.table.rows, number, options, objects)
  {
    var entries, crl_v2 := db.BuildCrl(objects);
    if number.Some? { crl_v2 := true; }
    crl := Crl(number, entries, options.extensions || crl_v2);
  }

  method WriteCrl(fs: Files, number: Option<nat>) returns (ok: bool, written: bool)
    requires fs.up
    modifies fs
    ensures var r := CrlFiles(old(fs.disk), number, fs.env);
      fs.disk == r.disk && (ok <==> r.status.Done?) && (ok ==> fs.up)
    ensures written <==> Written(number, fs.env)
  {
    written := false;
    if number.Some? {
      ok := fs.Put(Path(CrlNumber, New), Number(number.value + 1), CRL + 1);
      if !ok { return; }
    }
    ok := fs.Attempt(CRL + 2);
    if !ok { return; }
    written := true;
    if number.Some? { ok := fs.RotateSerial(CrlNumber, CRL + 3); }
  }

  // The revocation section.
  method RevokeCert(fs: Files, db: Db, run: Run, objects: Objects, ghost s: Session) returns (ok: bool)
    requires In(fs, db, run, s)
    requires run.revoke.Some? ==> CString.NulFree(run.revoke.value.arg)
    modifies fs, db, db.rows
    ensures fs.disk == RevokeSection(s, run, objects).disk && ok == RevokeSection(s, run, objects).running
  {
    if run.revoke.None? { return true; }
    var q := run.revoke.value;
    ok := fs.Attempt(REVOKE);
    if !ok { return; }
    ok := db.DoRevoke(q.cert, q.kind, q.arg, run.now, objects);
    if !ok { return; }
    ghost var t := s.(table := db.table);
    ok := SaveRevocation(fs, db, run, t);
  }

  method SaveRevocation(fs: Files, db: Db, run: Run, ghost s: Session) returns (ok: bool)
    requires In(fs, db, run, s)
    modifies fs
    ensures Now(fs, db, ok, SaveRevoked(s, run))
  {
    ok := ReplaceIndexFiles(fs, db, REVOKE + 1);
  }

  // The whole run is the run that all statements about histories speak of.
  method Perform(fs: Files, run: Run, objects: Objects)
    returns (ok: bool, certs: seq<Cert>, taken: bool, crl: Option<Crl>)
    requires fs.up && fs.env == run.env && Texts(fs.disk, run) && Proper(run)
    modifies fs
    ensures CameTo(fs, ok, certs, taken, crl, Execute(old(fs.disk), run, objects))
  {
    var db := LoadUpdated(fs, run, objects);
    if db == null {
      Ended(UpdateSection(Begin(old(fs.disk), run, objects), run), run, objects);
      return false, [], false, None;
    }
    ok, certs, taken, crl := PerformLoaded(fs, db, run, objects, UpdateSection(Begin(old(fs.disk), run, objects), run));
  }

  // Load the database and bring it up to date; null ends the run.
  method LoadUpdated(fs: Files, run: Run, objects: Objects) returns (db: Db?)
    requires fs.up && fs.env == run.env && Texts(fs.disk, run) && Proper(run)
    modifies fs
    ensures var s := UpdateSection(Begin(old(fs.disk), run, objects), run);
      && fs.disk == s.disk && (db != null <==> s.running)
      && (db != null ==> In(fs, db, run, s) && Readable(s.table, objects))
      && s.certs == [] && !s.serialClash && s.crl.None?
    ensures db != null ==> fresh(db) && (forall i :: 0 <= i < |db.rows| ==> fresh(db.rows[i]))
  {
    ghost var s := Begin(fs.disk, run, objects);
    Begun(fs.disk, run, objects);
    UpdateAdds(s, run);
    db := LoadIndex(fs, run, objects);
    if db == null { return; }
    var ok := UpdateReadably(fs, db, run, objects, s);
    if !ok { db := null; }
  }

  method UpdateReadably(fs: Files, db: Db, run: Run, objects: Objects, ghost s: Session) returns (ok: bool)
    requires In(fs, db, run, s) && Readable(s.table, objects) && Proper(run)
    modifies fs, db`table, db.rows
    ensures Now(fs, db, ok, UpdateSection(s, run)) && Readable(UpdateSection(s, run).table, objects)
  {
    ReadableExpiries(s.table, objects);
    UpdateReadable(s, run, objects);
    ok := UpdateDatabase(fs, db, run, s);
  }

  lemma Begun(d: Disk, run: Run, objects: Objects)
    ensures var s := Begin(d, run, objects);
      s.disk == d && s.certs == [] && !s.serialClash && s.crl.None?
  {
  }

  // The sections behind the update of the database.
  method PerformLoaded(fs: Files, db: Db, run: Run, objects: Objects, ghost s: Session)
    returns (ok: bool, certs: seq<Cert>, taken: bool, crl: Option<Crl>)
    requires In(fs, db, run, s) && Readable(s.table, objects) && Proper(run) && Texts(map[], run)
    requires s.certs == [] && !s.serialClash && s.crl.None?
    modifies fs, db, db.rows
    ensures CameTo(fs, ok, certs, taken, crl,
      RevokeSection(CrlSection(IssueSection(s, run), run, objects), run, objects))
  {
    IssueReadable(s, run, objects);
    ok, certs, taken := IssueCerts(fs, db, run, s);
    ok, crl := Publish(fs, db, run, objects, ok, IssueSection(s, run));
  }

  ghost predicate CameTo(fs: Files, ok: bool, certs: seq<Cert>, taken: bool, crl: Option<Crl>, e: Session)
    reads fs
  {
    fs.disk == e.disk && ok == e.running && certs == e.certs && taken == e.serialClash && crl == e.crl
  }

  lemma Ended(s: Session, run: Run, objects: Objects)
    requires !s.running
    ensures IssueSection(s, run) == s && RevokeSection(CrlSection(s, run, objects), run, objects) == s
  {
  }

  // The last two sections, if the run goes on.
  method Publish(fs: Files, db: Db, run: Run, objects: Objects, going: bool, ghost s: Session)
    returns (ok: bool, crl: Option<Crl>)
    requires Now(fs, db, going, s) && fs.env == run.env && s.crl.None? && Texts(map[], run)
    requires RowsOk(s.table.rows, objects) && db.RevsNulFree()
    modifies fs, db, db.rows
    ensures CameTo(fs, ok, s.certs, s.serialClash, crl, RevokeSection(CrlSection(s, run, objects), run, objects))
  {
    ghost var t := CrlSection(s, run, objects);
    CrlAdds(s, run, objects);
    RevokeAdds(t, run, objects);
    ok, crl := false, None;
    if !going { return; }
    ok, crl := MakeCrl(fs, db, run, objects, s);
    if !ok { return; }
    ok := RevokeCert(fs, db, run, objects, t);
  }

  // A section adds to what has come of the run only its own part.
  lemma UpdateAdds(s: Session, run: Run)
    ensures var e := UpdateSection(s, run);
      e.certs == s.certs && e.serialClash == s.serialClash && e.crl == s.crl && (s.running || e == s)
  {
  }

  lemma CrlAdds(s: Session, run: Run, objects: Objects)
    ensures var e := CrlSection(s, run, objects);
      e.table == s.table && e.certs == s.certs && e.serialClash == s.serialClash && (s.running || e == s)
  {
  }

  lemma RevokeAdds(s: Session, run: Run, objects: Objects)
    ensures var e := RevokeSection(s, run, objects);
      e.certs == s.certs && e.serialClash == s.serialClash && e.crl == s.crl && (s.running || e == s)
  {
  }

  lemma ReadableExpiries(t: Table, objects: Objects)
    requires Readable(t, objects)
    ensures ExpiriesReadable(t.rows)
  {
    assert forall i :: 0 <= i < |t.rows| ==> RowOk(t.rows[i], objects);
  }

  lemma UpdateReadable(s: Session, run: Run, objects: Objects)
    requires Readable(s.table, objects)
    ensures Readable(UpdateSection(s, run).table, objects)
  {
    var t := s.table.(rows := ExpireRows(s.table.rows, Seconds(run.now)));
    ExpireSound(s.table, Seconds(run.now), objects);
    assert Readable(t, objects);
    assert UpdateSection(s, run).table in {s.table, t};
  }

  lemma IssueReadable(s: Session, run: Run, objects: Objects)
    requires Readable(s.table, objects) && Proper(run)
    ensures Readable(IssueSection(s, run).table, objects) && IssueSection(s, run).crl == s.crl
  {
    var n := LiveNumber(s.disk, Serial);
    if run.issue.Some? && n.Some? {
      var t := Batch(s.table, n.value, run.issue.value.requests).table;
      BatchSound(s.table, n.value, run.issue.value.requests, objects);
      BatchRows(s.table, n.value, run.issue.value.requests);
      assert Readable(t, objects);
      assert IssueSection(s, run).table in {s.table, t};
    }
  }
}
