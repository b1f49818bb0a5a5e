// One run of the program from the files on disk to the files on disk, section by
// section, and what each section keeps wherever it fails or is stopped.
module CaRun {
  import opened Text
  import opened Asn1Time
  import opened Revocation
  import opened Table
  import opened Lifecycle
  import opened Reload
  import opened Readers
  import opened Disk
  import opened CertNames
  import TxtDb

  // ------------------------------------------------------------------ runs

  datatype Issuing = Issuing(requests: seq<Request>, outdir: string, commit: bool)

  datatype CrlOptions = CrlOptions(extensions: bool, numbered: bool)

  datatype Revoking = Revoking(cert: Cert, kind: RevType, arg: string)

  // What one invocation is asked to do, the time at which it runs, and how its
  // system calls go. unique is the configured default for unique subjects.
  datatype Run = Run(
    unique: bool, now: Tm, updatedb: bool, issue: Option<Issuing>,
    gencrl: Option<CrlOptions>, revoke: Option<Revoking>, env: Env)

  datatype Crl = Crl(number: Option<nat>, entries: seq<CrlEntry>, v2: bool)

  // A run in progress: the disk, the table in memory, and what has come of it.
  // Once running is false nothing happens any more.
  datatype Session = Session(
    disk: Disk, table: Table, running: bool,
    certs: seq<Cert>, serialClash: bool, crl: Option<Crl>)

  // Numbers of the system calls, by section.
  const START: nat := 0
  const UPDATE: nat := 10
  const ISSUE: nat := 40
  const CRL: nat := 80
  const REVOKE: nat := 100

  // The setting an attribute file with these contents makes.
  function Setting(c: Content, configured: bool): bool {
    if c.UniqueFlag? then c.flag else configured
  }

  function Flag(d: Disk, configured: bool): bool {
    if Path(Attr, Live) in d then Setting(d[Path(Attr, Live)], configured) else configured
  }

  // load_index, the row checks and index_index.
  function LoadDisk(d: Disk, configured: bool, objects: Objects): Option<Table> {
    var p := Path(Index, Live);
    if p in d && d[p].IndexText? then Load(d[p].text, Flag(d, configured), objects) else None
  }

  function Begin(d: Disk, run: Run, objects: Objects): Session {
    match LoadDisk(d, run.unique, objects)
    case Some(t) => Session(d, t, run.env(START).Works?, [], false, None)
    case None => Session(d, Table([], run.unique, map[], map[]), false, [], false, None)
  }

  // The outcome of system calls ends the run or lets it go on.
  function After(s: Session, r: Io): Session {
    s.(disk := r.disk, running := r.status.Done?)
  }

  function UpdateSection(s: Session, run: Run): Session {
    if !s.running || !run.updatedb then s
    else
      var now := Seconds(run.now);
      SaveExpired(s.(table := s.table.(rows := ExpireRows(s.table.rows, now))), ExpiredCount(s.table.rows, now), run)
  }

  function SaveExpired(s: Session, count: int, run: Run): Session {
    if count == 0 then s
    else After(s, ReplaceIndex(s.disk, s.table.rows, s.table.unique, run.env, UPDATE))
  }

  function IssueSection(s: Session, run: Run): Session {
    if !s.running || run.issue.None? then s
    else if LiveNumber(s.disk, Serial).None? then s.(running := false)
    else
      var b := Batch(s.table, LiveNumber(s.disk, Serial).value, run.issue.value.requests);
      var t := s.(table := b.table, serialClash := b.serialClash);
      if !b.ok then t.(running := false)
      else if b.certs == [] then t
      else if !run.issue.value.commit then t.(running := false)
      else SaveIssued(t.(certs := b.certs), b.serial, run)
  }

  function SaveIssued(s: Session, serial: nat, run: Run): Session {
    After(s, CommitFiles(s.disk, s.table.rows, s.table.unique, serial, Named(run, s.certs), run.env, ISSUE))
  }

  predicate Named(run: Run, certs: seq<Cert>) {
    run.issue.Some? && NamesFit(run.issue.value.outdir, certs)
  }

  // The entries are taken from the table; the CRL counts as issued once it has
  // been written out, before its number is used up for good.
  function CrlSection(s: Session, run: Run, objects: Objects): Session {
    if !s.running || run.gencrl.None? then s
    else
      var options := run.gencrl.value;
      var number := if options.numbered then LiveNumber(s.disk, CrlNumber) else None;
      if options.numbered && number.None? then s.(running := false)
      else if !RowsOk(s.table.rows, objects) || !run.env(CRL).Works? then s.(running := false)
      else SaveCrl(s, CrlOf(s.table.rows, number, options, objects), run)
  }

  function SaveCrl(s: Session, crl: Crl, run: Run): Session {
    After(s.(crl := if Written(crl.number, run.env) then Some(crl) else s.crl), CrlFiles(s.disk, crl.number, run.env))
  }

  predicate Written(number: Option<nat>, env: Env) {
    (number.Some? ==> env(CRL + 1).Works?) && env(CRL + 2).Works?
  }

  function CrlFiles(d: Disk, number: Option<nat>, env: Env): Io {
    if number.Some? then NumberFiles(d, number.value + 1, env, CRL + 1)
    else Io(d, if env(CRL + 2).Works? then Done else Error)
  }

  function CrlOf(rows: seq<Row>, number: Option<nat>, options: CrlOptions, objects: Objects): Crl
    requires RowsOk(rows, objects)
  {
    var es := CrlEntries(rows, objects);
    Crl(number, es, options.extensions || options.numbered || HasReason(es))
  }

  function RevokeSection(s: Session, run: Run, objects: Objects): Session {
    if !s.running || run.revoke.None? then s
    else
      var q := run.revoke.value;
      var r := Revoke(s.table, q.cert, q.kind.RevValid?, RevocationStr(q.kind, q.arg, run.now, objects));
      if !r.ok || !run.env(REVOKE).Works? then s.(table := r.table, running := false)
      else SaveRevoked(s.(table := r.table), run)
  }

  function SaveRevoked(s: Session, run: Run): Session {
    After(s, ReplaceIndex(s.disk, s.table.rows, s.table.unique, run.env, REVOKE + 1))
  }

  function Execute(d: Disk, run: Run, objects: Objects): Session {
    RevokeSection(CrlSection(IssueSection(UpdateSection(Begin(d, run, objects), run), run), run, objects), run, objects)
  }

  // The disk after a sequence of runs.
  function ExecuteAll(d: Disk, runs: seq<Run>, objects: Objects): Disk {
    if runs == [] then d
    else Execute(ExecuteAll(d, runs[..|runs| - 1], objects), runs[|runs| - 1], objects).disk
  }

  // ------------------------------------------------------------- invariants

  // What is to be kept: u is the configured uniqueness of subjects, past are
  // the rows of some earlier database, and counted says whether serials below
  // the counter are to be kept, too.
  datatype Keep = Keep(u: bool, objects: Objects, past: seq<Row>, counted: bool)

  // What holds of any run: the clock, and subjects and times of certificates to
  // be made, are such as the library makes them.
  predicate Proper(run: Run) {
    && ValidTm(run.now) && 1950 <= run.now.year <= 9999
    && (run.issue.Some? ==> forall i :: 0 <= i < |run.issue.value.requests| ==> RequestOk(run.issue.value.requests[i]))
  }

  // The time of a revocation can be written as a UTCTime, and what is known of
  // a certificate to be revoked is proper, too.
  predicate RevokesProperly(run: Run) {
    run.revoke.Some? ==>
      && (!run.revoke.value.kind.RevValid? ==> run.now.year < 2050)
      && OneLine(run.revoke.value.cert.subject) && AnyTime(run.revoke.value.cert.notAfter).Some?
  }

  function RowsIn(c: Content): seq<Row> {
    if c.IndexText? && TxtDb.ReadDb(c.text).Some? then FromFields(TxtDb.ReadDb(c.text).value) else []
  }

  // The rows continue the past by rows the programs wrote, and their serials
  // are below the counter n.
  predicate Fits(rows: seq<Row>, n: Option<nat>, k: Keep) {
    && Evolves(k.past, rows) && NativeFrom(rows, |k.past|)
    && (k.counted && n.Some? ==> BelowCounter(rows, n.value))
  }

  lemma FitsGrow(rows: seq<Row>, more: seq<Row>, n: Option<nat>, m: Option<nat>, k: Keep)
    requires Fits(rows, n, k) && Evolves(rows, more) && NativeFrom(more, |rows|)
    requires k.counted && m.Some? ==> BelowCounter(more, m.value)
    ensures Fits(more, m, k)
  {
    EvolvesTransitive(k.past, rows, more);
    EvolvesNative(rows, more, |k.past|);
  }

  // A database file that can be loaded and continues the past.
  predicate GoodIndex(c: Content, n: Option<nat>, k: Keep) {
    c.IndexText? && Load(c.text, k.u, k.objects).Some? && Fits(RowsIn(c), n, k)
  }

  function Approves(k: Keep): Judge {
    (c, n) => GoodIndex(c, n, k)
  }

  // If the save of the index is reported as done, it has been written whole, or
  // -- with serials not counted -- an index has been left that will do as well;
  // and what is left of the attributes does not contradict what is configured.
  predicate IndexSaved(env: Env, b: nat, k: Keep) {
    && (env(b).Works? && env(b).left.Some? ==> !k.counted && GoodIndex(env(b).left.value, None, k))
    && FlagKept(k.u, env(b + 1))
  }

  // A counter has been written whole, or what is left of it is no number.
  predicate CounterSaved(e: Event) {
    e.Works? && e.left.Some? ==> !e.left.value.Number?
  }

  // No save of the run was lost in a way that would do harm.
  predicate Noticed(run: Run, k: Keep) {
    && IndexSaved(run.env, UPDATE, k) && IndexSaved(run.env, ISSUE + 1, k) && IndexSaved(run.env, REVOKE + 1, k)
    && (k.counted ==> CounterSaved(run.env(ISSUE)))
  }

  predicate RunOk(run: Run, k: Keep) {
    run.unique == k.u && Proper(run) && RevokesProperly(run) && Noticed(run, k)
  }

  ghost predicate DiskOk(d: Disk, k: Keep) {
    Orderly(d, k.u, Approves(k))
  }

  predicate TableOk(t: Table, n: Option<nat>, k: Keep) {
    Sound(t, k.objects) && t.unique == k.u && Fits(t.rows, n, k)
  }

  ghost predicate SessionOk(s: Session, k: Keep) {
    && DiskOk(s.disk, k)
    && (s.running ==> Path(Index, Live) in s.disk && TableOk(s.table, LiveNumber(s.disk, Serial), k))
    && (k.counted ==> !s.serialClash)
  }

  // A table in order makes a file in order.
  lemma SavedIsGood(t: Table, n: Option<nat>, k: Keep)
    requires TableOk(t, n, k)
    ensures Approves(k)(IndexText(SaveText(t.rows)), n)
  {
    SavedLoads(t, k.objects, k.u);
    SavedReads(t.rows);
  }

  // What a save of it leaves is in order, too.
  lemma IndexFits(t: Table, n: Option<nat>, env: Env, b: nat, k: Keep)
    requires TableOk(t, n, k) && IndexSaved(env, b, k)
    ensures Approves(k)(Stored(IndexText(SaveText(t.rows)), env(b)), n)
  {
    SavedIsGood(t, n, k);
  }

  lemma ReplaceIndexOk(s: Session, d: Disk, env: Env, b: nat, k: Keep)
    requires DiskOk(d, k) && Path(Index, Live) in d && TableOk(s.table, LiveNumber(d, Serial), k)
    requires IndexSaved(env, b, k) && (k.counted ==> !s.serialClash)
    ensures SessionOk(After(s, ReplaceIndex(d, s.table.rows, s.table.unique, env, b)), k)
  {
    IndexFits(s.table, LiveNumber(d, Serial), env, b, k);
    ReplaceOrderly(d, s.table.rows, k.u, env, b, Approves(k));
    ReplaceLeaves(d, s.table.rows, k.u, env, b);
  }

  lemma ReplaceLeaves(d: Disk, rows: seq<Row>, u: bool, env: Env, b: nat)
    requires Path(Index, Live) in d
    ensures var r := ReplaceIndex(d, rows, u, env, b);
      LiveNumber(r.disk, Serial) == LiveNumber(d, Serial) && (r.status.Done? ==> Path(Index, Live) in r.disk)
  {
    ReplaceIndexLive(d, rows, u, env, b);
    ReplaceIndexKeeps(d, rows, u, env, b);
  }

  lemma BeginOk(d: Disk, run: Run, k: Keep)
    requires DiskOk(d, k) && run.unique == k.u
    ensures SessionOk(Begin(d, run, k.objects), k)
  {
    if LoadDisk(d, run.unique, k.objects).Some? {
      assert Flag(d, run.unique) == k.u;
      LoadIsSound(d[Path(Index, Live)].text, k.u, k.objects);
    }
  }

  lemma UpdateSectionOk(s: Session, run: Run, k: Keep)
    requires SessionOk(s, k) && Noticed(run, k)
    ensures SessionOk(UpdateSection(s, run), k)
  {
    if s.running && run.updatedb {
      var t := s.table.(rows := ExpireRows(s.table.rows, Seconds(run.now)));
      ExpiredTableOk(s.table, Seconds(run.now), LiveNumber(s.disk, Serial), k);
      SaveExpiredOk(s.(table := t), ExpiredCount(s.table.rows, Seconds(run.now)), run, k);
    }
  }

  lemma SaveExpiredOk(s: Session, count: int, run: Run, k: Keep)
    requires DiskOk(s.disk, k) && Path(Index, Live) in s.disk && TableOk(s.table, LiveNumber(s.disk, Serial), k)
    requires Noticed(run, k) && (k.counted ==> !s.serialClash)
    ensures SessionOk(SaveExpired(s, count, run), k)
  {
    if count != 0 { ReplaceIndexOk(s, s.disk, run.env, UPDATE, k); }
  }

  lemma ExpiredTableOk(t: Table, now: int, n: Option<nat>, k: Keep)
    requires TableOk(t, n, k)
    ensures TableOk(t.(rows := ExpireRows(t.rows, now)), n, k)
  {
    ExpireSound(t, now, k.objects);
    ExpireFits(t.rows, now, n, k);
  }

  lemma ExpireFits(rows: seq<Row>, now: int, n: Option<nat>, k: Keep)
    requires Fits(rows, n, k)
    ensures Fits(ExpireRows(rows, now), n, k)
  {
    ExpireEvolves(rows, now);
    if k.counted && n.Some? { EvolvesKeepsCounter(rows, ExpireRows(rows, now), n.value); }
    FitsGrow(rows, ExpireRows(rows, now), n, n, k);
  }

  lemma IssueSectionOk(s: Session, run: Run, k: Keep)
    requires SessionOk(s, k) && Proper(run) && Noticed(run, k)
    ensures SessionOk(IssueSection(s, run), k)
  {
    var n := LiveNumber(s.disk, Serial);
    if s.running && run.issue.Some? && n.Some? {
      var qs := run.issue.value.requests;
      var b := Batch(s.table, n.value, qs);
      BatchOk(s.table, n.value, qs, k);
      BatchRows(s.table, n.value, qs);
      if b.certs == [] { BatchNumbers(s.table, n.value, qs); }
      if b.ok && b.certs != [] && run.issue.value.commit {
        CommitOk(s.(table := b.table, serialClash := b.serialClash, certs := b.certs), b.serial, run, k);
      }
    }
  }

  lemma CommitOk(s: Session, serial: nat, run: Run, k: Keep)
    requires DiskOk(s.disk, k) && Path(Index, Live) in s.disk && LiveNumber(s.disk, Serial).Some?
    requires LiveNumber(s.disk, Serial).value <= serial && Noticed(run, k)
    requires TableOk(s.table, Some(serial), k) && (k.counted ==> !s.serialClash)
    ensures SessionOk(SaveIssued(s, serial, run), k)
  {
    var m := NumberOf(Stored(Number(serial), run.env(ISSUE)));
    if k.counted { SavedCounter(serial, run.env(ISSUE)); }
    assert TableOk(s.table, m, k);
    IndexFits(s.table, m, run.env, ISSUE + 1, k);
    RaisedCounter(s.disk[Path(Index, Live)], LiveNumber(s.disk, Serial).value, serial, m, k);
    CommitDiskOk(s.disk, s.table, serial, run.env, Named(run, s.certs), k.u, Approves(k));
    if SaveIssued(s, serial, run).running { CommitLeaves(s, serial, run); }
  }

  lemma SavedCounter(n: nat, e: Event)
    requires CounterSaved(e)
    ensures NumberOf(Stored(Number(n), e)) in {Some(n), None}
  {
  }

  lemma CommitDiskOk(d: Disk, t: Table, serial: nat, env: Env, named: bool, u: bool, good: Judge)
    requires Orderly(d, u, good) && Path(Index, Live) in d && Path(Serial, Live) in d
    requires t.unique == u && FlagKept(u, env(ISSUE + 2))
    requires var m := NumberOf(Stored(Number(serial), env(ISSUE)));
      && good(d[Path(Index, Live)], m) && good(d[Path(Index, Live)], None)
      && good(Stored(IndexText(SaveText(t.rows)), env(ISSUE + 1)), m)
    ensures Orderly(CommitFiles(d, t.rows, t.unique, serial, named, env, ISSUE).disk, u, good)
  {
    CommitOrderly(d, t.rows, u, serial, named, env, ISSUE, good);
  }

  lemma CommitLeaves(s: Session, serial: nat, run: Run)
    requires Path(Serial, Live) in s.disk && Path(Index, Live) in s.disk && SaveIssued(s, serial, run).running
    ensures var e := SaveIssued(s, serial, run);
      && Path(Index, Live) in e.disk && e.table == s.table
      && LiveNumber(e.disk, Serial) == NumberOf(Stored(Number(serial), run.env(ISSUE)))
  {
    CommitCounts(s.disk, s.table.rows, s.table.unique, serial, Named(run, s.certs), run.env, ISSUE);
  }

  lemma BatchOk(t: Table, n: nat, qs: seq<Request>, k: Keep)
    requires TableOk(t, Some(n), k) && forall i :: 0 <= i < |qs| ==> RequestOk(qs[i])
    ensures var b := Batch(t, n, qs);
      n <= b.serial && TableOk(b.table, Some(b.serial), k) && (k.counted ==> !b.serialClash)
  {
    BatchSound(t, n, qs, k.objects);
    BatchRows(t, n, qs);
    BatchNumbers(t, n, qs);
    BatchEvolves(t, n, qs);
    BatchNative(t, n, qs);
    if k.counted { BatchKeepsCounter(t, n, qs); }
    FitsGrow(t.rows, Batch(t, n, qs).table.rows, Some(n), Some(Batch(t, n, qs).serial), k);
  }

  lemma RaisedCounter(c: Content, n: nat, serial: nat, m: Option<nat>, k: Keep)
    requires Approves(k)(c, Some(n)) && n <= serial && (k.counted ==> m in {Some(serial), None})
    ensures Approves(k)(c, m) && Approves(k)(c, None)
  {
  }

  lemma CrlSectionOk(s: Session, run: Run, k: Keep)
    requires SessionOk(s, k)
    ensures SessionOk(CrlSection(s, run, k.objects), k)
  {
    CrlSectionKeeps(s, run, k.objects);
    NumberingOrderly(s.disk, CrlSection(s, run, k.objects).disk, k.u, Approves(k));
  }

  // Making a CRL touches nothing but the CRL number.
  lemma CrlSectionKeeps(s: Session, run: Run, objects: Objects)
    ensures var c := CrlSection(s, run, objects);
      && SameBut(s.disk, c.disk, {CrlNumber})
      && c.table == s.table && c.serialClash == s.serialClash && (c.running ==> s.running)
  {
    if s.running && run.gencrl.Some? {
      var number := if run.gencrl.value.numbered then LiveNumber(s.disk, CrlNumber) else None;
      CrlFilesKeep(s.disk, number, run.env);
    }
  }

  lemma CrlFilesKeep(d: Disk, number: Option<nat>, env: Env)
    requires number.Some? ==> number == LiveNumber(d, CrlNumber)
    ensures SameBut(d, CrlFiles(d, number, env).disk, {CrlNumber})
  {
    if number.Some? {
      var r := NumberFiles(d, number.value + 1, env, CRL + 1);
      NumberFilesLive(d, number.value + 1, env, CRL + 1);
      assert CrlFiles(d, number, env) == r;
      assert SameBut(d, r.disk, {CrlNumber});
    } else {
      assert CrlFiles(d, number, env).disk == d;
    }
  }

  // The certificate to be revoked, if it is new to the table, is not numbered
  // at or above the counter.
  predicate RevokesBelow(d: Disk, run: Run) {
    run.revoke.Some? && LiveNumber(d, Serial).Some? ==> run.revoke.value.cert.serial < LiveNumber(d, Serial).value
  }

  lemma RevokeSectionOk(s: Session, run: Run, k: Keep)
    requires SessionOk(s, k) && RunOk(run, k) && CleanObjects(k.objects)
    requires k.counted ==> RevokesBelow(s.disk, run)
    ensures SessionOk(RevokeSection(s, run, k.objects), k)
  {
    if s.running && run.revoke.Some? {
      var q := run.revoke.value;
      var text := RevocationStr(q.kind, q.arg, run.now, k.objects);
      var r := Revoke(s.table, q.cert, q.kind.RevValid?, text);
      if r.ok && run.env(REVOKE).Works? {
        RevokedTableOk(s.table, q, run, LiveNumber(s.disk, Serial), k);
        ReplaceIndexOk(s.(table := r.table), s.disk, run.env, REVOKE + 1, k);
      }
    }
  }

  lemma RevokedTableOk(t: Table, q: Revoking, run: Run, n: Option<nat>, k: Keep)
    requires TableOk(t, n, k) && Proper(run) && RevokesProperly(run) && run.revoke == Some(q) && CleanObjects(k.objects)
    requires k.counted && n.Some? ==> q.cert.serial < n.value
    requires Revoke(t, q.cert, q.kind.RevValid?, RevocationStr(q.kind, q.arg, run.now, k.objects)).ok
    ensures TableOk(Revoke(t, q.cert, q.kind.RevValid?, RevocationStr(q.kind, q.arg, run.now, k.objects)).table, n, k)
  {
    RevocationReloads(t, q.cert, q.kind, q.arg, run.now, k.objects);
    RevokeFits(t, q.cert, q.kind.RevValid?, RevocationStr(q.kind, q.arg, run.now, k.objects), n, k);
  }

  lemma RevokeFits(t: Table, c: Cert, addOnly: bool, text: Option<string>, n: Option<nat>, k: Keep)
    requires Consistent(t) && Fits(t.rows, n, k) && Revoke(t, c, addOnly, text).ok && OneLine(c.subject)
    requires k.counted && n.Some? ==> c.serial < n.value
    ensures Fits(Revoke(t, c, addOnly, text).table.rows, n, k)
    ensures Revoke(t, c, addOnly, text).table.unique == t.unique
  {
    RevokeEvolves(t, c, addOnly, text);
    RevokeNative(t, c, addOnly, text);
    if k.counted && n.Some? { RevokeKeepsCounter(t, c, addOnly, text, n.value); }
    FitsGrow(t.rows, Revoke(t, c, addOnly, text).table.rows, n, n, k);
  }
}
