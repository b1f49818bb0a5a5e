// What all runs together keep, wherever each of them fails or is stopped.
module History {
  import opened Text
  import opened Asn1Time
  import opened Revocation
  import opened Table
  import opened Lifecycle
  import opened Batches
  import opened Reload
  import opened Readers
  import opened Disk
  import opened CaRun
  import TxtDb

  // ------------------------------------------------------------ single runs

  // The session when a run comes to its revocation section.
  function BeforeRevoking(d: Disk, run: Run, objects: Objects): Session {
    CrlSection(BeforeCrl(d, run, objects), run, objects)
  }

  // And when it comes to its CRL section.
  function BeforeCrl(d: Disk, run: Run, objects: Objects): Session {
    IssueSection(UpdateSection(Begin(d, run, objects), run), run)
  }

  // The number does not go back.
  predicate Ahead(d: Disk, d': Disk, f: File) {
    LiveNumber(d', f).Some? ==> LiveNumber(d, f).Some? && LiveNumber(d, f).value <= LiveNumber(d', f).value
  }

  lemma SessionBeforeRevoking(d: Disk, run: Run, k: Keep)
    requires DiskOk(d, k) && run.unique == k.u && Proper(run) && Noticed(run, k)
    ensures SessionOk(BeforeRevoking(d, run, k.objects), k)
  {
    var s0 := Begin(d, run, k.objects);
    BeginOk(d, run, k);
    UpdateSectionOk(s0, run, k);
    IssueSectionOk(UpdateSection(s0, run), run, k);
    CrlSectionOk(BeforeCrl(d, run, k.objects), run, k);
  }

  lemma NumberBeforeRevoking(d: Disk, run: Run, objects: Objects)
    requires CounterSaved(run.env(ISSUE))
    ensures Ahead(d, BeforeRevoking(d, run, objects).disk, Serial)
  {
    var s0 := Begin(d, run, objects);
    var s2 := BeforeCrl(d, run, objects);
    assert s0.disk == d;
    UpdateKeeps(s0, run);
    IssueRaisesNumber(UpdateSection(s0, run), run);
    CrlSectionKeeps(s2, run, objects);
    assert LiveNumber(CrlSection(s2, run, objects).disk, Serial) == LiveNumber(s2.disk, Serial);
  }

  lemma UpdateKeeps(s: Session, run: Run)
    ensures LiveNumber(UpdateSection(s, run).disk, Serial) == LiveNumber(s.disk, Serial)
    ensures LiveNumber(UpdateSection(s, run).disk, CrlNumber) == LiveNumber(s.disk, CrlNumber)
  {
    ReplaceIndexKeeps(s.disk, ExpireRows(s.table.rows, Seconds(run.now)), s.table.unique, run.env, UPDATE);
  }

  lemma IssueRaisesNumber(s: Session, run: Run)
    requires CounterSaved(run.env(ISSUE))
    ensures Ahead(s.disk, IssueSection(s, run).disk, Serial)
  {
    var n := LiveNumber(s.disk, Serial);
    if s.running && run.issue.Some? && n.Some? {
      var b := Batch(s.table, n.value, run.issue.value.requests);
      BatchNumbers(s.table, n.value, run.issue.value.requests);
      CommitCounts(s.disk, b.table.rows, b.table.unique, b.serial, Named(run, b.certs), run.env, ISSUE);
      SavedCounter(b.serial, run.env(ISSUE));
      IssueFiles(s, run);
    }
  }

  lemma IssueKeeps(s: Session, run: Run)
    ensures LiveNumber(IssueSection(s, run).disk, CrlNumber) == LiveNumber(s.disk, CrlNumber)
  {
    var n := LiveNumber(s.disk, Serial);
    if s.running && run.issue.Some? && n.Some? {
      var b := Batch(s.table, n.value, run.issue.value.requests);
      CommitKeepsCrlNumber(
        s.disk, b.table.rows, b.table.unique, b.serial, Named(run, b.certs), run.env, ISSUE);
      IssueFiles(s, run);
    }
  }

  lemma IssueFiles(s: Session, run: Run)
    requires run.issue.Some? && LiveNumber(s.disk, Serial).Some?
    ensures var b := Batch(s.table, LiveNumber(s.disk, Serial).value, run.issue.value.requests);
      var io := CommitFiles(s.disk, b.table.rows, b.table.unique, b.serial, Named(run, b.certs), run.env, ISSUE);
      IssueSection(s, run).disk in {s.disk, io.disk}
  {
  }

  // One run keeps everything: the files in order, the past continued and, if
  // serials are counted, the counter ahead and no serial refused as issued.
  lemma RunKeeps(d: Disk, run: Run, k: Keep)
    requires DiskOk(d, k) && RunOk(run, k) && CleanObjects(k.objects)
    requires k.counted ==> RevokesBelow(d, run)
    ensures SessionOk(Execute(d, run, k.objects), k)
  {
    SessionBeforeRevoking(d, run, k);
    if k.counted { NumberBeforeRevoking(d, run, k.objects); }
    RevokeSectionOk(BeforeRevoking(d, run, k.objects), run, k);
  }

  // --------------------------------------------------------------- all runs

  // Runs with one configuration, none of which loses a save harmfully; if
  // serials are counted, none imports one at or above the counter it starts from.
  predicate Admissible(d: Disk, runs: seq<Run>, k: Keep) {
    if runs == [] then true
    else
      var init, last := runs[..|runs| - 1], runs[|runs| - 1];
      && Admissible(d, init, k) && RunOk(last, k)
      && (k.counted ==> RevokesBelow(ExecuteAll(d, init, k.objects), last))
  }

  lemma {:induction false} RunsKeep(d: Disk, runs: seq<Run>, k: Keep)
    requires DiskOk(d, k) && CleanObjects(k.objects) && Admissible(d, runs, k)
    ensures DiskOk(ExecuteAll(d, runs, k.objects), k)
  {
    if runs != [] {
      var init := runs[..|runs| - 1];
      RunsKeep(d, init, k);
      RunKeeps(ExecuteAll(d, init, k.objects), runs[|runs| - 1], k);
    }
  }

  // There is a database, live or set aside by a rotation that was cut short, and
  // it loads; the attribute files do not contradict what is configured.
  ghost predicate Loadable(d: Disk, u: bool, objects: Objects) {
    && Steady(d, u) && Standing(d).Some?
    && Standing(d).value.IndexText? && Load(Standing(d).value.text, u, objects).Some?
  }

  // Its rows.
  function RowsNow(d: Disk): seq<Row> {
    if Standing(d).Some? then RowsIn(Standing(d).value) else []
  }

  // A live database that is loadable is what the next run loads.
  lemma LoadableLoads(d: Disk, u: bool, objects: Objects)
    requires Loadable(d, u, objects) && Path(Index, Live) in d
    ensures LoadDisk(d, u, objects).Some? && LoadDisk(d, u, objects).value.rows == RowsNow(d)
    ensures LoadDisk(d, u, objects).value.unique == u && Sound(LoadDisk(d, u, objects).value, objects)
  {
    assert Flag(d, u) == u;
    LoadIsSound(d[Path(Index, Live)].text, u, objects);
  }

  // What is kept from the database of d on.
  function Since(d: Disk, u: bool, objects: Objects, counted: bool): Keep {
    Keep(u, objects, RowsNow(d), counted)
  }

  lemma LoadableIsOk(d: Disk, u: bool, objects: Objects, counted: bool)
    requires counted ==> CounterAhead(d)
    ensures Loadable(d, u, objects) <==> DiskOk(d, Since(d, u, objects, counted))
  {
  }

  lemma OkIsLoadable(d: Disk, k: Keep)
    requires DiskOk(d, k)
    ensures Loadable(d, k.u, k.objects) && Fits(RowsNow(d), LiveNumber(d, Serial), k)
  {
  }

  // Reload closure and row lifecycle: from a database the loader accepts,
  // whatever sequence of runs follows and wherever each is cut short, there is a
  // database the loader accepts. It continues the one at the start, row by row,
  // and what has been added are rows the programs wrote.
  lemma ReloadClosure(d: Disk, runs: seq<Run>, u: bool, objects: Objects)
    requires Loadable(d, u, objects) && CleanObjects(objects) && Admissible(d, runs, Since(d, u, objects, false))
    ensures var e := ExecuteAll(d, runs, objects);
      Loadable(e, u, objects) && Evolves(RowsNow(d), RowsNow(e)) && NativeFrom(RowsNow(e), |RowsNow(d)|)
  {
    LoadableIsOk(d, u, objects, false);
    RunsKeep(d, runs, Since(d, u, objects, false));
    OkIsLoadable(ExecuteAll(d, runs, objects), Since(d, u, objects, false));
  }

  // With unique subjects, no two valid rows of it share a name.
  lemma NamesStayUnique(d: Disk, runs: seq<Run>, objects: Objects)
    requires Loadable(d, true, objects) && CleanObjects(objects) && Admissible(d, runs, Since(d, true, objects, false))
    ensures NamesDistinct(RowsNow(ExecuteAll(d, runs, objects)))
  {
    ReloadClosure(d, runs, true, objects);
    var c := Standing(ExecuteAll(d, runs, objects)).value;
    LoadIsSound(c.text, true, objects);
    ConsistentIsDistinct(Load(c.text, true, objects).value);
  }

  // The database and the live counter, if it can be read, fit together.
  predicate CounterAhead(d: Disk) {
    LiveNumber(d, Serial).Some? ==> BelowCounter(RowsNow(d), LiveNumber(d, Serial).value)
  }

  // Cut the commits at any step, over any number of runs: every serial in the
  // database stays below the live counter, and no later run ever finds that a
  // serial it gives out has been issued already.
  lemma CounterStaysAhead(d: Disk, runs: seq<Run>, next: Run, u: bool, objects: Objects)
    requires Loadable(d, u, objects) && CounterAhead(d) && CleanObjects(objects)
    requires Admissible(d, runs + [next], Since(d, u, objects, true))
    ensures CounterAhead(ExecuteAll(d, runs, objects))
    ensures !Execute(ExecuteAll(d, runs, objects), next, objects).serialClash
  {
    var k := Since(d, u, objects, true);
    LoadableIsOk(d, u, objects, true);
    assert (runs + [next])[..|runs|] == runs;
    RunsKeep(d, runs, k);
    OkIsLoadable(ExecuteAll(d, runs, objects), k);
    RunKeeps(ExecuteAll(d, runs, objects), next, k);
  }

  // Certificates without a subject are never refused for their name: in no run,
  // at no place in its batch, if all rows at the start were written by the
  // programs. Such a request fails only when it is confirmed and cannot be signed.
  lemma EmptySubjectsPass(d: Disk, runs: seq<Run>, next: Run, i: nat, u: bool, objects: Objects)
    requires Loadable(d, u, objects) && CounterAhead(d) && NativeFrom(RowsNow(d), 0) && CleanObjects(objects)
    requires Admissible(d, runs + [next], Since(d, u, objects, true))
    requires next.issue.Some? && i < |next.issue.value.requests|
    requires next.issue.value.requests[i].Wellformed? && next.issue.value.requests[i].subject == ""
    requires var s := UpdateSection(Begin(ExecuteAll(d, runs, objects), next, objects), next);
      && s.running && LiveNumber(s.disk, Serial).Some?
      && Batch(s.table, LiveNumber(s.disk, Serial).value, next.issue.value.requests[..i]).ok
    ensures var s := UpdateSection(Begin(ExecuteAll(d, runs, objects), next, objects), next);
      var q := next.issue.value.requests[i];
      var b := Batch(s.table, LiveNumber(s.disk, Serial).value, next.issue.value.requests[..i]);
      && NameKey(Cert(b.serial, "", q.notAfter)) !in b.table.names
      && (Issue(b.table, b.serial, q).verdict.Failed? <==> q.confirmed && !q.signs)
  {
    var k, e := Since(d, u, objects, true), ExecuteAll(d, runs, objects);
    var s := UpdateSection(Begin(e, next, objects), next);
    LoadableIsOk(d, u, objects, true);
    assert (runs + [next])[..|runs|] == runs;
    RunsKeep(d, runs, k);
    BeginOk(e, next, k);
    UpdateSectionOk(Begin(e, next, objects), next, k);
    EvolvesNative(k.past, s.table.rows, 0);
    EmptySubjectInBatch(s.table, LiveNumber(s.disk, Serial).value, next.issue.value.requests, i);
  }

  lemma EmptySubjectInBatch(t: Table, serial: nat, qs: seq<Request>, i: nat)
    requires Consistent(t) && BelowCounter(t.rows, serial) && NativeFrom(t.rows, 0)
    requires i < |qs| && (forall j :: 0 <= j < |qs| ==> RequestOk(qs[j])) && qs[i].Wellformed? && qs[i].subject == ""
    ensures var b := Batch(t, serial, qs[..i]);
      && NameKey(Cert(b.serial, "", qs[i].notAfter)) !in b.table.names
      && (Issue(b.table, b.serial, qs[i]).verdict.Failed? <==> qs[i].confirmed && !qs[i].signs)
  {
    var b := Batch(t, serial, qs[..i]);
    BatchConsistent(t, serial, qs[..i]);
    BatchKeepsCounter(t, serial, qs[..i]);
    BatchNative(t, serial, qs[..i]);
    BatchEvolves(t, serial, qs[..i]);
    EvolvesNative(t.rows, b.table.rows, 0);
    NoSerialClash(b.table, b.serial);
    EmptySubjectNeverClashes(b.table, b.serial, qs[i].notAfter);
    IssueDecides(b.table, b.serial, qs[i]);
  }

  // CRL and responder agree on every serial number after any sequence of runs,
  // serials imported at or above the counter included, if the serials at the
  // start are spelled the way the programs do.
  lemma ReadersStayAgreed(d: Disk, runs: seq<Run>, u: bool, objects: Objects)
    requires Loadable(d, u, objects) && CleanObjects(objects) && Admissible(d, runs, Since(d, u, objects, false))
    requires forall i :: 0 <= i < |RowsNow(d)| ==> Addressable(RowsNow(d)[i].serial)
    requires Path(Index, Live) in ExecuteAll(d, runs, objects)
    ensures var t := LoadDisk(ExecuteAll(d, runs, objects), u, objects);
      && t.Some? && Consistent(t.value) && RowsOk(t.value.rows, objects)
      && RevokedAddressable(t.value.rows)
      && AgreeEverywhere(t.value, CrlEntries(t.value.rows, objects), objects)
  {
    var e := ExecuteAll(d, runs, objects);
    ReloadClosure(d, runs, u, objects);
    LoadableLoads(e, u, objects);
    AddressableStay(RowsNow(d), RowsNow(e));
    CrlAgreesWithOcsp(LoadDisk(e, u, objects).value, objects);
  }

  lemma AddressableStay(a: seq<Row>, b: seq<Row>)
    requires Evolves(a, b) && NativeFrom(b, |a|) && forall i :: 0 <= i < |a| ==> Addressable(a[i].serial)
    ensures RevokedAddressable(b)
  {
    forall i | 0 <= i < |b| ensures Addressable(b[i].serial) {
      if i < |a| { assert RowEvolves(a[i], b[i]); } else { assert Native(b[i]); }
    }
  }

  // The files an authority starts from: an empty database and a serial.
  function Fresh(n: nat): Disk {
    map[Path(Index, Live) := IndexText(""), Path(Serial, Live) := Number(n)]
  }

  // They meet what the statements about all runs ask for, whatever is configured.
  lemma FreshAuthority(n: nat, u: bool, objects: Objects)
    ensures Loadable(Fresh(n), u, objects) && CounterAhead(Fresh(n)) && RowsNow(Fresh(n)) == []
    ensures LoadDisk(Fresh(n), u, objects) == Some(Table([], u, map[], map[]))
  {
    assert TxtDb.ReadDb("") == Some([]);
    assert FromFields([]) == [];
    assert Path(Attr, Live) !in Fresh(n) && Path(Attr, New) !in Fresh(n) && Path(Attr, Old) !in Fresh(n);
  }

  // ------------------------------------------------ why it is done this way

  // Putting the index in place before the counter would not do: with the old
  // counter beside the new index, the next serial to be given out is taken.
  lemma IndexFirstWouldClash(t: Table, n: nat, qs: seq<Request>)
    requires Consistent(t) && Batch(t, n, qs).certs != []
    ensures !BelowCounter(Batch(t, n, qs).table.rows, n)
    ensures Key(SerialText(n)) in Batch(t, n, qs).table.serials
  {
    var b := Batch(t, n, qs);
    BatchNumbers(t, n, qs);
    BatchRows(t, n, qs);
    BatchConsistent(t, n, qs);
    var row := b.table.rows[|t.rows|];
    assert row == RowFor(b.certs[0]) && b.certs[0].serial == n;
    RowForIsAddressable(b.certs[0]);
  }

  // Nor may a foreign certificate with the next serial be imported: the next
  // request is then refused because its serial has been issued, unless its
  // name is refused first.
  lemma ForeignSerialClashes(t: Table, c: Cert, text: Option<string>, addOnly: bool, q: Request)
    requires Consistent(t) && c.serial >= 0 && Find(t, c.serial).None?
    requires Revoke(t, c, addOnly, text).ok && q.Wellformed?
    ensures var t' := Revoke(t, c, addOnly, text).table;
      var name := NameKey(Cert(c.serial, q.subject, q.notAfter));
      && Issue(t', c.serial, q).verdict.Failed?
      && (Issue(t', c.serial, q).serialClash <==> !(t'.unique && name in t'.names))
  {
    var t' := Revoke(t, c, addOnly, text).table;
    RevokeConsistent(t, c, addOnly, text);
    RevokeTouches(t, c, addOnly, text);
    assert t'.rows[|t.rows|].serial == SerialText(c.serial);
  }

  // ------------------------------------------------------ saves that are lost

  // The programs do not notice that a save was lost. The loader does not either:
  // an index cut short anywhere loads as if it were whole. It keeps what is to be
  // kept exactly when the cut hits no row of the past.
  lemma TornIndex(t: Table, n: Option<nat>, k: Keep, c: nat)
    requires TableOk(t, n, k) && c <= |SaveText(t.rows)|
    ensures Load(SaveText(t.rows)[..c], k.u, k.objects).Some?
    ensures Approves(k)(IndexText(SaveText(t.rows)[..c]), n) <==> |k.past| <= TxtDb.Whole(ToFields(t.rows), c)
  {
    TornLoads(t, k.objects, c);
    FrontFits(t.rows, TxtDb.Whole(ToFields(t.rows), c), n, k);
    LoadedText(SaveText(t.rows)[..c], n, k);
  }

  lemma LoadedText(text: string, n: Option<nat>, k: Keep)
    requires Load(text, k.u, k.objects).Some?
    ensures Approves(k)(IndexText(text), n) <==> Fits(Load(text, k.u, k.objects).value.rows, n, k)
  {
  }

  lemma FrontFits(rows: seq<Row>, m: nat, n: Option<nat>, k: Keep)
    requires Fits(rows, n, k) && m <= |rows|
    ensures Fits(rows[..m], n, k) <==> |k.past| <= m
  {
    if |k.past| <= m {
      forall i | 0 <= i < |k.past| ensures RowEvolves(k.past[i], rows[..m][i]) {
        assert RowEvolves(k.past[i], rows[i]);
      }
    }
  }

  // So a completed update or revocation whose index was torn at position c
  // leaves the files in order exactly when no row of the past was hit.
  lemma TornReplace(d: Disk, t: Table, env: Env, b: nat, k: Keep, c: nat)
    requires DiskOk(d, k) && Path(Index, Live) in d && TableOk(t, LiveNumber(d, Serial), k)
    requires c <= |SaveText(t.rows)| && env(b) == Works(Some(IndexText(SaveText(t.rows)[..c])))
    requires FlagKept(k.u, env(b + 1))
    requires ReplaceIndex(d, t.rows, k.u, env, b).status.Done?
    ensures DiskOk(ReplaceIndex(d, t.rows, k.u, env, b).disk, k) <==> |k.past| <= TxtDb.Whole(ToFields(t.rows), c)
  {
    TornIndex(t, LiveNumber(d, Serial), k, c);
    ReplaceExactly(d, t.rows, k.u, env, b, Approves(k));
  }

  // And so does a completed commit, whose new rows are not of the past.
  lemma TornCommit(d: Disk, t: Table, serial: nat, named: bool, env: Env, b: nat, k: Keep, c: nat)
    requires DiskOk(d, k) && Path(Index, Live) in d && Path(Serial, Live) in d
    requires TableOk(t, NumberOf(Stored(Number(serial), env(b))), k) && FlagKept(k.u, env(b + 2))
    requires c <= |SaveText(t.rows)| && env(b + 1) == Works(Some(IndexText(SaveText(t.rows)[..c])))
    requires CommitFiles(d, t.rows, k.u, serial, named, env, b).status.Done?
    ensures DiskOk(CommitFiles(d, t.rows, k.u, serial, named, env, b).disk, k) <==>
      |k.past| <= TxtDb.Whole(ToFields(t.rows), c)
  {
    TornIndex(t, NumberOf(Stored(Number(serial), env(b))), k, c);
    CommitExactly(d, t.rows, k.u, serial, named, env, b, Approves(k));
  }

  // A completed commit whose counter was torn leaves them in order exactly when
  // what is left is no number or one that is still ahead of all rows.
  lemma TornCounter(d: Disk, t: Table, serial: nat, named: bool, env: Env, b: nat, k: Keep)
    requires DiskOk(d, k) && Path(Index, Live) in d && Path(Serial, Live) in d
    requires TableOk(t, Some(serial), k) && k.counted && IndexSaved(env, b + 1, k)
    requires CommitFiles(d, t.rows, k.u, serial, named, env, b).status.Done?
    ensures var m := NumberOf(Stored(Number(serial), env(b)));
      DiskOk(CommitFiles(d, t.rows, k.u, serial, named, env, b).disk, k) <==> m.None? || BelowCounter(t.rows, m.value)
  {
    var m := NumberOf(Stored(Number(serial), env(b)));
    CommitExactly(d, t.rows, k.u, serial, named, env, b, Approves(k));
    SavedFits(t, m, k);
  }

  lemma SavedFits(t: Table, m: Option<nat>, k: Keep)
    requires Sound(t, k.objects) && t.unique == k.u && Fits(t.rows, None, k) && k.counted
    ensures Approves(k)(IndexText(SaveText(t.rows)), m) <==> m.None? || BelowCounter(t.rows, m.value)
  {
    SavedLoads(t, k.objects, k.u);
    SavedReads(t.rows);
  }

  // --------------------------------------------------------- issuing on disk

  // A batch that fails and a commit that is declined end the run with the files
  // as they were when the issuing section began; a batch without a certificate
  // makes the run what it would have been without the issuing section.
  lemma NothingIssued(d: Disk, run: Run, objects: Objects)
    requires run.issue.Some?
    requires var s := UpdateSection(Begin(d, run, objects), run);
      s.running && LiveNumber(s.disk, Serial).Some?
    ensures var s := UpdateSection(Begin(d, run, objects), run);
      var b := Batch(s.table, LiveNumber(s.disk, Serial).value, run.issue.value.requests);
      var declined := b.certs != [] && !run.issue.value.commit;
      && (!b.ok || declined ==> Execute(d, run, objects).disk == s.disk && !Execute(d, run, objects).running)
      && (b.ok && b.certs == [] ==> Execute(d, run, objects) == Execute(d, run.(issue := None), objects))
  {
    var s, without := UpdateSection(Begin(d, run, objects), run), run.(issue := None);
    var n, qs := LiveNumber(s.disk, Serial).value, run.issue.value.requests;
    EmptyBatch(s.table, n, qs);
    BeginClean(d, run, objects);
    UpdateClean(Begin(d, run, objects), run);
    var i := IssueSection(s, run);
    if Batch(s.table, n, qs).ok && Batch(s.table, n, qs).certs == [] {
      assert i == s;
      LaterIgnoreIssue(Begin(d, run, objects), s, run, objects);
    } else if !i.running {
      EndedRun(i, run, objects);
    }
  }

  lemma {:induction false} EmptyBatch(t: Table, n: nat, qs: seq<Request>)
    ensures var b := Batch(t, n, qs);
      b.certs == [] ==> b.table == t && (b.ok ==> !b.serialClash)
    decreases |qs|
  {
    if qs != [] {
      IssueAddsRow(t, n, qs[0]);
      if Issue(t, n, qs[0]).verdict.Skipped? { EmptyBatch(t, n, qs[1..]); }
    }
  }

  lemma BeginClean(d: Disk, run: Run, objects: Objects)
    ensures !Begin(d, run, objects).serialClash && Begin(d, run, objects).crl.None?
  {
  }

  lemma UpdateClean(s: Session, run: Run)
    ensures UpdateSection(s, run).serialClash == s.serialClash
  {
  }

  lemma EndedRun(s: Session, run: Run, objects: Objects)
    requires !s.running
    ensures RevokeSection(CrlSection(s, run, objects), run, objects) == s
  {
  }

  // No other section looks at the requests.
  lemma LaterIgnoreIssue(s: Session, t: Session, run: Run, objects: Objects)
    ensures var without := run.(issue := None);
      && UpdateSection(s, run) == UpdateSection(s, without) && IssueSection(t, without) == t
      && RevokeSection(CrlSection(t, run, objects), run, objects) ==
           RevokeSection(CrlSection(t, without, objects), without, objects)
  {
    var without, c := run.(issue := None), CrlSection(t, run, objects);
    assert c == CrlSection(t, without, objects);
    assert RevokeSection(c, run, objects) == RevokeSection(c, without, objects);
  }

  // A revocation that fails leaves the files as they are without it.
  lemma FailedRevocation(d: Disk, run: Run, objects: Objects)
    requires run.revoke.Some?
    requires var s, q := BeforeRevoking(d, run, objects), run.revoke.value;
      !Revoke(s.table, q.cert, q.kind.RevValid?, RevocationStr(q.kind, q.arg, run.now, objects)).ok
    ensures Execute(d, run, objects).disk == Execute(d, run.(revoke := None), objects).disk
    ensures !Execute(d, run, objects).running
  {
    var without := run.(revoke := None);
    var s0 := Begin(d, run, objects);
    var s1 := UpdateSection(s0, run);
    var s2 := IssueSection(s1, run);
    EarlierIgnoreRevoke(s0, run, objects);
    EarlierIgnoreRevoke(s1, run, objects);
    EarlierIgnoreRevoke(s2, run, objects);
    RevocationFails(CrlSection(s2, run, objects), run, objects);
    assert RevokeSection(CrlSection(s2, run, objects), without, objects) == CrlSection(s2, run, objects);
  }

  // No other section looks at the certificate to be revoked.
  lemma EarlierIgnoreRevoke(s: Session, run: Run, objects: Objects)
    ensures var without := run.(revoke := None);
      && UpdateSection(s, run) == UpdateSection(s, without)
      && IssueSection(s, run) == IssueSection(s, without)
      && CrlSection(s, run, objects) == CrlSection(s, without, objects)
  {
  }

  lemma RevocationFails(s: Session, run: Run, objects: Objects)
    requires run.revoke.Some?
    requires !Revoke(s.table, run.revoke.value.cert, run.revoke.value.kind.RevValid?,
      RevocationStr(run.revoke.value.kind, run.revoke.value.arg, run.now, objects)).ok
    ensures RevokeSection(s, run, objects).disk == s.disk && !RevokeSection(s, run, objects).running
  {
  }

  // A commit that completes leaves the counter one past the last certificate
  // and the table with exactly the new rows behind the old ones -- where the
  // saves were lost, what they left instead.
  lemma IssuedOnDisk(s: Session, run: Run, objects: Objects)
    requires s.running && run.issue.Some? && Proper(run) && Sound(s.table, objects)
    requires Path(Index, Live) in s.disk && LiveNumber(s.disk, Serial).Some?
    requires Batch(s.table, LiveNumber(s.disk, Serial).value, run.issue.value.requests).certs != []
    requires IssueSection(s, run).running
    ensures IssueSection(s, run).certs ==
      Numbered(Wanted(run.issue.value.requests), LiveNumber(s.disk, Serial).value)
    ensures var certs := IssueSection(s, run).certs;
      && Recorded(IssueSection(s, run).disk, s.table.rows, certs, LiveNumber(s.disk, Serial).value, run.env)
      && RowsIn(IndexText(SaveText(s.table.rows + RowsFor(certs)))) == s.table.rows + RowsFor(certs)
  {
    var n, qs := LiveNumber(s.disk, Serial).value, run.issue.value.requests;
    CommitIsLast(s, run);
    Committed(s.disk, s.table, n, qs, Named(run, Batch(s.table, n, qs).certs), run.env, objects);
  }

  // The live files say, as far as the saves went, that the certificates have
  // been added to the rows and numbered from n on.
  predicate Recorded(d: Disk, rows: seq<Row>, certs: seq<Cert>, n: nat, env: Env) {
    && LiveIs(d, Serial, Stored(Number(n + |certs|), env(ISSUE)))
    && LiveIs(d, Index, Stored(IndexText(SaveText(rows + RowsFor(certs))), env(ISSUE + 1)))
  }

  lemma Committed(d: Disk, t: Table, n: nat, qs: seq<Request>, named: bool, env: Env, objects: Objects)
    requires Sound(t, objects) && Batch(t, n, qs).ok && forall i :: 0 <= i < |qs| ==> RequestOk(qs[i])
    requires Path(Index, Live) in d && LiveNumber(d, Serial) == Some(n)
    ensures Batch(t, n, qs).certs == Numbered(Wanted(qs), n)
    ensures var rows := t.rows + RowsFor(Batch(t, n, qs).certs);
      RowsIn(IndexText(SaveText(rows))) == rows
    ensures var b := Batch(t, n, qs);
      var io := CommitFiles(d, b.table.rows, b.table.unique, b.serial, named, env, ISSUE);
      io.status.Done? ==> Recorded(io.disk, t.rows, b.certs, n, env)
  {
    BatchMeans(t, n, qs, objects);
    CommitRecords(d, t.rows, Batch(t, n, qs), n, named, env);
  }

  lemma CommitRecords(d: Disk, rows: seq<Row>, b: BatchResult, n: nat, named: bool, env: Env)
    requires Path(Index, Live) in d && Path(Serial, Live) in d
    requires b.table.rows == rows + RowsFor(b.certs) && b.serial == n + |b.certs|
    ensures var io := CommitFiles(d, b.table.rows, b.table.unique, b.serial, named, env, ISSUE);
      io.status.Done? ==> Recorded(io.disk, rows, b.certs, n, env)
  {
    CommitCounts(d, b.table.rows, b.table.unique, b.serial, named, env, ISSUE);
  }

  // A section that goes on after a batch with certificates has committed it.
  lemma CommitIsLast(s: Session, run: Run)
    requires s.running && run.issue.Some? && LiveNumber(s.disk, Serial).Some?
    requires Batch(s.table, LiveNumber(s.disk, Serial).value, run.issue.value.requests).certs != []
    requires IssueSection(s, run).running
    ensures var b := Batch(s.table, LiveNumber(s.disk, Serial).value, run.issue.value.requests);
      var io := CommitFiles(s.disk, b.table.rows, b.table.unique, b.serial, Named(run, b.certs), run.env, ISSUE);
      && b.ok && io.status.Done?
      && IssueSection(s, run).disk == io.disk && IssueSection(s, run).certs == b.certs
  {
  }

  lemma BatchMeans(t: Table, n: nat, qs: seq<Request>, objects: Objects)
    requires Sound(t, objects) && Batch(t, n, qs).ok
    requires forall i :: 0 <= i < |qs| ==> RequestOk(qs[i])
    ensures var b := Batch(t, n, qs);
      && b.table.unique == t.unique && b.certs == Numbered(Wanted(qs), n) && b.serial == n + |b.certs|
      && b.table.rows == t.rows + RowsFor(b.certs)
      && RowsIn(IndexText(SaveText(b.table.rows))) == b.table.rows
  {
    BatchCertifiesWanted(t, n, qs);
    BatchNumbers(t, n, qs);
    BatchRows(t, n, qs);
    BatchSound(t, n, qs, objects);
    SavedReads(Batch(t, n, qs).table.rows);
  }

  // A revocation from 2050 on that succeeds leaves a database nobody can load,
  // with or without unique subjects.
  lemma LateRevocationUnloadable(s: Session, run: Run, objects: Objects, unique: bool)
    requires s.running && run.revoke.Some? && Path(Index, Live) in s.disk
    requires Sound(s.table, objects) && CleanObjects(objects)
    requires OneLine(run.revoke.value.cert.subject) && AnyTime(run.revoke.value.cert.notAfter).Some?
    requires ValidTm(run.now) && 2050 <= run.now.year <= 9999 && !run.revoke.value.kind.RevValid?
    requires RevokeSection(s, run, objects).running && run.env(REVOKE + 1).left.None?
    ensures LoadDisk(RevokeSection(s, run, objects).disk, unique, objects).None?
  {
    var q := run.revoke.value;
    var r := Revoke(s.table, q.cert, false, RevocationStr(q.kind, q.arg, run.now, objects));
    LateRevocationFails(s.table, q.cert, q.kind, q.arg, run.now, objects);
    SavedReads(r.table.rows);
    SavedRevocation(s.(table := r.table), run);
    assert RevokeSection(s, run, objects) == SaveRevoked(s.(table := r.table), run);
  }

  lemma SavedRevocation(s: Session, run: Run)
    requires Path(Index, Live) in s.disk && SaveRevoked(s, run).running && run.env(REVOKE + 1).left.None?
    ensures LiveIs(SaveRevoked(s, run).disk, Index, IndexText(SaveText(s.table.rows)))
  {
    ReplaceIndexLive(s.disk, s.table.rows, s.table.unique, run.env, REVOKE + 1);
  }

  // The first second of 2050, for one.
  lemma LateTimeIsRefused(objects: Objects)
    ensures RevocationStr(RevNone, "", Tm(2050, 1, 1, 0, 0, 0), objects) == Some("20500101000000Z")
    ensures !Unpack("20500101000000Z", objects).ok
  {
    var now := Tm(2050, 1, 1, 0, 0, 0);
    assert Dec2(0) == "00" && Dec2(1) == "01" && Dec2(20) == "20" && Dec2(50) == "50";
    var rest := Dec2(1) + Dec2(1) + Dec2(0) + Dec2(0) + Dec2(0) + "Z";
    assert rest == "0101000000Z" && Format(now) == Dec2(20) + Dec2(50) + rest;
    assert Format(now) == "20500101000000Z";
    assert RevocationStr(RevNone, "", now, objects).value == Format(now) + "" + "" == Format(now);
    RoundTrip(RevNone, "", now, objects);
  }

  // ------------------------------------------------------------------- CRLs

  lemma {:induction false} ExpireKeepsRevoked(rows: seq<Row>, now: int)
    ensures RevokedRows(ExpireRows(rows, now)) == RevokedRows(rows)
  {
    if rows != [] {
      var p := rows[..|rows| - 1];
      ExpireKeepsRevoked(p, now);
      assert ExpireRows(rows, now)[..|rows| - 1] == ExpireRows(p, now);
    }
  }

  lemma {:induction false} IssueKeepsRevoked(rows: seq<Row>, more: seq<Row>)
    requires forall i :: 0 <= i < |more| ==> more[i].Type() != 'R'
    ensures RevokedRows(rows + more) == RevokedRows(rows)
    decreases |more|
  {
    if more == [] {
      assert rows + more == rows;
    } else {
      IssueKeepsRevoked(rows, more[..|more| - 1]);
      assert (rows + more)[..|rows + more| - 1] == rows + more[..|more| - 1];
    }
  }

  // The entries of a CRL depend on the revoked rows only.
  lemma EntriesOfRevoked(a: seq<Row>, b: seq<Row>, objects: Objects)
    requires RowsOk(a, objects) && RowsOk(b, objects) && RevokedRows(a) == RevokedRows(b)
    ensures CrlEntries(a, objects) == CrlEntries(b, objects)
  {
    forall i | 0 <= i < |RevokedRows(a)| ensures CrlEntries(a, objects)[i] == CrlEntries(b, objects)[i] {
      EntryAt(a, objects, i);
      EntryAt(b, objects, i);
    }
  }

  // The table when the CRL is made has the revoked rows of the database the run
  // started from: expiry and new certificates add none, and this run's own
  // revocation comes later.
  lemma CrlTable(d: Disk, run: Run, objects: Objects)
    ensures var s := BeforeCrl(d, run, objects);
      s.running ==>
        && LoadDisk(d, run.unique, objects).Some?
        && RevokedRows(s.table.rows) == RevokedRows(LoadDisk(d, run.unique, objects).value.rows)
        && LiveNumber(s.disk, CrlNumber) == LiveNumber(d, CrlNumber)
  {
    UpdateRevokes(Begin(d, run, objects), run);
    IssueRevokes(UpdateSection(Begin(d, run, objects), run), run);
    NumberBeforeCrl(d, run, objects);
  }

  lemma UpdateRevokes(s: Session, run: Run)
    ensures var e := UpdateSection(s, run);
      RevokedRows(e.table.rows) == RevokedRows(s.table.rows) && e.crl == s.crl && (e.running ==> s.running)
  {
    ExpireKeepsRevoked(s.table.rows, Seconds(run.now));
  }

  lemma IssueRevokes(s: Session, run: Run)
    ensures var e := IssueSection(s, run);
      RevokedRows(e.table.rows) == RevokedRows(s.table.rows) && e.crl == s.crl && (e.running ==> s.running)
  {
    var n := LiveNumber(s.disk, Serial);
    if run.issue.Some? && n.Some? {
      var b := Batch(s.table, n.value, run.issue.value.requests);
      BatchRows(s.table, n.value, run.issue.value.requests);
      assert forall i :: 0 <= i < |RowsFor(b.certs)| ==> RowsFor(b.certs)[i].Type() == 'V';
      IssueKeepsRevoked(s.table.rows, RowsFor(b.certs));
    }
  }

  // What a CRL says: exactly the rows that were revoked in the live database
  // when the run began, under the live CRL number; and version 2 exactly when
  // some reason, an extension section or a number is in it.
  lemma CrlContents(d: Disk, run: Run, objects: Objects)
    requires Execute(d, run, objects).crl.Some?
    ensures run.gencrl.Some? && LoadDisk(d, run.unique, objects).Some?
    ensures var rows, crl := LoadDisk(d, run.unique, objects).value.rows, Execute(d, run, objects).crl.value;
      && RowsOk(rows, objects)
      && crl.entries == CrlEntries(rows, objects)
      && crl.number == (if run.gencrl.value.numbered then LiveNumber(d, CrlNumber) else None)
      && (crl.number.Some? <==> run.gencrl.value.numbered)
      && (crl.v2 <==>
            || run.gencrl.value.extensions || crl.number.Some?
            || exists i :: 0 <= i < |crl.entries| && crl.entries[i].reason != -1)
  {
    var s2 := BeforeCrl(d, run, objects);
    CrlTable(d, run, objects);
    CrlOnlyInSection(d, run, objects);
    CrlMade(s2, run, objects);
    LoadIsSound(d[Path(Index, Live)].text, Flag(d, run.unique), objects);
    EntriesOfRevoked(s2.table.rows, LoadDisk(d, run.unique, objects).value.rows, objects);
  }

  lemma CrlMade(s: Session, run: Run, objects: Objects)
    requires s.crl.None? && CrlSection(s, run, objects).crl.Some?
    ensures s.running && run.gencrl.Some? && RowsOk(s.table.rows, objects)
    ensures var number := if run.gencrl.value.numbered then LiveNumber(s.disk, CrlNumber) else None;
      && (number.Some? <==> run.gencrl.value.numbered)
      && CrlSection(s, run, objects).crl == Some(CrlOf(s.table.rows, number, run.gencrl.value, objects))
  {
  }

  lemma CrlOnlyInSection(d: Disk, run: Run, objects: Objects)
    ensures BeforeCrl(d, run, objects).crl.None?
    ensures Execute(d, run, objects).crl == BeforeRevoking(d, run, objects).crl
  {
    BeginClean(d, run, objects);
    UpdateRevokes(Begin(d, run, objects), run);
    IssueRevokes(UpdateSection(Begin(d, run, objects), run), run);
    RevokeKeepsCrl(BeforeRevoking(d, run, objects), run, objects);
  }

  lemma RevokeKeepsCrl(s: Session, run: Run, objects: Objects)
    ensures RevokeSection(s, run, objects).crl == s.crl
    ensures RevokeSection(s, run, objects).running ==> s.running
  {
  }

  // What a save of the number after n leaves.
  function NextNumber(n: nat, env: Env): Option<nat> {
    NumberOf(Stored(Number(n + 1), env(CRL + 1)))
  }

  // The CRL number after a run is gone, unchanged, or the saved next one; it is
  // the next one when the numbered CRL section completed, and not unless the CRL
  // was issued.
  lemma CrlNumberMoves(d: Disk, run: Run, objects: Objects)
    ensures var n, r := LiveNumber(d, CrlNumber), Execute(d, run, objects);
      var n' := LiveNumber(r.disk, CrlNumber);
      && (n'.Some? ==> n.Some? && n' in {n, NextNumber(n.value, run.env)})
      && (BeforeRevoking(d, run, objects).running && run.gencrl.Some? && run.gencrl.value.numbered ==>
            n.Some? && n' == NextNumber(n.value, run.env))
      && (n'.Some? && n' != n ==> r.crl.Some? && r.crl.value.number == n)
  {
    var s3 := BeforeRevoking(d, run, objects);
    NumberBeforeCrl(d, run, objects);
    CrlSectionNumber(BeforeCrl(d, run, objects), run, objects);
    RevokeKeepsNumber(s3, run, objects);
    RevokeKeepsCrl(s3, run, objects);
    CrlOnlyInSection(d, run, objects);
  }

  lemma NumberBeforeCrl(d: Disk, run: Run, objects: Objects)
    ensures LiveNumber(BeforeCrl(d, run, objects).disk, CrlNumber) == LiveNumber(d, CrlNumber)
  {
    var s0 := Begin(d, run, objects);
    assert s0.disk == d;
    UpdateKeeps(s0, run);
    IssueKeeps(UpdateSection(s0, run), run);
  }

  lemma CrlSectionNumber(s: Session, run: Run, objects: Objects)
    ensures var n, c := LiveNumber(s.disk, CrlNumber), CrlSection(s, run, objects);
      var n' := LiveNumber(c.disk, CrlNumber);
      && (n'.Some? ==> n.Some? && n' in {n, NextNumber(n.value, run.env)})
      && (c.running && run.gencrl.Some? && run.gencrl.value.numbered ==> n.Some? && n' == NextNumber(n.value, run.env))
      && (n'.Some? && n' != n ==> c.crl.Some? && c.crl.value.number == n)
  {
    if s.running && run.gencrl.Some? {
      var n := if run.gencrl.value.numbered then LiveNumber(s.disk, CrlNumber) else None;
      CrlFilesNumber(s.disk, n, run.env);
      if n.Some? {
        assert CrlSection(s, run, objects).disk in {s.disk, CrlFiles(s.disk, n, run.env).disk};
      } else {
        assert CrlSection(s, run, objects).disk == s.disk;
      }
    }
  }

  lemma CrlFilesNumber(d: Disk, number: Option<nat>, env: Env)
    requires number.Some? ==> number == LiveNumber(d, CrlNumber)
    ensures var n, io := LiveNumber(d, CrlNumber), CrlFiles(d, number, env);
      var n' := LiveNumber(io.disk, CrlNumber);
      && (number.None? ==> io.disk == d)
      && (number.Some? && n'.Some? ==> n' in {n, NextNumber(n.value, env)})
      && (io.status.Done? && number.Some? ==> n' == NextNumber(n.value, env))
      && (n'.Some? && n' != n ==> env(CRL + 1).Works? && env(CRL + 2).Works?)
  {
    if number.Some? {
      if env(CRL + 1).Works? && env(CRL + 2).Works? {
        NumberBegun(d, number.value, env);
      } else {
        NumberNotBegun(d, number.value + 1, env, CRL + 1);
      }
    }
  }

  lemma NumberBegun(d: Disk, n: nat, env: Env)
    requires LiveNumber(d, CrlNumber) == Some(n)
    ensures var r := NumberFiles(d, n + 1, env, CRL + 1);
      && LiveNumber(r.disk, CrlNumber) in {None, Some(n), NextNumber(n, env)}
      && (r.status.Done? ==> LiveNumber(r.disk, CrlNumber) == NextNumber(n, env))
  {
    NumberFilesLive(d, n + 1, env, CRL + 1);
  }

  // Unless the number has been saved and the CRL written, nothing is rotated.
  lemma NumberNotBegun(d: Disk, next: nat, env: Env, b: nat)
    requires !(env(b).Works? && env(b + 1).Works?)
    ensures LiveNumber(NumberFiles(d, next, env, b).disk, CrlNumber) == LiveNumber(d, CrlNumber)
    ensures !NumberFiles(d, next, env, b).status.Done?
  {
  }

  lemma RevokeKeepsNumber(s: Session, run: Run, objects: Objects)
    ensures LiveNumber(RevokeSection(s, run, objects).disk, CrlNumber) == LiveNumber(s.disk, CrlNumber)
  {
    if s.running && run.revoke.Some? {
      var q := run.revoke.value;
      var r := Revoke(s.table, q.cert, q.kind.RevValid?, RevocationStr(q.kind, q.arg, run.now, objects));
      RevokeFiles(s.disk, r.table.rows, r.table.unique, run.env, REVOKE + 1);
    }
  }

  lemma RevokeFiles(d: Disk, rows: seq<Row>, unique: bool, env: Env, b: nat)
    ensures LiveNumber(ReplaceIndex(d, rows, unique, env, b).disk, CrlNumber) == LiveNumber(d, CrlNumber)
  {
    ReplaceIndexKeeps(d, rows, unique, env, b);
  }

  // No save of the CRL number left another number.
  predicate NumbersSaved(runs: seq<Run>) {
    forall i :: 0 <= i < |runs| ==> CounterSaved(runs[i].env(CRL + 1))
  }

  // Over all runs the CRL number never decreases.
  lemma {:induction false} CrlNumbersGrow(d: Disk, runs: seq<Run>, objects: Objects)
    requires NumbersSaved(runs)
    ensures Ahead(d, ExecuteAll(d, runs, objects), CrlNumber)
  {
    if runs != [] {
      var init, last := runs[..|runs| - 1], runs[|runs| - 1];
      var e := ExecuteAll(d, init, objects);
      CrlNumbersGrow(d, init, objects);
      CrlNumberMoves(e, last, objects);
      if LiveNumber(e, CrlNumber).Some? { SavedCounter(LiveNumber(e, CrlNumber).value + 1, last.env(CRL + 1)); }
    }
  }

  // What keeps a used number live once its CRL has been issued: the rotation does
  // not begin, or fails at the new file and is undone, or the save of the next
  // number has left the old one.
  predicate Stays(env: Env, n: Option<nat>) {
    n.Some? &&
    (|| !env(CRL + 3).Works?
     || (env(CRL + 4).Fails? && env(CRL + 5).Works?)
     || (env(CRL + 4).Works? && NextNumber(n.value, env) == n))
  }

  // A CRL has been issued: its number stays live, to be used once more, exactly
  // when that happens -- whatever else becomes of the run.
  lemma CrlNumberReused(d: Disk, run: Run, objects: Objects)
    requires run.gencrl.Some? && run.gencrl.value.numbered && Execute(d, run, objects).crl.Some?
    ensures var n, r := LiveNumber(d, CrlNumber), Execute(d, run, objects);
      && n.Some? && r.crl.value.number == n
      && (LiveNumber(r.disk, CrlNumber) == n <==> Stays(run.env, n))
  {
    var s := BeforeCrl(d, run, objects);
    CrlContents(d, run, objects);
    CrlOnlyInSection(d, run, objects);
    NumberBeforeCrl(d, run, objects);
    UsedNumber(s, run, objects);
    RevokeKeepsNumber(CrlSection(s, run, objects), run, objects);
  }

  // So two CRLs of different runs carry increasing numbers unless the number of
  // the first stayed live.
  lemma CompletedCrlIsSmaller(d: Disk, first: Run, between: seq<Run>, second: Run, objects: Objects)
    requires CounterSaved(first.env(CRL + 1)) && NumbersSaved(between)
    requires first.gencrl.Some? && first.gencrl.value.numbered && Execute(d, first, objects).crl.Some?
    requires !Stays(first.env, LiveNumber(d, CrlNumber))
    requires var e := ExecuteAll(Execute(d, first, objects).disk, between, objects);
      Execute(e, second, objects).crl.Some? && second.gencrl.Some? && second.gencrl.value.numbered
    ensures var e := ExecuteAll(Execute(d, first, objects).disk, between, objects);
      var a, b := Execute(d, first, objects).crl.value.number, Execute(e, second, objects).crl.value.number;
      a.Some? && b.Some? && a.value < b.value
  {
    var d1 := Execute(d, first, objects).disk;
    CrlNumberReused(d, first, objects);
    CrlNumberMoves(d, first, objects);
    SavedCounter(LiveNumber(d, CrlNumber).value + 1, first.env(CRL + 1));
    CrlNumbersGrow(d1, between, objects);
    CrlContents(ExecuteAll(d1, between, objects), second, objects);
  }

  lemma UsedNumber(s: Session, run: Run, objects: Objects)
    requires s.running && run.gencrl.Some? && run.gencrl.value.numbered
    requires s.crl.None? && CrlSection(s, run, objects).crl.Some?
    ensures var n := LiveNumber(s.disk, CrlNumber);
      n.Some? && (LiveNumber(CrlSection(s, run, objects).disk, CrlNumber) == n <==> Stays(run.env, n))
  {
    CrlMade(s, run, objects);
    var n := LiveNumber(s.disk, CrlNumber).value;
    NumberStays(s.disk, n, run.env);
    assert CrlSection(s, run, objects).disk == CrlFiles(s.disk, Some(n), run.env).disk;
  }

  lemma NumberStays(d: Disk, n: nat, env: Env)
    requires LiveNumber(d, CrlNumber) == Some(n) && env(CRL + 1).Works? && env(CRL + 2).Works?
    ensures LiveNumber(CrlFiles(d, Some(n), env).disk, CrlNumber) == Some(n) <==> Stays(env, Some(n))
  {
    var next := Stored(Number(n + 1), env(CRL + 1));
    var a := Save(d, Path(CrlNumber, New), Number(n + 1), env(CRL + 1)).disk;
    assert LiveIs(a, CrlNumber, d[Path(CrlNumber, Live)]) && NewIs(a, CrlNumber, next);
    RotateStays(a, CrlNumber, env, CRL + 3);
    assert CrlFiles(d, Some(n), env) == RotateOne(a, CrlNumber, env, CRL + 3);
  }

  // What a rotation makes of the live file, in terms of its calls.
  lemma RotateStays(d: Disk, f: File, env: Env, b: nat)
    requires Path(f, Live) in d && Path(f, New) in d
    ensures var e := RotateOne(d, f, env, b).disk;
      if !env(b).Works? || (env(b + 1).Fails? && env(b + 2).Works?) then LiveIs(e, f, d[Path(f, Live)])
      else if env(b + 1).Works? then LiveIs(e, f, d[Path(f, New)])
      else Path(f, Live) !in e
  {
  }
}
