// The attribute file beside the database, which says whether subjects must be
// unique: when a saved setting survives, and what follows when it does not.
module Settings {
  import opened Text
  import opened Asn1Time
  import opened Revocation
  import opened Table
  import opened Lifecycle
  import opened Reload
  import opened Disk
  import opened CaRun
  import opened Fates

  // The saved setting survives a complete replacement exactly when what the save
  // of the attributes left still says it, and an incomplete one exactly when it
  // is the configured one, or the attempt does not end between setting the old
  // attribute file aside and putting the new one, or the old one again, in place.
  lemma AttributeWindow(d: Disk, rows: seq<Row>, saved: bool, env: Env, b: nat, configured: bool)
    requires Path(Index, Live) in d && LiveIs(d, Attr, UniqueFlag(saved)) && rows != []
    ensures var io := ReplaceIndex(d, rows, saved, env, b);
      && (io.status.Done? <==> ReplaceWorks(env, b))
      && (Flag(io.disk, configured) == saved <==>
            if ReplaceWorks(env, b) then Setting(Stored(UniqueFlag(saved), env(b + 1)), configured) == saved
            else configured == saved || !(env(b).Works? && env(b + 1).Works? && Window(env, b + 2)))
  {
    SaveIndexKeeps(d, rows, saved, env, b);
    var s := SaveIndex(d, rows, saved, env, b);
    if s.status.Done? {
      AttributeLost(s.disk, env, b + 2);
      AttributeNew(s.disk, env, b + 2);
    }
  }

  // Which setting is used decides whether the database loads.
  lemma SettingDecides(e: Disk, rows: seq<Row>, configured: bool, objects: Objects)
    requires LiveIs(e, Index, IndexText(SaveText(rows))) && RowsWritable(rows)
    ensures LoadDisk(e, configured, objects).Some? <==>
      RowsOk(rows, objects) && SerialsDistinct(rows) && (Flag(e, configured) ==> NamesDistinct(rows))
  {
    SavedReads(rows);
  }

  // All calls work but one, at which the machine stops.
  function StopsAt(n: nat): Env {
    i => if i == n then Stops(None) else Works(None)
  }

  lemma StopInWindow(d: Disk, rows: seq<Row>, saved: bool, env: Env, b: nat)
    requires Path(Index, Live) in d && Path(Attr, Live) in d && rows != []
    requires env(b) == Works(None) && env(b + 1) == Works(None) && env(b + 2).Works? && env(b + 3).Works?
    requires env(b + 5).Works? && env(b + 8).Stops?
    ensures var e := ReplaceIndex(d, rows, saved, env, b).disk;
      && LiveIs(e, Index, IndexText(SaveText(rows))) && Path(Attr, Live) !in e
      && Path(Attr, Old) in e && e[Path(Attr, Old)] == d[Path(Attr, Live)]
  {
    SaveIndexKeeps(d, rows, saved, env, b);
    var s := SaveIndex(d, rows, saved, env, b);
    RotateOneLive(s.disk, Index, env, b + 2);
    RotateOneKeeps(s.disk, Index, env, b + 2);
    HalfStops(RotateOne(s.disk, Index, env, b + 2).disk, env, b + 5);
  }

  lemma HalfStops(d: Disk, env: Env, b: nat)
    requires Path(Attr, Live) in d && env(b).Works? && env(b + 3).Stops?
    ensures RotateAttr(d, env, b) == Io(Moved(d, Path(Attr, Live), Path(Attr, Old)), Stopped)
  {
  }

  // A run that does nothing but add a certificate.
  function Adding(c: Cert, configured: bool, now: Tm, env: Env): Run {
    Run(configured, now, false, None, None, Some(Revoking(c, RevValid, "")), env)
  }

  lemma AddingRun(d: Disk, c: Cert, configured: bool, now: Tm, env: Env, objects: Objects)
    requires LoadDisk(d, configured, objects).Some? && env(START).Works? && env(REVOKE).Works?
    requires var t := LoadDisk(d, configured, objects).value;
      Find(t, c.serial).None? && Key(RowFor(c).serial) !in t.serials && !(t.unique && NameKey(c) in t.names)
    ensures var t := LoadDisk(d, configured, objects).value;
      Execute(d, Adding(c, configured, now, env), objects).disk ==
        ReplaceIndex(d, t.rows + [RowFor(c)], t.unique, env, REVOKE + 1).disk
  {
    var run, t := Adding(c, configured, now, env), LoadDisk(d, configured, objects).value;
    var s := Session(d, t, true, [], false, None);
    assert Begin(d, run, objects) == s;
    assert CrlSection(IssueSection(UpdateSection(s, run), run), run, objects) == s;
    AddingSection(s, c, run, objects);
  }

  lemma AddingSection(s: Session, c: Cert, run: Run, objects: Objects)
    requires s.running && run.revoke == Some(Revoking(c, RevValid, "")) && run.env(REVOKE).Works?
    requires Find(s.table, c.serial).None? && Key(RowFor(c).serial) !in s.table.serials
    requires !(s.table.unique && NameKey(c) in s.table.names)
    ensures RevokeSection(s, run, objects).disk ==
      ReplaceIndex(s.disk, s.table.rows + [RowFor(c)], s.table.unique, run.env, REVOKE + 1).disk
  {
    var t := Insert(s.table, RowFor(c)).value;
    assert Revoke(s.table, c, true, RevocationStr(RevValid, "", run.now, objects)) == RevokeResult(true, t);
    assert RevokeSection(s, run, objects) == SaveRevoked(s.(table := t), run);
  }

  // Certificates of which a database can be made.
  predicate Listable(certs: seq<Cert>) {
    && (forall i :: 0 <= i < |certs| ==> OneLine(certs[i].subject) && AnyTime(certs[i].notAfter).Some?)
    && (forall i, j :: 0 <= i < j < |certs| ==> certs[i].serial != certs[j].serial)
  }

  lemma ListedRows(certs: seq<Cert>, objects: Objects)
    requires Listable(certs)
    ensures RowsOk(RowsFor(certs), objects) && RowsWritable(RowsFor(certs)) && SerialsDistinct(RowsFor(certs))
  {
    var rows := RowsFor(certs);
    forall i | 0 <= i < |rows| ensures RowOk(rows[i], objects) && RowWritable(rows[i]) {
      RowForLoads(certs[i], objects);
    }
    forall i, j | 0 <= i < j < |rows| ensures Key(rows[i].serial) != Key(rows[j].serial) {
      if Key(rows[i].serial) == Key(rows[j].serial) { SerialKeysDistinct(certs[i].serial, certs[j].serial); }
    }
  }

  // The rows of certificates have distinct names exactly when their names differ.
  predicate Namesakes(certs: seq<Cert>) {
    exists i, j :: 0 <= i < j < |certs| && NameKey(certs[i]) == NameKey(certs[j])
  }

  lemma NamesakeRows(certs: seq<Cert>)
    ensures NamesDistinct(RowsFor(certs)) <==> !Namesakes(certs)
  {
    var rows := RowsFor(certs);
    assert forall i :: 0 <= i < |certs| ==> rows[i].Type() == 'V' && rows[i].name == NameKey(certs[i]);
  }

  // A database made of certificates is loaded, and one more certificate with a
  // new number -- and, if need be, a new name -- can be added.
  lemma ListLoads(d: Disk, certs: seq<Cert>, configured: bool, objects: Objects)
    requires Listable(certs) && LiveIs(d, Index, IndexText(SaveText(RowsFor(certs))))
    requires Flag(d, configured) ==> !Namesakes(certs)
    ensures LoadDisk(d, configured, objects) == Open(RowsFor(certs), Flag(d, configured))
    ensures LoadDisk(d, configured, objects).Some?
  {
    ListedRows(certs, objects);
    SavedReads(RowsFor(certs));
    ListOpens(certs, Flag(d, configured), objects);
  }

  lemma ListOpens(certs: seq<Cert>, unique: bool, objects: Objects)
    requires Listable(certs) && (unique ==> !Namesakes(certs))
    ensures Open(RowsFor(certs), unique).Some?
  {
    ListedRows(certs, objects);
    NamesakeRows(certs);
  }

  lemma CanBeAdded(certs: seq<Cert>, c: Cert, unique: bool)
    requires Listable(certs + [c]) && (unique ==> !Namesakes(certs + [c]))
    requires Open(RowsFor(certs), unique).Some?
    ensures var t := Open(RowsFor(certs), unique).value;
      && Find(t, c.serial).None? && Key(RowFor(c).serial) !in t.serials && !(t.unique && NameKey(c) in t.names)
  {
    var t := Open(RowsFor(certs), unique).value;
    OpenConsistent(RowsFor(certs), unique);
    if Key(RowFor(c).serial) in t.serials {
      NewcomerDiffers(certs, c, t.serials[Key(RowFor(c).serial)], unique);
    }
    if unique && NameKey(c) in t.names {
      NewcomerDiffers(certs, c, t.names[NameKey(c)], unique);
    }
  }

  lemma NewcomerDiffers(certs: seq<Cert>, c: Cert, i: nat, unique: bool)
    requires Listable(certs + [c]) && (unique ==> !Namesakes(certs + [c])) && i < |certs|
    ensures Key(RowFor(certs[i]).serial) != Key(RowFor(c).serial)
    ensures unique ==> RowFor(certs[i]).name != NameKey(c)
  {
    var all := certs + [c];
    assert all[i] == certs[i] && all[|certs|] == c;
    if Key(RowFor(certs[i]).serial) == Key(RowFor(c).serial) { SerialKeysDistinct(certs[i].serial, c.serial); }
  }

  lemma AddedToList(d: Disk, certs: seq<Cert>, c: Cert, configured: bool, now: Tm, env: Env, objects: Objects)
    requires Listable(certs + [c]) && LiveIs(d, Index, IndexText(SaveText(RowsFor(certs))))
    requires Flag(d, configured) ==> !Namesakes(certs + [c])
    requires env(START).Works? && env(REVOKE).Works?
    ensures LoadDisk(d, configured, objects).Some?
    ensures Execute(d, Adding(c, configured, now, env), objects).disk ==
      ReplaceIndex(d, RowsFor(certs + [c]), Flag(d, configured), env, REVOKE + 1).disk
  {
    assert forall i :: 0 <= i < |certs| ==> (certs + [c])[i] == certs[i];
    ListLoads(d, certs, configured, objects);
    CanBeAdded(certs, c, Flag(d, configured));
    AddingRun(d, c, configured, now, env, objects);
    OneMoreRow(certs, c);
  }

  lemma {:induction false} OneMoreRow(certs: seq<Cert>, c: Cert)
    ensures RowsFor(certs + [c]) == RowsFor(certs) + [RowFor(c)]
  {
    if certs != [] {
      OneMoreRow(certs[1..], c);
      assert (certs + [c])[1..] == certs[1..] + [c];
    } else {
      assert [] + [c] == [c];
    }
  }

  // That is why the attribute files must not contradict what is configured. If
  // unique subjects are configured but were not saved, a run that stops in the
  // window leaves a database that no longer loads exactly when two certificates
  // in it have one name.
  lemma UniqueConfiguredOnly(d: Disk, certs: seq<Cert>, c: Cert, now: Tm, objects: Objects)
    requires Listable(certs + [c]) && LiveIs(d, Attr, UniqueFlag(false))
    requires LiveIs(d, Index, IndexText(SaveText(RowsFor(certs))))
    ensures var e := Execute(d, Adding(c, true, now, StopsAt(REVOKE + 9)), objects).disk;
      && LoadDisk(d, true, objects).Some?
      && (LoadDisk(e, true, objects).None? <==> Namesakes(certs + [c]))
  {
    var rows, env := RowsFor(certs + [c]), StopsAt(REVOKE + 9);
    AddedToList(d, certs, c, true, now, env, objects);
    StopInWindow(d, rows, false, env, REVOKE + 1);
    ListedRows(certs + [c], objects);
    NamesakeRows(certs + [c]);
    SettingDecides(ReplaceIndex(d, rows, false, env, REVOKE + 1).disk, rows, true, objects);
  }

  // The renames of both files fail in the second half, and so does putting the
  // index back.
  function FailsFrom(n: nat): Env {
    i => if i == n || i == n + 2 || i == n + 3 then Fails(None) else Works(None)
  }

  // ... and if they were saved but are not configured, the stop makes the next
  // run go by the configuration; and when in that run the new attribute file
  // cannot be put in place, nor the index put back, the saved setting returns
  // beside its rows.
  lemma UniqueSavedOnly(d: Disk, certs: seq<Cert>, b: Cert, c: Cert, now: Tm, objects: Objects)
    requires Listable(certs + [b] + [c]) && !Namesakes(certs + [b]) && LiveIs(d, Attr, UniqueFlag(true))
    requires LiveIs(d, Index, IndexText(SaveText(RowsFor(certs))))
    ensures var e := Execute(d, Adding(b, false, now, StopsAt(REVOKE + 9)), objects).disk;
      var f := Execute(e, Adding(c, false, now, FailsFrom(REVOKE + 9)), objects).disk;
      && LoadDisk(d, false, objects).Some? && LoadDisk(e, false, objects).Some?
      && (LoadDisk(f, false, objects).None? <==> Namesakes(certs + [b] + [c]))
  {
    var two, three := certs + [b], certs + [b] + [c];
    assert forall i :: 0 <= i < |two| ==> three[i] == two[i];
    AddedToList(d, certs, b, false, now, StopsAt(REVOKE + 9), objects);
    StopInWindow(d, RowsFor(two), true, StopsAt(REVOKE + 9), REVOKE + 1);
    var e := Execute(d, Adding(b, false, now, StopsAt(REVOKE + 9)), objects).disk;
    AddedToList(e, two, c, false, now, FailsFrom(REVOKE + 9), objects);
    OldFlagReturns(e, RowsFor(three), REVOKE + 1);
    ListedRows(three, objects);
    NamesakeRows(three);
    SettingDecides(
      Execute(e, Adding(c, false, now, FailsFrom(REVOKE + 9)), objects).disk, RowsFor(three), false, objects);
  }

  // Concrete certificates for both.
  function Three(exp: string): seq<Cert> {
    [Cert(1, "/CN=a", exp)] + [Cert(2, "/CN=b", exp)] + [Cert(3, "/CN=a", exp)]
  }

  lemma TwoOfOneName()
    ensures var certs := Three(Format(Tm(2030, 1, 1, 0, 0, 0)));
      Listable(certs) && !Namesakes(certs[..2]) && Namesakes(certs)
  {
    ClockIsUtc(Tm(2030, 1, 1, 0, 0, 0));
    TwoOfThree(Format(Tm(2030, 1, 1, 0, 0, 0)));
  }

  lemma TwoOfThree(exp: string)
    requires AnyTime(exp).Some?
    ensures Listable(Three(exp)) && !Namesakes(Three(exp)[..2]) && Namesakes(Three(exp))
  {
    var certs := Three(exp);
    assert certs[0].subject == "/CN=a" && certs[1].subject == "/CN=b" && certs[2].subject == "/CN=a";
    forall i | 0 <= i < |certs|
      ensures certs[i].serial == i + 1 && OneLine(certs[i].subject) && certs[i].notAfter == exp
    {
    }
    assert NameKey(certs[0]) == "/CN=a" == NameKey(certs[2]);
    TwoNames(certs[..2]);
  }

  lemma TwoNames(certs: seq<Cert>)
    requires |certs| == 2 && certs[0].subject == "/CN=a" && certs[1].subject == "/CN=b"
    ensures !Namesakes(certs)
  {
    assert NameKey(certs[0])[4] == 'a' && NameKey(certs[1])[4] == 'b';
  }

  lemma OldFlagReturns(d: Disk, rows: seq<Row>, b: nat)
    requires Path(Index, Live) in d && Path(Attr, Live) !in d && rows != []
    requires Path(Attr, Old) in d && d[Path(Attr, Old)] == UniqueFlag(true)
    ensures var e := ReplaceIndex(d, rows, false, FailsFrom(b + 8), b).disk;
      LiveIs(e, Index, IndexText(SaveText(rows))) && LiveIs(e, Attr, UniqueFlag(true))
  {
    var env := FailsFrom(b + 8);
    SaveIndexKeeps(d, rows, false, env, b);
    var s := SaveIndex(d, rows, false, env, b);
    RotateOneLive(s.disk, Index, env, b + 2);
    RotateOneKeeps(s.disk, Index, env, b + 2);
    HalfFails(RotateOne(s.disk, Index, env, b + 2).disk, env, b + 5);
  }

  lemma HalfFails(d: Disk, env: Env, b: nat)
    requires Path(Attr, Live) !in d && Path(Attr, Old) in d && env(b).Works? && env(b + 3).Fails? && env(b + 4).Works?
    requires env(b + 5).Fails? && env(b + 6).Fails?
    ensures RotateAttr(d, env, b) == Io(Moved(d, Path(Attr, Old), Path(Attr, Live)), Error)
  {
  }
}
