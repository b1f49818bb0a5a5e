// Reload closure: every table the programs save can be loaded again.
module Reload {
  import opened Text
  import opened Asn1Time
  import opened Revocation
  import opened Table
  import opened Lifecycle
  import TxtDb

  function ToFields(rows: seq<Row>): (f: seq<TxtDb.Fields>)
    ensures |f| == |rows| && forall i :: 0 <= i < |rows| ==> f[i] == rows[i].Fields()
  {
    seq(|rows|, i requires 0 <= i < |rows| => rows[i].Fields())
  }

  function RowOf(f: TxtDb.Fields): Row { Row(f[0], f[1], f[2], f[3], f[4], f[5]) }

  function FromFields(f: seq<TxtDb.Fields>): (rows: seq<Row>)
    ensures |rows| == |f| && forall i :: 0 <= i < |f| ==> rows[i] == RowOf(f[i])
  {
    seq(|f|, i requires 0 <= i < |f| => RowOf(f[i]))
  }

  function SaveText(rows: seq<Row>): string { TxtDb.WriteDb(ToFields(rows)) }

  // Reading the file, checking its rows and building the indexes.
  function Load(text: string, unique: bool, objects: Objects): Option<Table> {
    match TxtDb.ReadDb(text)
    case None => None
    case Some(f) =>
      if RowsOk(FromFields(f), objects) then Open(FromFields(f), unique) else None
  }

  predicate RowWritable(r: Row) { TxtDb.Writable(r.Fields()) }

  predicate RowsWritable(rows: seq<Row>) { forall i :: 0 <= i < |rows| ==> RowWritable(rows[i]) }

  // A table in memory that was loaded, or changed by the programs since.
  predicate Sound(t: Table, objects: Objects) {
    Consistent(t) && RowsOk(t.rows, objects) && RowsWritable(t.rows)
  }

  lemma LoadIsSound(text: string, unique: bool, objects: Objects)
    requires Load(text, unique, objects).Some?
    ensures Sound(Load(text, unique, objects).value, objects)
    ensures Load(text, unique, objects).value.unique == unique
  {
    var f := TxtDb.ReadDb(text).value;
    OpenConsistent(FromFields(f), unique);
    TxtDb.LoadedIsWritable(text);
    LoadedRowsWritable(f);
  }

  lemma LoadedRowsWritable(f: seq<TxtDb.Fields>)
    requires forall r :: r in f ==> TxtDb.Writable(r)
    ensures RowsWritable(FromFields(f))
  {
    forall i | 0 <= i < |f| ensures RowWritable(FromFields(f)[i]) {
      assert TxtDb.Writable(f[i]);
      assert RowOf(f[i]).Fields() == f[i];
    }
  }

  lemma FieldsRoundTrip(rows: seq<Row>)
    ensures FromFields(ToFields(rows)) == rows
  {
  }

  // Saving a sound table gives a file that loads, with the same rows.
  lemma SavedLoads(t: Table, objects: Objects, unique: bool)
    requires Sound(t, objects) && (unique ==> t.unique || NamesDistinct(t.rows))
    ensures Load(SaveText(t.rows), unique, objects).Some?
    ensures Load(SaveText(t.rows), unique, objects).value.rows == t.rows
  {
    SavedReads(t.rows);
    ConsistentIsDistinct(t);
  }

  lemma SavedReads(rows: seq<Row>)
    requires RowsWritable(rows)
    ensures TxtDb.ReadDb(SaveText(rows)).Some? && FromFields(TxtDb.ReadDb(SaveText(rows)).value) == rows
  {
    var f := ToFields(rows);
    forall r | r in f ensures TxtDb.Writable(r) {
      var i :| 0 <= i < |f| && f[i] == r;
      assert RowWritable(rows[i]);
    }
    TxtDb.DbRoundTrip(f);
    FieldsRoundTrip(rows);
  }

  // A saved database that is cut short loads, without the rows cut off.
  lemma TornLoads(t: Table, objects: Objects, c: nat)
    requires Sound(t, objects) && c <= |SaveText(t.rows)|
    ensures var torn, rows := SaveText(t.rows)[..c], t.rows[..TxtDb.Whole(ToFields(t.rows), c)];
      && TxtDb.ReadDb(torn).Some? && FromFields(TxtDb.ReadDb(torn).value) == rows
      && Load(torn, t.unique, objects).Some? && Load(torn, t.unique, objects).value.rows == rows
  {
    TornRows(t.rows, c);
    ConsistentIsDistinct(t);
    PrefixOpens(t.rows, TxtDb.Whole(ToFields(t.rows), c), t.unique, objects);
  }

  lemma TornRows(rows: seq<Row>, c: nat)
    requires RowsWritable(rows) && c <= |SaveText(rows)|
    ensures TxtDb.ReadDb(SaveText(rows)[..c]).Some?
    ensures FromFields(TxtDb.ReadDb(SaveText(rows)[..c]).value) == rows[..TxtDb.Whole(ToFields(rows), c)]
  {
    var f := ToFields(rows);
    forall i | 0 <= i < |f| ensures TxtDb.Writable(f[i]) { assert RowWritable(rows[i]); }
    TxtDb.TornReads(f, c);
    FrontRows(rows, TxtDb.Whole(f, c));
  }

  lemma FrontRows(rows: seq<Row>, n: nat)
    requires n <= |rows|
    ensures FromFields(ToFields(rows)[..n]) == rows[..n]
  {
  }

  lemma PrefixOpens(rows: seq<Row>, n: nat, unique: bool, objects: Objects)
    requires n <= |rows| && RowsOk(rows, objects) && SerialsDistinct(rows) && (unique ==> NamesDistinct(rows))
    ensures RowsOk(rows[..n], objects) && SerialsDistinct(rows[..n]) && (unique ==> NamesDistinct(rows[..n]))
  {
    assert forall i :: 0 <= i < n ==> rows[..n][i] == rows[i];
  }

  predicate CleanText(s: string) { '\n' !in s && !TxtDb.EndsInBackslash(s) }

  // Texts that name object identifiers hold no line end and no final backslash.
  ghost predicate CleanObjects(objects: Objects) {
    forall s :: objects(s).Some? ==> CleanText(s)
  }

  lemma TimesAreClean(s: string)
    requires AnyTime(s).Some?
    ensures CleanText(s)
  {
    TimeTextChars(s, if UtcOk(s) then Utc else Generalized);
  }

  lemma SerialsAreClean(n: int)
    ensures CleanText(SerialText(n))
  {
    SerialTextReadsBack(n);
  }

  // A certificate whose row passes the loader's checks: exactly one whose
  // expiry is a proper time.
  lemma RowForLoads(c: Cert, objects: Objects)
    requires OneLine(c.subject)
    ensures RowOk(RowFor(c), objects) <==> AnyTime(c.notAfter).Some?
    ensures AnyTime(c.notAfter).Some? ==> RowWritable(RowFor(c))
  {
    SerialTextReadsBack(c.serial);
    SerialsAreClean(c.serial);
    if AnyTime(c.notAfter).Some? {
      TimesAreClean(c.notAfter);
      WritableFields(RowFor(c));
    }
  }

  lemma WritableFields(r: Row)
    requires CleanText(r.kind) && CleanText(r.exp) && CleanText(r.rev) && CleanText(r.serial) && CleanText(r.file)
    requires '\n' !in r.name && r.kind != "" && r.kind[0] != '#'
    ensures RowWritable(r)
  {
    var f := r.Fields();
    assert f[0] == r.kind && f[1] == r.exp && f[2] == r.rev && f[3] == r.serial && f[4] == r.file && f[5] == r.name;
  }

  lemma FieldsOfWritable(r: Row)
    requires RowWritable(r)
    ensures CleanText(r.kind) && CleanText(r.exp) && CleanText(r.rev) && CleanText(r.serial) && CleanText(r.file)
    ensures '\n' !in r.name && !(r.kind != "" && r.kind[0] == '#')
  {
    var f := r.Fields();
    assert f[0] == r.kind && f[1] == r.exp && f[2] == r.rev && f[3] == r.serial && f[4] == r.file && f[5] == r.name;
  }

  // Issuing well-formed certificates keeps the table loadable.
  predicate RequestOk(q: Request) {
    q.Wellformed? ==> OneLine(q.subject) && AnyTime(q.notAfter).Some?
  }

  lemma IssueSound(t: Table, serial: nat, q: Request, objects: Objects)
    requires Sound(t, objects) && RequestOk(q)
    ensures Sound(Issue(t, serial, q).table, objects)
  {
    IssueConsistent(t, serial, q);
    IssueAddsRow(t, serial, q);
    if Issue(t, serial, q).verdict.Certified? {
      RowForLoads(Cert(serial, q.subject, q.notAfter), objects);
      SoundExcept(t, Issue(t, serial, q).table, |t.rows|, objects);
    }
  }

  lemma {:induction false} BatchSound(t: Table, serial: nat, qs: seq<Request>, objects: Objects)
    requires Sound(t, objects) && forall i :: 0 <= i < |qs| ==> RequestOk(qs[i])
    ensures Sound(Batch(t, serial, qs).table, objects)
    decreases |qs|
  {
    if qs != [] {
      IssueSound(t, serial, qs[0], objects);
      var one := Issue(t, serial, qs[0]);
      if !one.verdict.Failed? {
        BatchSound(one.table, if one.verdict.Certified? then serial + 1 else serial, qs[1..], objects);
      }
    }
  }

  lemma {:induction false} BatchNative(t: Table, serial: nat, qs: seq<Request>)
    requires forall i :: 0 <= i < |qs| ==> RequestOk(qs[i])
    ensures |t.rows| <= |Batch(t, serial, qs).table.rows| && NativeFrom(Batch(t, serial, qs).table.rows, |t.rows|)
    decreases |qs|
  {
    if qs != [] {
      var one := Issue(t, serial, qs[0]);
      IssueAddsRow(t, serial, qs[0]);
      if !one.verdict.Failed? {
        var next := if one.verdict.Certified? then serial + 1 else serial;
        var rows := Batch(one.table, next, qs[1..]).table.rows;
        BatchNative(one.table, next, qs[1..]);
        BatchEvolves(one.table, next, qs[1..]);
        if one.verdict.Certified? {
          RowForIsNative(Cert(serial, qs[0].subject, qs[0].notAfter));
          assert NativeFrom(one.table.rows, |t.rows|);
        }
        EvolvesNative(one.table.rows, rows, |t.rows|);
      }
    }
  }

  lemma ExpireSound(t: Table, now: int, objects: Objects)
    requires Sound(t, objects)
    ensures Sound(t.(rows := ExpireRows(t.rows, now)), objects)
  {
    ExpireConsistent(t, now);
    var e := ExpireRows(t.rows, now);
    forall i | 0 <= i < |e| ensures RowOk(e[i], objects) && RowWritable(e[i]) {
      assert RowOk(t.rows[i], objects) && RowWritable(t.rows[i]);
      if e[i] != t.rows[i] {
        FieldsOfWritable(t.rows[i]);
        WritableFields(e[i]);
      }
    }
  }

  lemma RevocationTextClean(k: RevType, arg: string, now: Tm, objects: Objects)
    requires ValidTm(now) && 1950 <= now.year <= 9999 && CleanObjects(objects)
    requires RevocationStr(k, arg, now, objects).Some?
    ensures CleanText(RevocationStr(k, arg, now, objects).value)
  {
    var p := Parts(k, arg, objects).value;
    ClockIsClean(now);
    if p.0.Some? { ReasonPartClean(k, arg, objects); }
    if p.1.Some? { ExtraPartClean(k, arg, objects); }
    JoinClean(Format(now), p.0, p.1);
  }

  lemma ClockIsClean(now: Tm)
    requires ValidTm(now) && 1950 <= now.year <= 9999
    ensures CleanText(Format(now))
  {
    if now.year < 2050 {
      ClockIsUtc(now);
      TimeTextChars(Format(now), Utc);
    } else {
      ClockIsGeneralized(now);
      TimeTextChars(Format(now), Generalized);
    }
  }

  lemma ReasonPartClean(k: RevType, arg: string, objects: Objects)
    requires Parts(k, arg, objects).Some? && Parts(k, arg, objects).value.0.Some?
    ensures CleanText(Parts(k, arg, objects).value.0.value)
  {
    var i := match k
      case RevCrlReason => ReasonIndex(arg, 8)
      case RevHold => 8
      case RevKeyCompromise => 9
      case _ => 10;
    ReasonNames(i);
    LettersAreClean(CrlReason(i));
  }

  lemma ExtraPartClean(k: RevType, arg: string, objects: Objects)
    requires CleanObjects(objects)
    requires Parts(k, arg, objects).Some? && Parts(k, arg, objects).value.1.Some?
    ensures CleanText(Parts(k, arg, objects).value.1.value)
  {
    if !k.RevHold? { TimeTextChars(arg, Generalized); }
  }

  lemma LettersAreClean(s: string)
    requires Letters(s)
    ensures CleanText(s)
  {
  }

  lemma JoinClean(clock: string, reason: Option<string>, other: Option<string>)
    requires CleanText(clock) && (reason.Some? ==> CleanText(reason.value)) && (other.Some? ==> CleanText(other.value))
    ensures CleanText(clock + Suffix(reason) + Suffix(other))
  {
    AppendClean(clock, Suffix(reason));
    AppendClean(clock + Suffix(reason), Suffix(other));
  }

  lemma AppendClean(a: string, b: string)
    requires CleanText(a) && CleanText(b)
    ensures CleanText(a + b)
  {
  }

  // A revocation that succeeds leaves the table loadable exactly when the text
  // it wrote can be unpacked (nothing is written when a certificate is merely
  // added) and an imported certificate had a proper expiry time.
  lemma RevokeSound(t: Table, c: Cert, addOnly: bool, text: Option<string>, objects: Objects)
    requires Sound(t, objects) && OneLine(c.subject) && (text.Some? ==> CleanText(text.value))
    requires Revoke(t, c, addOnly, text).ok
    ensures addOnly || text.Some?
    ensures Sound(Revoke(t, c, addOnly, text).table, objects) <==>
      (addOnly || Unpack(text.value, objects).ok) && (Find(t, c.serial).None? ==> AnyTime(c.notAfter).Some?)
  {
    var t', i := Revoke(t, c, addOnly, text).table, RevokedAt(t, c);
    RevokeConsistent(t, c, addOnly, text);
    RevokeTouches(t, c, addOnly, text);
    RowForLoads(c, objects);
    if !addOnly { RevokedRowLoads(RowBefore(t, c), text.value, objects); }
    SoundExcept(t, t', i, objects);
  }

  // After a revocation from 2050 on, the rows can still be written and read,
  // but they no longer pass the loader's checks.
  lemma LateRevocationFails(t: Table, c: Cert, k: RevType, arg: string, now: Tm, objects: Objects)
    requires Sound(t, objects) && OneLine(c.subject) && CleanObjects(objects) && AnyTime(c.notAfter).Some?
    requires ValidTm(now) && 2050 <= now.year <= 9999 && !k.RevValid?
    requires Revoke(t, c, false, RevocationStr(k, arg, now, objects)).ok
    ensures var rows := Revoke(t, c, false, RevocationStr(k, arg, now, objects)).table.rows;
      RowsWritable(rows) && !RowsOk(rows, objects)
  {
    var text := RevocationStr(k, arg, now, objects);
    var rows, i := Revoke(t, c, false, text).table.rows, RevokedAt(t, c);
    RevokeTouches(t, c, false, text);
    RevocationTextClean(k, arg, now, objects);
    RoundTrip(k, arg, now, objects);
    RowForLoads(c, objects);
    RevokedRowLoads(RowBefore(t, c), text.value, objects);
    assert !RowOk(rows[i], objects) && RowWritable(rows[i]);
    assert forall j :: 0 <= j < |rows| && j != i ==> rows[j] == t.rows[j];
  }

  // A table that differs from a sound one in one row is as good as that row.
  lemma SoundExcept(t: Table, t': Table, i: nat, objects: Objects)
    requires Sound(t, objects) && Consistent(t') && i < |t'.rows|
    requires forall j :: 0 <= j < |t'.rows| && j != i ==> j < |t.rows| && t'.rows[j] == t.rows[j]
    ensures Sound(t', objects) <==> RowOk(t'.rows[i], objects) && RowWritable(t'.rows[i])
  {
  }

  // The one row a revocation writes.
  lemma RevokedRowLoads(was: Row, text: string, objects: Objects)
    requires CleanText(text)
    ensures var r := was.(kind := "R", rev := text);
      && (RowOk(r, objects) <==> Unpack(text, objects).ok && AnyTime(was.exp).Some? && SerialOk(was.serial))
      && (RowWritable(was) ==> RowWritable(r))
  {
    if RowWritable(was) {
      FieldsOfWritable(was);
      WritableFields(was.(kind := "R", rev := text));
    }
  }

  // In terms of the clock: from 2050 on every revocation makes the database
  // unloadable, until then none does unless it imports an improper expiry time.
  lemma RevocationReloads(t: Table, c: Cert, k: RevType, arg: string, now: Tm, objects: Objects)
    requires Sound(t, objects) && OneLine(c.subject) && CleanObjects(objects)
    requires ValidTm(now) && 1950 <= now.year <= 9999
    requires Revoke(t, c, k.RevValid?, RevocationStr(k, arg, now, objects)).ok
    ensures Sound(Revoke(t, c, k.RevValid?, RevocationStr(k, arg, now, objects)).table, objects) <==>
      (k.RevValid? || now.year < 2050) && (Find(t, c.serial).None? ==> AnyTime(c.notAfter).Some?)
  {
    var text := RevocationStr(k, arg, now, objects);
    RevocationTextClean(k, arg, now, objects);
    RoundTrip(k, arg, now, objects);
    RevokeSound(t, c, k.RevValid?, text, objects);
  }

  // ----------------------------------------------------- the format, spelled out

  // One line a row: type, expiry, revocation, serial, file and name, in this order.
  lemma LineOfRow(r: Row, rows: seq<Row>)
    requires forall i :: 0 <= i < 6 ==> '\t' !in r.Fields()[i]
    ensures SaveText([r] + rows) ==
      r.kind + ("\t" + (r.exp + ("\t" + (r.rev + ("\t" + (r.serial + ("\t" + (r.file + ("\t" + r.name)))))))))
      + ("\n" + SaveText(rows))
  {
    var f := r.Fields();
    assert f[0] == r.kind && f[1] == r.exp && f[2] == r.rev && f[3] == r.serial && f[4] == r.file && f[5] == r.name;
    TxtDb.RowSpelled(r.kind, r.exp, r.rev, r.serial, r.file, r.name);
    assert ToFields([r] + rows) == [f] + ToFields(rows);
  }

  // Which rows the loader accepts: by the first letter of the type, with a
  // revocation that can be unpacked or with none, with an expiry in one of the two
  // time formats, and with whole bytes of hexadecimal digits for a serial.
  lemma RowChecks(r: Row, objects: Objects)
    ensures RowOk(r, objects) <==>
      && (if r.kind != "" && r.kind[0] == 'R' then Unpack(r.rev, objects).ok else r.rev == "")
      && (UtcOk(r.exp) || GeneralizedOk(r.exp))
      && HexSerial(r.serial)
  {
    SerialChecks(r.serial);
    assert AnyTime(r.exp).Some? <==> UtcOk(r.exp) || GeneralizedOk(r.exp);
  }

  predicate HexSerial(s: string) {
    HexBytes(s) || (s != "" && s[0] == '-' && HexBytes(s[1..]))
  }

  lemma SerialChecks(s: string)
    ensures SerialOk(s) <==> HexSerial(s)
  {
    if s != "" && s[0] == '-' { assert !HexBytes(s); }
  }

  predicate HexBytes(s: string) {
    |s| >= 2 && |s| % 2 == 0 && forall i :: 0 <= i < |s| ==>
      '0' <= s[i] <= '9' || 'A' <= s[i] <= 'F' || 'a' <= s[i] <= 'f'
  }
}
