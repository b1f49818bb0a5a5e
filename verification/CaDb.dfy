// The certificate database in memory: rows that are edited in place and two
// indexes that are built once and never rebuilt. Every operation is proved
// against its specification on table values.
module CaDb {
  import opened Text
  import opened Asn1Time
  import opened Revocation
  import opened Table
  import opened Readers
  import opened Calendar
  import CString

  class DbRow {
    var kind: string
    var rev: string
    const exp: string
    const serial: string
    const file: string
    const name: string

    constructor (r: Row)
      ensures Value() == r
    {
      kind, rev, exp, serial, file, name := r.kind, r.rev, r.exp, r.serial, r.file, r.name;
    }

    function Value(): Row
      reads this
    {
      Row(kind, exp, rev, serial, file, name)
    }
  }

  // The row objects have these values, and none is used twice.
  ghost predicate Shown(rows: seq<DbRow>, values: seq<Row>)
    reads rows
  {
    && |rows| == |values|
    && (forall i :: 0 <= i < |rows| ==> rows[i].Value() == values[i])
    && (forall i, j :: 0 <= i < j < |rows| ==> rows[i] != rows[j])
  }

  // An index over row objects that leads where an index over positions does.
  ghost predicate Leads(m: map<string, DbRow>, at: map<string, nat>, rows: seq<DbRow>) {
    m.Keys == at.Keys && forall k :: k in at ==> at[k] < |rows| && m[k] == rows[at[k]]
  }

  lemma LeadsAdd(m: map<string, DbRow>, at: map<string, nat>, rows: seq<DbRow>, k: string, i: nat)
    requires Leads(m, at, rows) && i < |rows|
    ensures Leads(m[k := rows[i]], at[k := i], rows)
  {
  }

  lemma LeadsInsert(m: map<string, DbRow>, at: map<string, nat>, rows: seq<DbRow>, r: DbRow, k: string)
    requires Leads(m, at, rows)
    ensures Leads(m, at, rows + [r]) && Leads(m[k := r], at[k := |rows|], rows + [r])
  {
    LeadsAdd(m, at, rows + [r], k, |rows|);
  }

  class Db {
    const unique: bool
    var rows: seq<DbRow>
    var bySerial: map<string, DbRow>
    var byName: map<string, DbRow>
    ghost var table: Table

    ghost predicate Shows()
      reads this, rows
    {
      Shown(rows, table.rows) && table.unique == unique
    }

    ghost predicate Valid()
      reads this, rows
    {
      && Shows() && Consistent(table)
      && Leads(bySerial, table.serials, rows) && Leads(byName, table.names, rows)
    }

    // Rows are C strings; what is unpacked from them has no terminator inside.
    ghost predicate RevsNulFree()
      reads this
    {
      forall i :: 0 <= i < |table.rows| ==> CString.NulFree(table.rows[i].rev)
    }

    // load_index: the rows of the file, not indexed yet.
    constructor (values: seq<Row>, unique: bool)
      ensures Shows() && table.rows == values && this.unique == unique
      ensures forall i :: 0 <= i < |rows| ==> fresh(rows[i])
    {
      this.unique := unique;
      rows, bySerial, byName := [], map[], map[];
      table := Table([], unique, map[], map[]);
      new;
      var i := 0;
      while i < |values|
        invariant 0 <= i <= |values| && |rows| == i
        invariant Shows() && table.rows == values[..i] && this.unique == unique
        invariant forall j :: 0 <= j < |rows| ==> fresh(rows[j])
      {
        AppendRow(values[i]);
        assert values[..i + 1] == values[..i] + [values[i]];
        i := i + 1;
      }
      assert values[..i] == values;
    }

    method AppendRow(r: Row)
      requires Shows()
      modifies this`rows, this`table
      ensures Shows() && table == old(table).(rows := old(table).rows + [r])
      ensures |rows| == |old(rows)| + 1 && rows[..|old(rows)|] == old(rows) && fresh(rows[|old(rows)|])
    {
      var row := new DbRow(r);
      rows := rows + [row];
      table := table.(rows := table.rows + [r]);
    }

    // The check of every row that follows loading.
    method CheckFields(objects: Objects) returns (ok: bool)
      requires Shows() && RevsNulFree()
      ensures ok <==> RowsOk(table.rows, objects)
    {
      ok := true;
      var i := 0;
      while i < |rows| && ok
        invariant 0 <= i <= |rows| && ok == RowsOk(table.rows[..i], objects)
        invariant !ok ==> !RowsOk(table.rows, objects)
      {
        var r := rows[i].Value();
        assert r == table.rows[i];
        RowsOkStep(table.rows, i, objects);
        ok := CheckRow(r, objects);
        i := i + 1;
      }
      assert table.rows[..|rows|] == table.rows;
    }

    // index_index: build the serial index, then the name index if subjects
    // must be unique; a duplicate key stops it.
    method BuildIndexes() returns (ok: bool)
      requires Shows()
      modifies this`bySerial, this`byName, this`table
      ensures Shows() && table.rows == old(table.rows)
      ensures ok <==> Open(table.rows, unique).Some?
      ensures ok ==> Valid() && table == Open(table.rows, unique).value
    {
      OpenParts(table.rows, unique);
      ok := BuildSerialIndex();
      if !ok { return; }
      if unique {
        ok := BuildNameIndex();
        if !ok { return; }
      } else {
        byName := map[];
      }
      Adopt(Open(table.rows, unique).value);
    }

    // The indexes that have been built lead where those of t do.
    ghost method Adopt(t: Table)
      requires Shows() && t.rows == table.rows && t.unique == unique && Consistent(t)
      requires Leads(bySerial, t.serials, rows) && Leads(byName, t.names, rows)
      modifies this`table
      ensures Valid() && table == t
    {
      table := t;
    }

    method BuildSerialIndex() returns (ok: bool)
      requires Shows()
      modifies this`bySerial
      ensures ok <==> SerialsDistinct(table.rows)
      ensures ok ==> Leads(bySerial, SerialIndex(table.rows), rows)
    {
      bySerial := map[];
      var i := 0;
      while i < |rows|
        invariant 0 <= i <= |rows| && Shows()
        invariant SerialsDistinct(table.rows[..i])
        invariant Leads(bySerial, SerialIndex(table.rows[..i]), rows)
      {
        assert rows[i].Value() == table.rows[i];
        SerialIndexStep(table.rows, i);
        var k := Key(rows[i].serial);
        if k in bySerial {
          NotDistinctPrefix(table.rows, i + 1);
          return false;
        }
        LeadsAdd(bySerial, SerialIndex(table.rows[..i]), rows, k, i);
        bySerial := bySerial[k := rows[i]];
        i := i + 1;
      }
      assert table.rows[..i] == table.rows;
      ok := true;
    }

    method BuildNameIndex() returns (ok: bool)
      requires Shows()
      modifies this`byName
      ensures ok <==> NamesDistinct(table.rows)
      ensures ok ==> Leads(byName, NameIndex(table.rows), rows)
    {
      byName := map[];
      var i := 0;
      while i < |rows|
        invariant 0 <= i <= |rows| && Shows()
        invariant NamesDistinct(table.rows[..i])
        invariant Leads(byName, NameIndex(table.rows[..i]), rows)
      {
        var row := rows[i].Value();
        assert row == table.rows[i];
        NameIndexStep(table.rows, i);
        if row.Type() == 'V' {
          if row.name in byName {
            NotDistinctPrefix(table.rows, i + 1);
            return false;
          }
          LeadsAdd(byName, NameIndex(table.rows[..i]), rows, row.name, i);
          byName := byName[row.name := rows[i]];
        }
        i := i + 1;
      }
      assert table.rows[..i] == table.rows;
      ok := true;
    }

    // TXT_DB_insert.
    method InsertRow(r: Row) returns (ok: bool)
      requires Valid()
      modifies this
      ensures Valid()
      ensures ok <==> Insert(old(table), r).Some?
      ensures table == if ok then Insert(old(table), r).value else old(table)
      ensures old(rows) <= rows && forall i :: |old(rows)| <= i < |rows| ==> fresh(rows[i])
    {
      if Key(r.serial) in bySerial { return false; }
      if unique && r.Type() == 'V' && r.name in byName { return false; }
      FileRow(r);
      ok := true;
    }

    method FileRow(r: Row)
      requires Valid() && Insert(table, r).Some?
      modifies this
      ensures Valid() && table == Insert(old(table), r).value
      ensures old(rows) <= rows && forall i :: |old(rows)| <= i < |rows| ==> fresh(rows[i])
    {
      InsertConsistent(table, r);
      ghost var filed := Insert(table, r).value;
      var row := new DbRow(r);
      LeadsInsert(bySerial, table.serials, rows, row, Key(r.serial));
      LeadsInsert(byName, table.names, rows, row, r.name);
      bySerial := bySerial[Key(r.serial) := row];
      if unique && r.Type() == 'V' { byName := byName[r.name := row]; }
      AddRow(row, filed);
    }

    // The new row at the end, where the indexes lead already.
    method AddRow(row: DbRow, ghost filed: Table)
      requires Shows() && row !in rows && filed.rows == table.rows + [row.Value()]
      requires filed.unique == table.unique && Consistent(filed)
      requires Leads(bySerial, filed.serials, rows + [row]) && Leads(byName, filed.names, rows + [row])
      modifies this`rows, this`table
      ensures Valid() && table == filed && rows == old(rows) + [row]
    {
      rows, table := rows + [row], filed;
    }

    // do_body from the clash check on. The serial index is consulted only when
    // there is no clash of names; taken tells that it has the serial.
    method IssueOne(serial: nat, q: Request) returns (verdict: Verdict, taken: bool)
      requires Valid()
      modifies this
      ensures Valid()
      ensures IssueResult(verdict, table, taken) == Issue(old(table), serial, q)
      ensures old(rows) <= rows && forall i :: |old(rows)| <= i < |rows| ==> fresh(rows[i])
    {
      match q
      case Broken => return Failed, false;
      case Refused => return Skipped, false;
      case Wellformed(subject, notAfter, confirmed, signs) =>
        var row := RowFor(Cert(serial, subject, notAfter));
        if unique && row.name in byName { return Failed, false; }
        if Key(row.serial) in bySerial { return Failed, true; }
        if !confirmed { return Skipped, false; }
        if !signs { return Failed, false; }
        var ok := InsertRow(row);
        return if ok then Certified else Failed, false;
    }

    // do_revoke: when the certificate is not in the table it is added, and the
    // revocation is tried again; the second try always finds it.
    method DoRevoke(c: Cert, k: RevType, arg: string, now: Tm, objects: Objects) returns (ok: bool)
      requires Valid() && CString.NulFree(arg)
      modifies this, rows
      ensures Valid()
      ensures RevokeResult(ok, table) == Revoke(old(table), c, k.RevValid?, RevocationStr(k, arg, now, objects))
      ensures old(rows) <= rows && forall i :: |old(rows)| <= i < |rows| ==> fresh(rows[i])
      decreases if Find(table, c.serial).None? then 1 else 0, 1
    {
      if Key(SerialText(c.serial)) !in bySerial {
        ok := RevokeNew(c, k, arg, now, objects);
      } else {
        ok := RevokeListed(c, k, arg, now, objects);
      }
    }

    method RevokeNew(c: Cert, k: RevType, arg: string, now: Tm, objects: Objects) returns (ok: bool)
      requires Valid() && CString.NulFree(arg) && Find(table, c.serial).None?
      modifies this, rows
      ensures Valid()
      ensures RevokeResult(ok, table) == Revoke(old(table), c, k.RevValid?, RevocationStr(k, arg, now, objects))
      ensures old(rows) <= rows && forall i :: |old(rows)| <= i < |rows| ==> fresh(rows[i])
      decreases 1, 0
    {
      RevokeUnlisted(table, c, k.RevValid?, RevocationStr(k, arg, now, objects));
      var added := InsertRow(RowFor(c));
      if !added { return false; }
      if k.RevValid? { return true; }
      ok := DoRevoke(c, k, arg, now, objects);
    }

    method RevokeListed(c: Cert, k: RevType, arg: string, now: Tm, objects: Objects) returns (ok: bool)
      requires Valid() && CString.NulFree(arg) && Find(table, c.serial).Some?
      modifies this`table, rows
      ensures Valid()
      ensures RevokeResult(ok, table) ==
        RevokeFound(old(table), Find(old(table), c.serial).value, c, k.RevValid?, RevocationStr(k, arg, now, objects))
    {
      var row := bySerial[Key(SerialText(c.serial))];
      ghost var i := Find(table, c.serial).value;
      assert row == rows[i] && row.Value() == table.rows[i];
      if row.name != NameKey(c) || k.RevValid? || row.Value().Type() == 'R' { return false; }
      var s := MakeRevocationStr(k, arg, now, objects);
      if s.None? { return false; }
      MarkRevoked(row, i, c, s.value);
      ok := true;
    }

    method MarkRevoked(row: DbRow, ghost i: nat, ghost c: Cert, s: string)
      requires Valid() && i < |rows| && row == rows[i]
      requires row.name == NameKey(c) && row.Value().Type() != 'R'
      modifies this`table, rows
      ensures Valid()
      ensures RevokeResult(true, table) == RevokeFound(old(table), i, c, false, Some(s))
    {
      RevokeFoundConsistent(table, i, c, false, Some(s));
      ghost var after := RevokeFound(table, i, c, false, Some(s)).table;
      SetRow(row, i, "R", s);
      assert table == after;
    }

    // The only edit in place: type and revocation text of one row.
    method SetRow(row: DbRow, ghost i: nat, kind: string, rev: string)
      requires Shows() && i < |rows| && row == rows[i]
      modifies this`table, rows
      ensures Shows()
      ensures table == old(table).(rows := old(table).rows[i := old(table).rows[i].(kind := kind, rev := rev)])
    {
      row.kind := kind;
      row.rev := rev;
      table := table.(rows := table.rows[i := table.rows[i].(kind := kind, rev := rev)]);
    }

    // do_updatedb: -1 when the expiry of a valid row cannot be read (rows in
    // front of it have been marked by then), else the number of rows marked.
    method DoUpdateDb(now: Tm) returns (cnt: int)
      requires Valid() && ValidTm(now) && 1950 <= now.year <= 9999
      modifies this`table, rows
      ensures Valid() && Updated(old(table), table, cnt, Seconds(now))
      ensures cnt >= 0 ==> MarkedByCalendar(old(table).rows, table.rows, now)
    {
      UpdateMarks(table.rows, now);
      var clock := Clock(now);
      cnt := UpdateAt(clock);
    }

    method UpdateAt(clock: int) returns (cnt: int)
      requires Valid()
      modifies this`table, rows
      ensures Valid() && Updated(old(table), table, cnt, clock)
    {
      cnt := MarkExpired(clock);
      UpdatedConsistent(old(table), table, cnt, clock);
    }

    method MarkExpired(secs: int) returns (cnt: int)
      requires Shows()
      modifies this`table, rows
      ensures Shows() && Updated(old(table), table, cnt, secs)
    {
      ghost var t0, n, t := table, 0, table;
      ExpireStart(t0, secs);
      cnt, n, t := MarkRows(t0, secs);
      MarkingEnds(t0, t, n, cnt, secs);
    }

    method MarkRows(ghost t0: Table, secs: int) returns (cnt: int, ghost n: nat, ghost t: Table)
      requires Shows() && Marking(t0, table, 0, 0, secs)
      modifies this`table, rows
      ensures Shows() && rows == old(rows) && table == t
      ensures Marking(t0, t, n, cnt, secs) && (cnt >= 0 ==> n == |rows|)
    {
      t, cnt := table, 0;
      var i := 0;
      while i < |rows| && cnt >= 0
        invariant 0 <= i <= |rows| && Shows() && rows == old(rows) && table == t
        invariant Marking(t0, t, i, cnt, secs)
      {
        cnt, t := MarkNext(t0, i, cnt, secs);
        i := i + 1;
      }
      n := i;
    }

    method MarkNext(ghost t0: Table, i: nat, cnt: nat, secs: int) returns (next: int, ghost t: Table)
      requires Shows() && i < |rows| && Marking(t0, table, i, cnt, secs)
      modifies this`table, rows
      ensures Shows() && rows == old(rows) && table == t
      ensures Marking(t0, t, i + 1, next, secs)
    {
      ExpireStep(t0, table, i, cnt, secs);
      var n := MarkIfExpired(i, secs);
      if n < 0 { ExpireStops(t0, table, i, cnt, secs); }
      next, t := if n < 0 then -1 else cnt + n, table;
    }

    // One pass of that loop: -1, or the number of rows marked.
    method MarkIfExpired(i: nat, clock: int) returns (n: int)
      requires Shows() && i < |rows|
      modifies this`table, rows
      ensures Shows()
      ensures n < 0 <==> !ExpiryReadable(old(table).rows[i])
      ensures n < 0 ==> table == old(table)
      ensures n >= 0 ==> table == old(table).(rows := old(table).rows[i := Expire(old(table).rows[i], clock)])
      ensures n >= 0 ==> n == if Expires(old(table).rows[i], clock) then 1 else 0
    {
      var row := rows[i];
      assert row.Value() == table.rows[i];
      n := 0;
      if row.Value().Type() == 'V' {
        var exp := AnyTime(row.exp);
        if exp.None? { return -1; }
        if Compare(exp.value, clock) <= 0 {
          SetRow(row, i, "E", row.rev);
          n := 1;
        }
      }
    }

    // The rows as they are to be written.
    method Values() returns (values: seq<Row>)
      requires Shows()
      ensures values == table.rows
    {
      values := [];
      for i := 0 to |rows|
        invariant values == table.rows[..i]
      {
        values := values + [rows[i].Value()];
      }
    }

    // lookup_serial of the responder.
    method LookupSerial(serial: int) returns (r: DbRow?)
      requires Valid()
      ensures r == null <==> Find(table, serial).None?
      ensures r != null ==> r in rows && r.Value() == table.rows[Find(table, serial).value]
    {
      var key := Key(SerialText(serial));
      r := if key in bySerial then bySerial[key] else null;
    }

    // get_certificate_status: 1 for a row of a known type, -1 otherwise.
    method CertificateStatus(s: string) returns (ok: int)
      requires Valid()
      ensures ok == 1 <==> StatusType(table, s) in {Some('V'), Some('R'), Some('E'), Some('S')}
      ensures ok == 1 || ok == -1
    {
      var key := Key(StatusText(s));
      if key !in bySerial { return -1; }
      assert bySerial[key].Value() == table.rows[table.serials[key]];
      var c := bySerial[key].Value().Type();
      ok := if c == 'V' || c == 'R' || c == 'E' || c == 'S' then 1 else -1;
    }

    // The loop of ca_main that fills the CRL.
    method BuildCrl(objects: Objects) returns (es: seq<CrlEntry>, v2: bool)
      requires Shows() && RowsOk(table.rows, objects) && RevsNulFree()
      ensures es == CrlEntries(table.rows, objects) && v2 == HasReason(es)
    {
      es, v2 := [], false;
      for i := 0 to |rows|
        invariant RowsOk(table.rows[..i], objects)
        invariant es == CrlEntries(table.rows[..i], objects) && v2 == HasReason(es)
      {
        var r := rows[i].Value();
        assert r == table.rows[i];
        CrlStep(table.rows, i, objects);
        if r.Type() == 'R' {
          var e := MakeRevoked(r, objects);
          HasReasonSnoc(es, e);
          es := es + [e];
          if e.reason != NO_REASON { v2 := true; }
        }
      }
      assert table.rows[..|rows|] == table.rows;
    }

    // One pass of the loop in make_ocsp_response.
    method AnswerId(cas: seq<nat>, id: CertId, rcid: bool, same: SameIssuer, objects: Objects)
      returns (a: Answer, aid: AnswerId)
      requires Valid() && RevsNulFree()
      ensures a == AnswerTo(table, cas, id, same, objects)
      ensures aid == IdFor(cas, id, rcid, same)
    {
      var found, ca := FindIssuer(cas, id, same);
      aid := if found && rcid then Rehashed(ca) else Asked(id);
      if !id.digestKnown { return BadTime, aid; }
      var inf := LookupSerial(id.serial);
      if !found { return Answered(Unknown), aid; }
      if inf == null { return Answered(Unknown), aid; }
      if inf.Value().Type() == 'V' { return Answered(Good), aid; }
      if inf.Value().Type() != 'R' { return Silent, aid; }
      var u := UnpackRevinfo(inf.rev, objects);
      if u.time.None? { return BadTime, aid; }
      var ext := NoExtension;
      if u.invalidity.Some? {
        ext := InvalidityDate(u.invalidity.value);
      } else if u.hold.Some? {
        ext := HoldInstruction(u.hold.value);
      }
      a := Answered(RevokedStatus(u.time.value, u.reason, ext));
    }

    // make_ocsp_response.
    method MakeOcspResponse(cas: seq<nat>, ids: seq<CertId>, rcid: bool, same: SameIssuer, objects: Objects)
      returns (r: Response)
      requires Valid() && RevsNulFree()
      ensures r == Respond(table, cas, ids, rcid, same, objects)
    {
      if |ids| == 0 { return MalformedRequest; }
      var bs: seq<Single> := [];
      var i := 0;
      while i < |ids|
        invariant 0 <= i <= |ids|
        invariant Singles(table, cas, ids[..i], rcid, same, objects) == Some(bs)
      {
        SinglesStep(table, cas, ids, i, rcid, same, objects);
        var a, aid := AnswerId(cas, ids[i], rcid, same, objects);
        if a.BadTime? {
          SinglesPrefix(table, cas, ids, i + 1, rcid, same, objects);
          return InternalError;
        }
        if a.Answered? { bs := bs + [Single(aid, a.status)]; }
        i := i + 1;
      }
      assert ids[..i] == ids;
      r := Successful(bs);
    }
  }

  lemma RowsOkStep(rows: seq<Row>, i: nat, objects: Objects)
    requires i < |rows|
    ensures RowsOk(rows[..i + 1], objects) <==> RowsOk(rows[..i], objects) && RowOk(rows[i], objects)
    ensures RowsOk(rows, objects) ==> RowOk(rows[i], objects)
  {
    assert rows[..i + 1] == rows[..i] + [rows[i]];
  }

  method CheckRow(r: Row, objects: Objects) returns (ok: bool)
    requires CString.NulFree(r.rev)
    ensures ok <==> RowOk(r, objects)
  {
    if r.Type() != 'R' && r.rev != "" { return false; }
    if r.Type() == 'R' {
      var u := UnpackRevinfo(r.rev, objects);
      if !u.ok { return false; }
    }
    ok := AnyTime(r.exp).Some? && SerialOk(r.serial);
  }

  // X509_gmtime_adj to the present, as a time to compare with.
  method Clock(now: Tm) returns (clock: int)
    requires ValidTm(now) && 1950 <= now.year <= 9999
    ensures clock == Seconds(now)
  {
    ClockIsNow(now);
    clock := AnyTime(Format(now)).value.Instant();
  }

  // make_revoked, for a row that passed the loader's check.
  method MakeRevoked(r: Row, objects: Objects) returns (e: CrlEntry)
    requires SerialOk(r.serial) && Unpack(r.rev, objects).ok && CString.NulFree(r.rev)
    ensures e == Entry(r, objects)
  {
    var u := UnpackRevinfo(r.rev, objects);
    UnpackedCodes(r.rev, objects);
    e := CrlEntry(SerialNumber(r.serial), u.time.value, u.reason, u.invalidity, u.hold);
  }

  // The search of make_ocsp_response through the CA certificates.
  method FindIssuer(cas: seq<nat>, id: CertId, same: SameIssuer) returns (found: bool, ca: nat)
    ensures FirstIssuer(cas, id, same) == if found then Some(ca) else None
  {
    found, ca := false, 0;
    var j := 0;
    while j < |cas| && !found
      invariant 0 <= j <= |cas|
      invariant FirstIssuer(cas, id, same) == if found then Some(ca) else FirstIssuer(cas[j..], id, same)
    {
      if same(cas[j], id) { found, ca := true, cas[j]; }
      j := j + 1;
    }
  }

  lemma NotDistinctPrefix(rows: seq<Row>, n: nat)
    requires n <= |rows|
    ensures SerialsDistinct(rows) ==> SerialsDistinct(rows[..n])
    ensures NamesDistinct(rows) ==> NamesDistinct(rows[..n])
  {
    assert forall i :: 0 <= i < n ==> rows[..n][i] == rows[i];
  }

  lemma OpenParts(rows: seq<Row>, unique: bool)
    ensures Open(rows, unique).Some? <==> SerialsDistinct(rows) && (unique ==> NamesDistinct(rows))
    ensures Open(rows, unique).Some? ==> Consistent(Open(rows, unique).value)
  {
    if Open(rows, unique).Some? { OpenConsistent(rows, unique); }
  }

  // Revoking a certificate that is not listed is listing it and trying again,
  // and the row that was inserted is the one its number finds then.
  lemma RevokeUnlisted(t: Table, c: Cert, addOnly: bool, text: Option<string>)
    requires Consistent(t) && Find(t, c.serial).None?
    ensures var t' := Insert(t, RowFor(c));
      && (t'.Some? ==> Find(t'.value, c.serial) == Some(|t.rows|))
      && Revoke(t, c, addOnly, text) ==
           if t'.None? then RevokeResult(false, t)
           else if addOnly then RevokeResult(true, t'.value)
           else Revoke(t'.value, c, addOnly, text)
  {
  }

  lemma ClockIsNow(now: Tm)
    requires ValidTm(now) && 1950 <= now.year <= 9999
    ensures AnyTime(Format(now)) == Some(Moment(Seconds(now), 0))
  {
    if now.year < 2050 {
      ClockIsUtc(now);
    } else {
      ClockIsNotUtc(now);
      ClockIsGeneralized(now);
    }
  }

  // The expiry of a valid row can be read; no other row's is looked at.
  predicate ExpiryReadable(r: Row) { r.Type() == 'V' ==> AnyTime(r.exp).Some? }

  predicate ExpiriesReadable(rows: seq<Row>) { forall i :: 0 <= i < |rows| ==> ExpiryReadable(rows[i]) }

  // The rows in front of i have been marked.
  predicate PartlyExpired(t: Table, t': Table, i: nat, now: int)
    requires i <= |t.rows|
  {
    t' == t.(rows := ExpireRows(t.rows[..i], now) + t.rows[i..])
  }

  // What do_updatedb has done to the table when it returns cnt.
  ghost predicate Updated(t: Table, t': Table, cnt: int, now: int) {
    && (cnt >= 0 <==> ExpiriesReadable(t.rows))
    && (cnt >= 0 ==> cnt == ExpiredCount(t.rows, now) && t' == t.(rows := ExpireRows(t.rows, now)))
    && (cnt < 0 ==> cnt == -1 && exists i: nat :: i < |t.rows| && PartlyExpired(t, t', i, now))
  }

  lemma UpdatedConsistent(t: Table, t': Table, cnt: int, now: int)
    requires Consistent(t) && Updated(t, t', cnt, now)
    ensures Consistent(t') && t'.unique == t.unique && t'.serials == t.serials && t'.names == t.names
  {
    if cnt >= 0 {
      ExpireConsistent(t, now);
    } else {
      var i: nat :| i < |t.rows| && PartlyExpired(t, t', i, now);
      PartlyExpiredConsistent(t, t', i, now);
    }
  }

  // They could all be read, and cnt of them have expired.
  predicate Progress(t: Table, t': Table, i: nat, cnt: int, now: int) {
    && i <= |t.rows| && PartlyExpired(t, t', i, now)
    && cnt == ExpiredCount(t.rows[..i], now)
    && forall j :: 0 <= j < i ==> ExpiryReadable(t.rows[j])
  }

  // The loop has come to row i, or it has stopped.
  ghost predicate Marking(t: Table, t': Table, i: nat, cnt: int, now: int) {
    if cnt >= 0 then Progress(t, t', i, cnt, now) else cnt == -1 && Updated(t, t', cnt, now)
  }

  lemma MarkingEnds(t: Table, t': Table, i: nat, cnt: int, now: int)
    requires Marking(t, t', i, cnt, now) && (cnt >= 0 ==> i == |t.rows|)
    ensures Updated(t, t', cnt, now)
  {
    if cnt >= 0 { ExpireEnd(t, t', cnt, now); }
  }

  lemma ExpireStep(t: Table, t': Table, i: nat, cnt: int, now: int)
    requires i < |t.rows| && Progress(t, t', i, cnt, now)
    ensures t'.rows[i] == t.rows[i]
    ensures ExpiryReadable(t.rows[i]) ==>
      var n := if Expires(t.rows[i], now) then 1 else 0;
      Progress(t, t'.(rows := t'.rows[i := Expire(t.rows[i], now)]), i + 1, cnt + n, now)
  {
    ExpireSnoc(t.rows, i, now);
  }

  lemma ExpireStart(t: Table, now: int)
    ensures Progress(t, t, 0, 0, now)
  {
    assert t.rows[..0] == [] && [] + t.rows[0..] == t.rows;
  }

  lemma ExpireStops(t: Table, t': Table, i: nat, cnt: int, now: int)
    requires i < |t.rows| && Progress(t, t', i, cnt, now) && !ExpiryReadable(t.rows[i])
    ensures Updated(t, t', -1, now)
  {
  }

  lemma ExpireEnd(t: Table, t': Table, cnt: int, now: int)
    requires Progress(t, t', |t.rows|, cnt, now)
    ensures Updated(t, t', cnt, now)
  {
    assert t.rows[..|t.rows|] == t.rows && t.rows[|t.rows|..] == [];
  }

  lemma ExpireSnoc(rows: seq<Row>, i: nat, now: int)
    requires i < |rows|
    ensures rows[..i + 1][..i] == rows[..i]
    ensures ExpireRows(rows[..i + 1], now) == ExpireRows(rows[..i], now) + [Expire(rows[i], now)]
    ensures (ExpireRows(rows[..i], now) + rows[i..])[i := Expire(rows[i], now)] ==
      ExpireRows(rows[..i], now) + [Expire(rows[i], now)] + rows[i + 1..]
  {
    assert rows[..i + 1][..i] == rows[..i] && rows[..i + 1][i] == rows[i];
    var e := ExpireRows(rows[..i + 1], now);
    assert e == e[..i] + [e[i]] && e[..i] == ExpireRows(rows[..i], now);
    PutBehind(ExpireRows(rows[..i], now), rows[i..], Expire(rows[i], now));
    assert rows[i..][1..] == rows[i + 1..];
  }

  lemma PutBehind(front: seq<Row>, rest: seq<Row>, r: Row)
    requires rest != []
    ensures (front + rest)[|front| := r] == front + [r] + rest[1..]
  {
  }

  lemma PartlyExpiredConsistent(t: Table, t': Table, i: nat, now: int)
    requires Consistent(t) && i <= |t.rows| && PartlyExpired(t, t', i, now)
    ensures Consistent(t')
  {
    forall j | 0 <= j < |t.rows|
      ensures t'.rows[j].serial == t.rows[j].serial && t'.rows[j].name == t.rows[j].name
      ensures t'.rows[j].Type() == 'V' ==> t.rows[j].Type() == 'V'
    {
      if j < i { assert t'.rows[j] == Expire(t.rows[..i][j], now); }
    }
  }
}
