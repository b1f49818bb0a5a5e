// What every change to the certificate table keeps: the life of a row, the
// serial counter, unique subjects, and that a saved table can be loaded again.
module Lifecycle {
  import opened Text
  import opened Asn1Time
  import opened Revocation
  import opened Table
  import TxtDb

  // ----------------------------------------------------- the life of a row

  // How a row may change while it is in the table. It never loses its serial,
  // name or expiry; revocation is final and freezes the revocation text; and
  // nothing becomes valid again.
  predicate RowEvolves(a: Row, b: Row) {
    && b.serial == a.serial && b.name == a.name && b.exp == a.exp && b.file == a.file
    && (a.Type() == 'R' ==> b == a)
    && (b.Type() == 'V' ==> b == a)
    && (b.kind == a.kind || b.kind == "R" || (b.kind == "E" && a.Type() == 'V'))
    && (b.rev == a.rev || b.kind == "R")
  }

  // Rows are only ever added at the end.
  predicate Evolves(old_: seq<Row>, new_: seq<Row>) {
    |old_| <= |new_| && forall i :: 0 <= i < |old_| ==> RowEvolves(old_[i], new_[i])
  }

  lemma EvolvesTransitive(a: seq<Row>, b: seq<Row>, c: seq<Row>)
    requires Evolves(a, b) && Evolves(b, c)
    ensures Evolves(a, c)
  {
    forall i | 0 <= i < |a| ensures RowEvolves(a[i], c[i]) {
      assert RowEvolves(a[i], b[i]) && RowEvolves(b[i], c[i]);
    }
  }

  lemma IssueEvolves(t: Table, serial: nat, q: Request)
    ensures Evolves(t.rows, Issue(t, serial, q).table.rows)
  {
  }

  lemma {:induction false} BatchEvolves(t: Table, serial: nat, qs: seq<Request>)
    ensures Evolves(t.rows, Batch(t, serial, qs).table.rows)
    decreases |qs|
  {
    if qs != [] {
      var one := Issue(t, serial, qs[0]);
      IssueEvolves(t, serial, qs[0]);
      if !one.verdict.Failed? {
        var next := if one.verdict.Certified? then serial + 1 else serial;
        BatchEvolves(one.table, next, qs[1..]);
        EvolvesTransitive(t.rows, one.table.rows, Batch(one.table, next, qs[1..]).table.rows);
      }
    }
  }

  // Where a revocation changes the table: at one row, old or just added.
  lemma RevokeTouches(t: Table, c: Cert, addOnly: bool, text: Option<string>)
    requires Consistent(t)
    ensures var t', i := Revoke(t, c, addOnly, text).table, RevokedAt(t, c);
      && |t.rows| <= |t'.rows| <= |t.rows| + 1
      && i <= |t.rows|
      && (forall j :: 0 <= j < |t.rows| && j != i ==> t'.rows[j] == t.rows[j])
      && (i < |t'.rows| ==> RowEvolves(RowBefore(t, c), t'.rows[i]))
      && (i < |t.rows| ==> |t'.rows| == |t.rows|)
      && (Revoke(t, c, addOnly, text).ok ==>
            && i < |t'.rows| && (addOnly || text.Some?)
            && t'.rows[i] == if addOnly then RowFor(c) else RowBefore(t, c).(kind := "R", rev := text.value))
  {
    match Find(t, c.serial)
    case Some(i) =>
      assert Revoke(t, c, addOnly, text) == RevokeFound(t, i, c, addOnly, text);
    case None =>
      if Insert(t, RowFor(c)).Some? && !addOnly {
        var t1 := Insert(t, RowFor(c)).value;
        assert Revoke(t, c, addOnly, text) == RevokeFound(t1, |t.rows|, c, addOnly, text);
      }
  }

  // ------------------------------------------------- rows the programs write

  // The name of a row the programs wrote: a subject, or its own serial number.
  predicate ProperName(r: Row) {
    (r.name != "" && r.name[0] == '/') || r.name == r.serial
  }

  // Rows the programs wrote can be found by their number and are properly named.
  predicate Native(r: Row) { Addressable(r.serial) && ProperName(r) }

  predicate NativeFrom(rows: seq<Row>, n: nat) {
    forall i :: n <= i < |rows| ==> Native(rows[i])
  }

  lemma RowForIsNative(c: Cert)
    requires OneLine(c.subject)
    ensures Native(RowFor(c))
  {
    RowForIsAddressable(c);
  }

  // Whatever becomes of them.
  lemma EvolvesNative(a: seq<Row>, b: seq<Row>, n: nat)
    requires Evolves(a, b) && NativeFrom(a, n) && NativeFrom(b, |a|)
    ensures NativeFrom(b, n)
  {
    forall i | n <= i < |b| ensures Native(b[i]) {
      if i < |a| { assert RowEvolves(a[i], b[i]); }
    }
  }

  // Revoking and importing add native rows only.
  lemma RevokeNative(t: Table, c: Cert, addOnly: bool, text: Option<string>)
    requires Consistent(t) && OneLine(c.subject)
    ensures NativeFrom(Revoke(t, c, addOnly, text).table.rows, |t.rows|)
  {
    RevokeTouches(t, c, addOnly, text);
    RowForIsNative(c);
  }

  // ----------------------------------------------------------- revocation

  // When a revocation succeeds. That the second try after adding a row needs
  // nothing but a usable argument is what makes the recursion end well.
  lemma RevokeDecides(t: Table, c: Cert, addOnly: bool, text: Option<string>)
    requires Consistent(t)
    ensures Revoke(t, c, addOnly, text).ok <==>
      match Find(t, c.serial)
      case Some(i) => !addOnly && text.Some? && t.rows[i].name == NameKey(c) && t.rows[i].Type() != 'R'
      case None => (addOnly || text.Some?) && !(t.unique && NameKey(c) in t.names)
  {
    match Find(t, c.serial)
    case Some(i) =>
      assert Revoke(t, c, addOnly, text) == RevokeFound(t, i, c, addOnly, text);
    case None =>
      assert Key(RowFor(c).serial) !in t.serials;
      if Insert(t, RowFor(c)).Some? && !addOnly {
        var t1 := Insert(t, RowFor(c)).value;
        assert Revoke(t, c, addOnly, text) == RevokeFound(t1, |t.rows|, c, addOnly, text);
      }
  }

  // The position of the row a revocation is about, and that row beforehand.
  function RevokedAt(t: Table, c: Cert): nat {
    if Find(t, c.serial).Some? then Find(t, c.serial).value else |t.rows|
  }

  function RowBefore(t: Table, c: Cert): Row {
    if Find(t, c.serial).Some? then t.rows[Find(t, c.serial).value] else RowFor(c)
  }

  lemma RevokeEvolves(t: Table, c: Cert, addOnly: bool, text: Option<string>)
    requires Consistent(t)
    ensures Evolves(t.rows, Revoke(t, c, addOnly, text).table.rows)
  {
    RevokeTouches(t, c, addOnly, text);
  }

  lemma ExpireEvolves(rows: seq<Row>, now: int)
    ensures Evolves(rows, ExpireRows(rows, now))
  {
  }

  // --------------------------------------------------------------- expiring

  // A valid row whose expiry is not after now.
  predicate HasExpired(r: Row, now: int) {
    r.Type() == 'V' && AnyTime(r.exp).Some? && AnyTime(r.exp).value.Instant() <= now
  }

  // A valid row whose expiry has a zone that moves it beyond the year 9999.
  predicate Overshoots(r: Row) {
    && r.Type() == 'V' && AnyTime(r.exp).Some?
    && AnyTime(r.exp).value.shift != 0 && AnyTime(r.exp).value.Instant() >= FirstSecond(10000)
  }

  // Exactly the valid rows whose expiry is not after now are marked if and only
  // if no valid row overshoots: such an expiry cannot be computed, and the
  // comparison then counts as not after now.
  lemma MarksTheExpired(rows: seq<Row>, now: Tm)
    requires ValidTm(now) && 1900 <= now.year <= 9999
    ensures (forall i :: 0 <= i < |rows| ==>
      (Expires(rows[i], Seconds(now)) <==> HasExpired(rows[i], Seconds(now)))) <==>
      forall i :: 0 <= i < |rows| ==> !Overshoots(rows[i])
  {
    ClockInCalendar(now);
    forall i | 0 <= i < |rows|
      ensures (Expires(rows[i], Seconds(now)) <==> HasExpired(rows[i], Seconds(now))) <==> !Overshoots(rows[i])
    {
      MarkedInError(rows[i], Seconds(now));
    }
  }

  lemma MarkedInError(r: Row, now: int)
    requires InCalendar(now)
    ensures (Expires(r, now) <==> HasExpired(r, now)) <==> !Overshoots(r)
  {
  }

  // Such a row: it passes the loader's check of expiry times, lies in the future
  // of every clock, and is marked at once.
  lemma MarkedTooEarly(r: Row, now: Tm)
    requires r.Type() == 'V' && r.exp == "99991231235959-1200"
    requires ValidTm(now) && 1900 <= now.year <= 9999
    ensures AnyTime(r.exp).Some? && AnyTime(r.exp).value.Instant() > Seconds(now)
    ensures Expires(r, Seconds(now)) && Overshoots(r)
  {
    ClockInCalendar(now);
    LastHours();
  }

  lemma LastHours()
    ensures var m := AnyTime("99991231235959-1200");
      m == Some(Moment(FirstSecond(10000) - 1, 43200))
  {
    var s := "99991231235959-1200";
    assert |s| == 19 && s[4] == '1' && s[5] == '2' && s[6] == '3' && s[7] == '1' && s[8] == '2' && s[9] == '3';
    assert DigitPair(s, 0) == 99 && DigitPair(s, 2) == 99 && DigitPair(s, 4) == 12 && DigitPair(s, 6) == 31;
    assert DigitPair(s, 8) == 23 && DigitPair(s, 10) == 59 && DigitPair(s, 12) == 59;
    assert s[14] == '-' && DigitPair(s, 15) == 12 && DigitPair(s, 17) == 0;
    assert !UtcOk(s);
    assert Seconds(Tm(9999, 12, 31, 23, 59, 59)) == FirstSecond(10000) - 1;
  }

  // The count do_updatedb returns is the number of rows it changed, and those
  // are exactly the valid rows whose expiry does not compare as after now.
  lemma {:induction false} ExpiredCountCounts(rows: seq<Row>, now: int)
    ensures |ChangedRows(rows, now)| == ExpiredCount(rows, now)
    ensures forall i :: 0 <= i < |rows| ==> (i in ChangedRows(rows, now) <==> Expires(rows[i], now))
  {
    if rows != [] {
      var n := |rows| - 1;
      ExpiredCountCounts(rows[..n], now);
      ChangedSnoc(rows, now);
    }
  }

  lemma ChangedSnoc(rows: seq<Row>, now: int)
    requires rows != []
    ensures var n := |rows| - 1;
      ChangedRows(rows, now) == ChangedRows(rows[..n], now) + (if Expires(rows[n], now) then {n} else {})
    ensures |rows| - 1 !in ChangedRows(rows[..|rows| - 1], now)
  {
    var n := |rows| - 1;
    var p := rows[..n];
    var last := if Expires(rows[n], now) then {n} else {};
    forall i: int ensures i in ChangedRows(rows, now) <==> i in ChangedRows(p, now) + last {
      if 0 <= i < n {
        ExpireDiffers(p, i, now);
        ExpireDiffers(rows, i, now);
      } else if i == n {
        ExpireDiffers(rows, i, now);
      }
    }
  }

  lemma ExpireDiffers(rows: seq<Row>, i: nat, now: int)
    requires i < |rows|
    ensures i in ChangedRows(rows, now) <==> Expires(rows[i], now)
  {
    var e := ExpireRows(rows, now)[i];
    assert e == Expire(rows[i], now);
    if Expires(rows[i], now) { assert e.Type() == 'E'; }
  }

  function ChangedRows(rows: seq<Row>, now: int): set<int> {
    set i | 0 <= i < |rows| && ExpireRows(rows, now)[i] != rows[i]
  }

  // A second run at the same time finds nothing to do.
  lemma {:induction false} ExpireTwice(rows: seq<Row>, now: int)
    ensures ExpireRows(ExpireRows(rows, now), now) == ExpireRows(rows, now)
    ensures ExpiredCount(ExpireRows(rows, now), now) == 0
  {
    if rows != [] {
      var e := ExpireRows(rows, now);
      ExpireTwice(rows[..|rows| - 1], now);
      assert e[..|rows| - 1] == ExpireRows(rows[..|rows| - 1], now);
    }
  }

  // -------------------------------------------------------------- the batch

  // The requests that a batch certifies.
  function Wanted(qs: seq<Request>): (w: seq<Request>)
    ensures forall i :: 0 <= i < |w| ==> w[i].Wellformed? && w[i].confirmed
  {
    if qs == [] then []
    else (if qs[0].Wellformed? && qs[0].confirmed then [qs[0]] else []) + Wanted(qs[1..])
  }

  // Certificate numbers start at the counter and follow each other in request
  // order; the table gains exactly their rows, all valid; the counter ends one
  // past the last. A batch that is not cut short certifies exactly the
  // confirmed requests.
  lemma {:induction false} BatchNumbers(t: Table, serial: nat, qs: seq<Request>)
    ensures var r := Batch(t, serial, qs);
      && r.serial == serial + |r.certs|
      && forall j :: 0 <= j < |r.certs| ==> r.certs[j].serial == serial + j
    decreases |qs|
  {
    if qs != [] {
      var one := Issue(t, serial, qs[0]);
      match one.verdict
      case Failed =>
      case Skipped => BatchNumbers(one.table, serial, qs[1..]);
      case Certified => BatchNumbers(one.table, serial + 1, qs[1..]);
    }
  }

  lemma IssueAddsRow(t: Table, serial: nat, q: Request)
    ensures var one := Issue(t, serial, q);
      && one.table.unique == t.unique
      && (!one.verdict.Certified? ==> one.table == t)
      && (one.verdict.Certified? ==> q.Wellformed? && q.confirmed && q.signs)
      && (one.verdict.Certified? ==> one.table.rows == t.rows + [RowFor(Cert(serial, q.subject, q.notAfter))])
  {
  }

  lemma {:induction false} BatchRows(t: Table, serial: nat, qs: seq<Request>)
    ensures var r := Batch(t, serial, qs);
      r.table.unique == t.unique && r.table.rows == t.rows + RowsFor(r.certs)
    decreases |qs|
  {
    if qs != [] {
      IssueAddsRow(t, serial, qs[0]);
      var one := Issue(t, serial, qs[0]);
      match one.verdict
      case Failed =>
      case Skipped => BatchRows(one.table, serial, qs[1..]);
      case Certified =>
        BatchRows(one.table, serial + 1, qs[1..]);
        var rest := Batch(one.table, serial + 1, qs[1..]).certs;
        PrependRow(t.rows, Cert(serial, qs[0].subject, qs[0].notAfter), rest);
    }
  }

  lemma PrependRow(rows: seq<Row>, c: Cert, rest: seq<Cert>)
    ensures rows + RowsFor([c] + rest) == rows + [RowFor(c)] + RowsFor(rest)
  {
    assert ([c] + rest)[1..] == rest;
  }

  lemma {:induction false} BatchCertifiesWanted(t: Table, serial: nat, qs: seq<Request>)
    requires Batch(t, serial, qs).ok
    ensures Batch(t, serial, qs).certs == Numbered(Wanted(qs), serial)
    decreases |qs|
  {
    if qs != [] {
      var one := Issue(t, serial, qs[0]);
      if one.verdict.Certified? {
        BatchCertifiesWanted(one.table, serial + 1, qs[1..]);
        assert Wanted(qs)[1..] == Wanted(qs[1..]);
      } else {
        BatchCertifiesWanted(one.table, serial, qs[1..]);
        assert [] + Wanted(qs[1..]) == Wanted(qs[1..]);
      }
    }
  }

  function RowsFor(certs: seq<Cert>): (rows: seq<Row>)
    ensures |rows| == |certs| && forall j :: 0 <= j < |certs| ==> rows[j] == RowFor(certs[j])
  {
    if certs == [] then [] else [RowFor(certs[0])] + RowsFor(certs[1..])
  }

  // The certificates for a list of well-formed requests, numbered from serial.
  function Numbered(qs: seq<Request>, serial: nat): (certs: seq<Cert>)
    requires forall i :: 0 <= i < |qs| ==> qs[i].Wellformed?
  {
    if qs == [] then []
    else [Cert(serial, qs[0].subject, qs[0].notAfter)] + Numbered(qs[1..], serial + 1)
  }

  lemma {:induction false} BatchConsistent(t: Table, serial: nat, qs: seq<Request>)
    requires Consistent(t)
    ensures Consistent(Batch(t, serial, qs).table)
    decreases |qs|
  {
    if qs != [] {
      IssueConsistent(t, serial, qs[0]);
      var one := Issue(t, serial, qs[0]);
      if !one.verdict.Failed? {
        BatchConsistent(one.table, if one.verdict.Certified? then serial + 1 else serial, qs[1..]);
      }
    }
  }

  // ------------------------------------------------------------ the counter

  // Every serial in the table is spelled the way the programs spell it and is
  // smaller than the next serial to be given out.
  predicate BelowCounter(rows: seq<Row>, n: int) {
    forall i :: 0 <= i < |rows| ==> Addressable(rows[i].serial) && SerialNumber(rows[i].serial) < n
  }

  lemma NoSerialClash(t: Table, serial: nat)
    requires Consistent(t) && BelowCounter(t.rows, serial)
    ensures Key(SerialText(serial)) !in t.serials
  {
    var k := Key(SerialText(serial));
    if k in t.serials {
      var r := t.rows[t.serials[k]];
      KeyFoundIsAddressable(r.serial, serial);
    }
  }

  lemma RowForIsAddressable(c: Cert)
    ensures Addressable(RowFor(c).serial) && SerialNumber(RowFor(c).serial) == c.serial
  {
    SerialTextReadsBack(c.serial);
  }

  // While the counter is ahead of the table, the "serial number has already
  // been issued" refusal cannot happen, and issuing keeps the counter ahead.
  lemma {:induction false} BatchKeepsCounter(t: Table, serial: nat, qs: seq<Request>)
    requires Consistent(t) && BelowCounter(t.rows, serial)
    ensures !Batch(t, serial, qs).serialClash
    ensures BelowCounter(Batch(t, serial, qs).table.rows, Batch(t, serial, qs).serial)
    decreases |qs|
  {
    if qs != [] {
      IssueKeepsCounter(t, serial, qs[0]);
      var one := Issue(t, serial, qs[0]);
      if !one.verdict.Failed? {
        BatchKeepsCounter(one.table, if one.verdict.Certified? then serial + 1 else serial, qs[1..]);
      }
    }
  }

  lemma IssueKeepsCounter(t: Table, serial: nat, q: Request)
    requires Consistent(t) && BelowCounter(t.rows, serial)
    ensures var one := Issue(t, serial, q);
      && !one.serialClash && Consistent(one.table)
      && BelowCounter(one.table.rows, if one.verdict.Certified? then serial + 1 else serial)
  {
    NoSerialClash(t, serial);
    IssueConsistent(t, serial, q);
    IssueAddsRow(t, serial, q);
    if q.Wellformed? { RowForIsAddressable(Cert(serial, q.subject, q.notAfter)); }
  }

  // Evolution and revocation of a known or small serial keep the counter ahead.
  lemma EvolvesKeepsCounter(a: seq<Row>, b: seq<Row>, n: int)
    requires Evolves(a, b) && |a| == |b| && BelowCounter(a, n)
    ensures BelowCounter(b, n)
  {
    forall i | 0 <= i < |b| ensures Addressable(b[i].serial) && SerialNumber(b[i].serial) < n {
      assert RowEvolves(a[i], b[i]);
    }
  }

  // After a revocation the counter is ahead exactly when no serial at or above
  // it was imported.
  lemma RevokeKeepsCounter(t: Table, c: Cert, addOnly: bool, text: Option<string>, n: int)
    requires Consistent(t) && BelowCounter(t.rows, n)
    requires Revoke(t, c, addOnly, text).ok
    ensures BelowCounter(Revoke(t, c, addOnly, text).table.rows, n) <==> c.serial < n
  {
    var t', i := Revoke(t, c, addOnly, text).table, RevokedAt(t, c);
    RevokeTouches(t, c, addOnly, text);
    RowForIsAddressable(c);
    if i < |t.rows| { KeyFoundIsAddressable(t.rows[i].serial, c.serial); }
    assert Addressable(t'.rows[i].serial) && SerialNumber(t'.rows[i].serial) == c.serial;
    assert forall j :: 0 <= j < |t'.rows| && j != i ==> t'.rows[j] == t.rows[j];
  }

  // ------------------------------------------------------------ after issue

  // Any certificate the program issued can be found again by revocation, in
  // whatever state its row is by then, and is revoked exactly when it is not
  // revoked yet and the argument is acceptable.
  lemma RevokeAfterIssue(t: Table, serial: nat, q: Request, later: Table, text: Option<string>)
    requires Consistent(t) && Issue(t, serial, q).verdict.Certified?
    requires Consistent(later) && Evolves(Issue(t, serial, q).table.rows, later.rows)
    ensures var c, i := Cert(serial, q.subject, q.notAfter), |t.rows|;
      && Find(later, serial) == Some(i) && later.rows[i].name == NameKey(c)
      && (Revoke(later, c, false, text).ok <==> later.rows[i].Type() != 'R' && text.Some?)
  {
    var c, i := Cert(serial, q.subject, q.notAfter), |t.rows|;
    assert Issue(t, serial, q).table.rows[i] == RowFor(c);
    assert RowEvolves(RowFor(c), later.rows[i]);
  }

  // The row do_revoke adds for an unknown serial is the row its retry finds.
  lemma ImportedRowIsFound(t: Table, c: Cert)
    requires Consistent(t) && Find(t, c.serial).None? && Insert(t, RowFor(c)).Some?
    ensures var t' := Insert(t, RowFor(c)).value;
      Find(t', c.serial) == Some(|t.rows|) && t'.rows[|t.rows|].name == NameKey(c)
        && t'.rows[|t.rows|].Type() != 'R'
  {
  }

  // -------------------------------------------------------- unique subjects

  // Among rows the programs wrote, a certificate with an empty subject never
  // clashes by name when its serial is new.
  lemma EmptySubjectNeverClashes(t: Table, serial: nat, notAfter: string)
    requires Consistent(t) && NativeFrom(t.rows, 0) && Key(SerialText(serial)) !in t.serials
    ensures NameKey(Cert(serial, "", notAfter)) !in t.names
  {
    var name := SerialText(serial);
    if name in t.names {
      var r := t.rows[t.names[name]];
      assert Native(r);
      SerialTextReadsBack(serial);
    }
  }

  // The name index is not rebuilt inside a run: a subject whose certificate
  // expired in this run is still refused, although a fresh load would take it.
  lemma ExpiredNameStillBlocks(rows: seq<Row>, now: int, name: string)
    requires Open(rows, true).Some?
    ensures var t := Open(rows, true).value;
      name in t.names <==> exists i :: 0 <= i < |rows| && rows[i].Type() == 'V' && rows[i].name == name
    ensures Open(ExpireRows(rows, now), true).Some?
    ensures var again := Open(ExpireRows(rows, now), true).value;
      name in again.names <==>
        exists i :: 0 <= i < |rows| && rows[i].Type() == 'V' && !Expires(rows[i], now) && rows[i].name == name
  {
    var after := ExpireRows(rows, now);
    assert forall i :: 0 <= i < |rows| ==>
      after[i].name == rows[i].name && after[i].serial == rows[i].serial &&
      (after[i].Type() == 'V' <==> rows[i].Type() == 'V' && !Expires(rows[i], now));
    NamesIndexed(rows, name);
    NamesIndexed(after, name);
  }

  lemma NamesIndexed(rows: seq<Row>, name: string)
    requires NamesDistinct(rows)
    ensures name in NameIndex(rows) <==> exists i :: 0 <= i < |rows| && rows[i].Type() == 'V' && rows[i].name == name
  {
    NameIndexFiles(rows);
  }
}
