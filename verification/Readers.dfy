// The three readers of the certificate table -- the CRL generator, the OCSP
// responder and the status query -- and what they agree on.
module Readers {
  import opened Text
  import opened Asn1Time
  import opened Revocation
  import opened Table

  // ------------------------------------------------------------------- CRLs

  datatype CrlEntry = CrlEntry(
    serial: int, time: string, reason: int, invalidity: Option<string>, hold: Option<Oid>)

  function RevokedRows(rows: seq<Row>): (r: seq<Row>)
    ensures forall i :: 0 <= i < |r| ==> r[i].Type() == 'R'
  {
    if rows == [] then []
    else RevokedRows(rows[..|rows| - 1]) + (if rows[|rows| - 1].Type() == 'R' then [rows[|rows| - 1]] else [])
  }

  // make_revoked: the entry for a row whose revocation field can be unpacked.
  function Entry(r: Row, objects: Objects): CrlEntry
    requires SerialOk(r.serial) && Unpack(r.rev, objects).ok
  {
    var u := Unpack(r.rev, objects);
    UnpackedCodes(r.rev, objects);
    CrlEntry(SerialNumber(r.serial), u.time.value, u.reason, u.invalidity, u.hold)
  }

  // The entries of the CRL made from the rows, in table order.
  function CrlEntries(rows: seq<Row>, objects: Objects): (es: seq<CrlEntry>)
    requires RowsOk(rows, objects)
    ensures |es| == |RevokedRows(rows)|
  {
    if rows == [] then []
    else
      var last := rows[|rows| - 1];
      CrlEntries(rows[..|rows| - 1], objects) + (if last.Type() == 'R' then [Entry(last, objects)] else [])
  }

  predicate HasReason(es: seq<CrlEntry>) {
    exists i :: 0 <= i < |es| && es[i].reason != NO_REASON
  }

  // ------------------------------------------------------------------- OCSP

  datatype CertId = CertId(digestKnown: bool, issuer: nat, serial: int)

  // The identifier in an answer: the one that was asked about, or, under the
  // -rcid option, one hashed afresh from the issuer alone.
  datatype AnswerId = Asked(id: CertId) | Rehashed(ca: nat)

  datatype Extension = NoExtension | InvalidityDate(time: string) | HoldInstruction(oid: Oid)

  datatype Status = Good | Unknown | RevokedStatus(time: string, reason: int, ext: Extension)

  datatype Single = Single(id: AnswerId, status: Status)

  datatype Response = MalformedRequest | InternalError | Successful(singles: seq<Single>)

  // What one certificate of a known issuer gets.
  datatype Answer = BadTime | Silent | Answered(status: Status)

  type SameIssuer = (nat, CertId) -> bool

  function RevokedAnswer(rev: string, objects: Objects): Answer {
    var u := Unpack(rev, objects);
    if u.time.None? then BadTime
    else
      var ext := if u.invalidity.Some? then InvalidityDate(u.invalidity.value)
                 else if u.hold.Some? then HoldInstruction(u.hold.value)
                 else NoExtension;
      Answered(RevokedStatus(u.time.value, u.reason, ext))
  }

  function AnswerFor(t: Table, serial: int, objects: Objects): Answer
    requires SerialsFiled(t)
  {
    match Find(t, serial)
    case None => Answered(Unknown)
    case Some(i) =>
      var row := t.rows[i];
      if row.Type() == 'V' then Answered(Good)
      else if row.Type() == 'R' then RevokedAnswer(row.rev, objects)
      else Silent
  }

  function FirstIssuer(cas: seq<nat>, id: CertId, same: SameIssuer): Option<nat> {
    if cas == [] then None
    else if same(cas[0], id) then Some(cas[0])
    else FirstIssuer(cas[1..], id, same)
  }

  // The whole loop of make_ocsp_response.
  function Singles(
    t: Table, cas: seq<nat>, ids: seq<CertId>, rcid: bool, same: SameIssuer, objects: Objects): Option<seq<Single>>
    requires SerialsFiled(t)
  {
    if ids == [] then Some([])
    else
      var init, id := ids[..|ids| - 1], ids[|ids| - 1];
      match Singles(t, cas, init, rcid, same, objects)
      case None => None
      case Some(done) =>
        if !id.digestKnown then None
        else
          match FirstIssuer(cas, id, same)
          case None => Some(done + [Single(Asked(id), Unknown)])
          case Some(ca) =>
            var aid := if rcid then Rehashed(ca) else Asked(id);
            match AnswerFor(t, id.serial, objects)
            case BadTime => None
            case Silent => Some(done)
            case Answered(s) => Some(done + [Single(aid, s)])
  }

  function Respond(t: Table, cas: seq<nat>, ids: seq<CertId>, rcid: bool, same: SameIssuer, objects: Objects): Response
    requires SerialsFiled(t)
  {
    if ids == [] then MalformedRequest
    else
      match Singles(t, cas, ids, rcid, same, objects)
      case None => InternalError
      case Some(s) => Successful(s)
  }

  // ----------------------------------------------------------------- status

  // The text get_certificate_status looks up: padded to an even number of
  // digits, in upper case.
  function StatusText(s: string): string {
    Upper(if |s| % 2 == 1 then "0" + s else s)
  }

  // The type of the row found for a serial typed in by the user.
  function StatusType(t: Table, s: string): Option<char>
    requires SerialsFiled(t)
  {
    var k := Key(StatusText(s));
    if k in t.serials then Some(t.rows[t.serials[k]].Type()) else None
  }

  // ------------------------------------------------------------------ facts

  lemma CrlStep(rows: seq<Row>, i: nat, objects: Objects)
    requires i < |rows| && RowsOk(rows, objects)
    ensures RowsOk(rows[..i], objects) && RowsOk(rows[..i + 1], objects) && RowOk(rows[i], objects)
    ensures CrlEntries(rows[..i + 1], objects) ==
      CrlEntries(rows[..i], objects) + (if rows[i].Type() == 'R' then [Entry(rows[i], objects)] else [])
  {
    assert rows[..i + 1][..i] == rows[..i];
  }

  lemma HasReasonSnoc(es: seq<CrlEntry>, e: CrlEntry)
    ensures HasReason(es + [e]) <==> HasReason(es) || e.reason != NO_REASON
  {
    var f := es + [e];
    assert f[|es|] == e && forall i :: 0 <= i < |es| ==> f[i] == es[i];
  }

  // The answer to one identifier, whether or not its issuer is known.
  function AnswerTo(t: Table, cas: seq<nat>, id: CertId, same: SameIssuer, objects: Objects): Answer
    requires SerialsFiled(t)
  {
    if !id.digestKnown then BadTime
    else if FirstIssuer(cas, id, same).None? then Answered(Unknown)
    else AnswerFor(t, id.serial, objects)
  }

  function IdFor(cas: seq<nat>, id: CertId, rcid: bool, same: SameIssuer): AnswerId {
    if rcid && FirstIssuer(cas, id, same).Some? then Rehashed(FirstIssuer(cas, id, same).value) else Asked(id)
  }

  lemma SinglesStep(t: Table, cas: seq<nat>, ids: seq<CertId>, i: nat, rcid: bool, same: SameIssuer, objects: Objects)
    requires SerialsFiled(t) && i < |ids| && Singles(t, cas, ids[..i], rcid, same, objects).Some?
    ensures Singles(t, cas, ids[..i + 1], rcid, same, objects) ==
      match AnswerTo(t, cas, ids[i], same, objects)
      case BadTime => None
      case Silent => Singles(t, cas, ids[..i], rcid, same, objects)
      case Answered(s) => Some(Singles(t, cas, ids[..i], rcid, same, objects).value
        + [Single(IdFor(cas, ids[i], rcid, same), s)])
  {
    assert ids[..i + 1][..i] == ids[..i];
  }

  // A loop that fails on a prefix of the identifiers fails on all of them.
  lemma {:induction false} SinglesPrefix(
    t: Table, cas: seq<nat>, ids: seq<CertId>, n: nat, rcid: bool, same: SameIssuer, objects: Objects)
    requires SerialsFiled(t) && n <= |ids|
    requires Singles(t, cas, ids[..n], rcid, same, objects).None?
    ensures Singles(t, cas, ids, rcid, same, objects).None?
    decreases |ids|
  {
    if n == |ids| {
      assert ids[..n] == ids;
    } else {
      var init := ids[..|ids| - 1];
      assert init[..n] == ids[..n];
      SinglesPrefix(t, cas, init, n, rcid, same, objects);
    }
  }

  lemma {:induction false} RevokedRowsAre(rows: seq<Row>, r: Row)
    ensures r in RevokedRows(rows) <==> r in rows && r.Type() == 'R'
  {
    if rows != [] {
      var p, last := rows[..|rows| - 1], rows[|rows| - 1];
      RevokedRowsAre(p, r);
      assert rows == p + [last];
    }
  }

  lemma {:induction false} RevokedRowsDistinct(rows: seq<Row>)
    requires SerialsDistinct(rows)
    ensures SerialsDistinct(RevokedRows(rows))
  {
    if rows != [] {
      var p, last := rows[..|rows| - 1], rows[|rows| - 1];
      RevokedRowsDistinct(p);
      forall i | 0 <= i < |RevokedRows(p)| ensures Key(RevokedRows(p)[i].serial) != Key(last.serial) {
        RevokedRowsAre(p, RevokedRows(p)[i]);
        var j :| 0 <= j < |p| && p[j] == RevokedRows(p)[i];
        assert rows[j] == p[j];
      }
    }
  }

  // Each revoked row has its entry, at the same place.
  lemma {:induction false} EntryAt(rows: seq<Row>, objects: Objects, i: nat)
    requires RowsOk(rows, objects) && i < |RevokedRows(rows)|
    ensures RowOk(RevokedRows(rows)[i], objects)
    ensures CrlEntries(rows, objects)[i] == Entry(RevokedRows(rows)[i], objects)
  {
    var p := rows[..|rows| - 1];
    assert RowOk(rows[|rows| - 1], objects);
    if i < |RevokedRows(p)| {
      EntryAt(p, objects, i);
    }
  }

  // A certificate of a known issuer is answered "good" exactly when its row is
  // valid, "revoked" exactly when it is revoked and the time can be read,
  // "unknown" exactly when there is none -- and a row of any other type gets no
  // answer at all. The responder does not check the rows it loads: one that is
  // revoked at an unreadable time makes the whole response an error.
  lemma AnswerByType(t: Table, serial: int, objects: Objects)
    requires SerialsFiled(t)
    ensures var a := AnswerFor(t, serial, objects);
      match Find(t, serial)
      case None => a == Answered(Unknown)
      case Some(i) =>
        var timed := UtcOk(Head(t.rows[i].rev));
        && (a == Answered(Good) <==> t.rows[i].Type() == 'V')
        && ((a.Answered? && a.status.RevokedStatus?) <==> t.rows[i].Type() == 'R' && timed)
        && (a == BadTime <==> t.rows[i].Type() == 'R' && !timed)
        && (a == Silent <==> t.rows[i].Type() != 'V' && t.rows[i].Type() != 'R')
        && a != Answered(Unknown)
  {
    if Find(t, serial).Some? {
      UnpackedCodes(t.rows[Find(t, serial).value].rev, objects);
    }
  }

  // Rows that pass the loader's checks have readable times.
  lemma CheckedRowsAreTimed(rows: seq<Row>, i: nat, objects: Objects)
    requires RowsOk(rows, objects) && i < |rows| && rows[i].Type() == 'R'
    ensures UtcOk(Head(rows[i].rev))
  {
    assert RowOk(rows[i], objects);
    UnpackedCodes(rows[i].rev, objects);
  }

  // The extensions a CRL entry carries. The generator attaches each of the two
  // that is set; the responder stops at the first. Never more than one is set.
  function EntryExtensions(e: CrlEntry): set<Extension> {
    (if e.invalidity.Some? then {InvalidityDate(e.invalidity.value)} else {})
    + (if e.hold.Some? then {HoldInstruction(e.hold.value)} else {})
  }

  predicate SaysRevoked(t: Table, serial: int, objects: Objects)
    requires SerialsFiled(t)
  {
    var a := AnswerFor(t, serial, objects);
    a.Answered? && a.status.RevokedStatus?
  }

  // The CRL and the responder tell the same about serial n: the CRL lists it
  // once if the responder says "revoked", and not at all otherwise.
  ghost predicate AgreeOn(t: Table, es: seq<CrlEntry>, n: int, objects: Objects)
    requires SerialsFiled(t)
  {
    && (SaysRevoked(t, n, objects) <==> exists i :: 0 <= i < |es| && es[i].serial == n)
    && (forall i, j :: 0 <= i < j < |es| ==> !(es[i].serial == n && es[j].serial == n))
  }

  predicate RevokedAddressable(rows: seq<Row>) {
    forall i :: 0 <= i < |rows| && rows[i].Type() == 'R' ==> Addressable(rows[i].serial)
  }

  ghost predicate AgreeEverywhere(t: Table, es: seq<CrlEntry>, objects: Objects)
    requires SerialsFiled(t)
  {
    forall n: int :: AgreeOn(t, es, n, objects)
  }

  // Exactly when CRL and responder agree on every serial number: when every
  // revoked row spells its serial the way the programs do. The loader also
  // accepts lower-case digits, which the look-ups never find.
  lemma CrlAgreesWithOcsp(t: Table, objects: Objects)
    requires Consistent(t) && RowsOk(t.rows, objects)
    ensures AgreeEverywhere(t, CrlEntries(t.rows, objects), objects) <==> RevokedAddressable(t.rows)
  {
    var es := CrlEntries(t.rows, objects);
    if RevokedAddressable(t.rows) {
      forall n: int ensures AgreeOn(t, es, n, objects) { AddressableAgree(t, n, objects); }
    }
    if AgreeEverywhere(t, es, objects) { AgreedAreAddressable(t, objects); }
  }

  lemma AgreedAreAddressable(t: Table, objects: Objects)
    requires Consistent(t) && RowsOk(t.rows, objects)
    requires AgreeEverywhere(t, CrlEntries(t.rows, objects), objects)
    ensures RevokedAddressable(t.rows)
  {
    forall p | 0 <= p < |t.rows| && t.rows[p].Type() == 'R' ensures Addressable(t.rows[p].serial) {
      assert RowOk(t.rows[p], objects);
      AgreedIsAddressable(t, p, objects);
    }
  }

  lemma RevokedHasEntry(rows: seq<Row>, p: nat, objects: Objects) returns (i: nat)
    requires RowsOk(rows, objects) && p < |rows| && rows[p].Type() == 'R'
    ensures i < |RevokedRows(rows)| && RevokedRows(rows)[i] == rows[p]
    ensures CrlEntries(rows, objects)[i] == Entry(rows[p], objects)
  {
    RevokedRowsAre(rows, rows[p]);
    i :| 0 <= i < |RevokedRows(rows)| && RevokedRows(rows)[i] == rows[p];
    EntryAt(rows, objects, i);
  }

  lemma EntryHasRevoked(rows: seq<Row>, i: nat, objects: Objects) returns (p: nat)
    requires RowsOk(rows, objects) && i < |RevokedRows(rows)|
    ensures p < |rows| && rows[p].Type() == 'R' && RevokedRows(rows)[i] == rows[p]
    ensures CrlEntries(rows, objects)[i] == Entry(rows[p], objects)
  {
    RevokedRowsAre(rows, RevokedRows(rows)[i]);
    p :| 0 <= p < |rows| && rows[p] == RevokedRows(rows)[i];
    EntryAt(rows, objects, i);
  }

  lemma AddressableAgree(t: Table, n: int, objects: Objects)
    requires Consistent(t) && RowsOk(t.rows, objects) && RevokedAddressable(t.rows)
    ensures AgreeOn(t, CrlEntries(t.rows, objects), n, objects)
  {
    var es := CrlEntries(t.rows, objects);
    AnswerByType(t, n, objects);
    if SaysRevoked(t, n, objects) {
      var p := Find(t, n).value;
      assert RowOk(t.rows[p], objects);
      KeyFoundIsAddressable(t.rows[p].serial, n);
      var i := RevokedHasEntry(t.rows, p, objects);
      assert es[i].serial == n;
    }
    forall i: nat | i < |es| && es[i].serial == n ensures SaysRevoked(t, n, objects) {
      EntryIsFound(t, i, objects);
    }
    EntriesDiffer(t, objects);
  }

  // The row of an entry is the one its number finds.
  lemma EntryIsFound(t: Table, i: nat, objects: Objects)
    requires Consistent(t) && RowsOk(t.rows, objects) && RevokedAddressable(t.rows)
    requires i < |CrlEntries(t.rows, objects)|
    ensures SaysRevoked(t, CrlEntries(t.rows, objects)[i].serial, objects)
    ensures Key(RevokedRows(t.rows)[i].serial) == Key(SerialText(CrlEntries(t.rows, objects)[i].serial))
  {
    var p := EntryHasRevoked(t.rows, i, objects);
    AddressableKey(t.rows[p].serial);
    CheckedRowsAreTimed(t.rows, p, objects);
    AnswerByType(t, CrlEntries(t.rows, objects)[i].serial, objects);
  }

  lemma EntriesDiffer(t: Table, objects: Objects)
    requires Consistent(t) && RowsOk(t.rows, objects) && RevokedAddressable(t.rows)
    ensures var es := CrlEntries(t.rows, objects);
      forall i, j :: 0 <= i < j < |es| ==> es[i].serial != es[j].serial
  {
    RevokedRowsDistinct(t.rows);
    var es := CrlEntries(t.rows, objects);
    forall i, j | 0 <= i < j < |es| ensures es[i].serial != es[j].serial {
      EntryIsFound(t, i, objects);
      EntryIsFound(t, j, objects);
    }
  }

  lemma AgreedIsAddressable(t: Table, p: nat, objects: Objects)
    requires Consistent(t) && RowsOk(t.rows, objects)
    requires p < |t.rows| && t.rows[p].Type() == 'R' && SerialOk(t.rows[p].serial)
    requires AgreeOn(t, CrlEntries(t.rows, objects), SerialNumber(t.rows[p].serial), objects)
    ensures Addressable(t.rows[p].serial)
  {
    var es := CrlEntries(t.rows, objects);
    var n := SerialNumber(t.rows[p].serial);
    var i := RevokedHasEntry(t.rows, p, objects);
    assert es[i].serial == n;
    AnswerByType(t, n, objects);
    var q := Find(t, n).value;
    assert RowOk(t.rows[q], objects);
    KeyFoundIsAddressable(t.rows[q].serial, n);
    var j := RevokedHasEntry(t.rows, q, objects);
    assert es[j].serial == n;
    assert i == j;
  }

  // Where they agree, they also say the same: time, reason and extension.
  lemma SameDetails(t: Table, i: nat, objects: Objects)
    requires Consistent(t) && RowsOk(t.rows, objects) && RevokedAddressable(t.rows)
    requires i < |CrlEntries(t.rows, objects)|
    ensures var e, a := CrlEntries(t.rows, objects)[i], AnswerFor(t, CrlEntries(t.rows, objects)[i].serial, objects);
      && a.Answered? && a.status.RevokedStatus?
      && a.status.time == e.time && a.status.reason == e.reason && RevocationCode(e.reason)
      && EntryExtensions(e) == if a.status.ext.NoExtension? then {} else {a.status.ext}
  {
    var p := EntryHasRevoked(t.rows, i, objects);
    AddressableKey(t.rows[p].serial);
    assert Find(t, CrlEntries(t.rows, objects)[i].serial) == Some(p);
    SameReport(t.rows[p], objects);
  }

  // The two reports made from one revoked row.
  lemma SameReport(r: Row, objects: Objects)
    requires SerialOk(r.serial) && Unpack(r.rev, objects).ok
    ensures var e, a := Entry(r, objects), RevokedAnswer(r.rev, objects);
      && a.Answered? && a.status.RevokedStatus?
      && a.status.time == e.time && a.status.reason == e.reason && RevocationCode(e.reason)
      && EntryExtensions(e) == if a.status.ext.NoExtension? then {} else {a.status.ext}
  {
    UnpackedCodes(r.rev, objects);
  }

  // The status query finds the row the responder answers from, however the
  // user types the digits.
  lemma {:induction false} StatusFindsSameRow(t: Table, s: string)
    requires Consistent(t) && AllHex(s)
    ensures StatusType(t, s) ==
      match Find(t, HexNumber(s)) { case None => None case Some(i) => Some(t.rows[i].Type()) }
  {
    var u := StatusText(s);
    var padded := if |s| % 2 == 1 then "0" + s else s;
    UpperKeepsNumber(padded);
    if |s| % 2 == 1 {
      HexNumberZero(padded);
      assert padded[1..] == s;
    }
    KeyIsDigits(u);
    var n := HexNumber(s);
    SerialTextReadsBack(n);
    KeyIsDigits(SerialText(n));
    assert SerialNumber(SerialText(n)) == n;
  }

  lemma {:induction false} UpperKeepsNumber(s: string)
    requires AllHex(s)
    ensures AllUpperHex(Upper(s)) && HexNumber(Upper(s)) == HexNumber(s)
  {
    if s != "" {
      var p := s[..|s| - 1];
      UpperKeepsNumber(p);
      assert Upper(s)[..|s| - 1] == Upper(p);
      assert forall i :: 0 <= i < |s| ==> IsHex(s[i]) && IsUpperHex(Upper(s)[i]);
      assert HexVal(Upper(s)[|s| - 1]) == HexVal(s[|s| - 1]);
    }
  }

  // Some CA certificate is of the issuer that is asked about.
  predicate Known(cas: seq<nat>, id: CertId, same: SameIssuer) {
    exists i :: 0 <= i < |cas| && same(cas[i], id)
  }

  // The CA certificate at i is, and none in front of it.
  predicate FirstAt(cas: seq<nat>, i: int, id: CertId, same: SameIssuer) {
    0 <= i < |cas| && same(cas[i], id) && forall j :: 0 <= j < i ==> !same(cas[j], id)
  }

  // The search through the CA certificates ends at the first one that fits, and
  // fails only when none does.
  lemma {:induction false} IssuerIsFirst(cas: seq<nat>, id: CertId, same: SameIssuer)
    ensures FirstIssuer(cas, id, same).Some? <==> Known(cas, id, same)
    ensures forall i :: FirstAt(cas, i, id, same) ==> FirstIssuer(cas, id, same) == Some(cas[i])
    ensures Known(cas, id, same) ==> exists i :: FirstAt(cas, i, id, same)
  {
    if cas != [] {
      var rest := cas[1..];
      IssuerIsFirst(rest, id, same);
      assert forall i :: 0 <= i < |rest| ==> rest[i] == cas[i + 1];
      if same(cas[0], id) {
        assert FirstAt(cas, 0, id, same);
      } else {
        FirstLater(cas, id, same);
      }
    }
  }

  lemma FirstLater(cas: seq<nat>, id: CertId, same: SameIssuer)
    requires cas != [] && !same(cas[0], id)
    ensures forall i :: FirstAt(cas, i, id, same) <==> FirstAt(cas[1..], i - 1, id, same)
    ensures Known(cas, id, same) <==> Known(cas[1..], id, same)
    ensures (exists i :: FirstAt(cas[1..], i, id, same)) ==> exists i :: FirstAt(cas, i, id, same)
  {
    var rest := cas[1..];
    assert forall i :: 0 < i < |cas| ==> cas[i] == rest[i - 1];
    assert forall i :: 0 <= i < |rest| ==> rest[i] == cas[i + 1];
    if i :| FirstAt(rest, i, id, same) { assert FirstAt(cas, i + 1, id, same); }
  }

  // What an identifier must be answered: under which identifier, and what.
  ghost predicate Answers(
    s: Single, t: Table, cas: seq<nat>, id: CertId, rcid: bool, same: SameIssuer, objects: Objects)
    requires SerialsFiled(t)
  {
    if !Known(cas, id, same) then s == Single(Asked(id), Unknown)
    else
      && AnswerFor(t, id.serial, objects) == Answered(s.status)
      && (!rcid ==> s.id == Asked(id))
      && (rcid ==> exists i :: FirstAt(cas, i, id, same) && s.id == Rehashed(cas[i]))
  }

  // The identifiers that are answered: all but those of a known issuer whose row
  // is neither valid nor revoked.
  function Answerable(t: Table, cas: seq<nat>, ids: seq<CertId>, same: SameIssuer): seq<CertId> {
    if ids == [] then []
    else
      var init, id := ids[..|ids| - 1], ids[|ids| - 1];
      var skip := Known(cas, id, same) && Find(t, id.serial).Some? &&
        t.rows[Find(t, id.serial).value].Type() !in {'V', 'R'};
      Answerable(t, cas, init, same) + (if skip then [] else [id])
  }

  // An identifier that makes the whole response an error: its digest is not
  // known, or a known issuer's certificate was revoked at an unreadable time.
  predicate Spoils(t: Table, cas: seq<nat>, id: CertId, same: SameIssuer) {
    || !id.digestKnown
    || (Known(cas, id, same) && Find(t, id.serial).Some? &&
        var row := t.rows[Find(t, id.serial).value];
        row.Type() == 'R' && !UtcOk(Head(row.rev)))
  }

  // A request without identifiers is malformed; for any other one there is a
  // response exactly when no identifier spoils it.
  lemma ResponseExists(
    t: Table, cas: seq<nat>, ids: seq<CertId>, rcid: bool, same: SameIssuer, objects: Objects)
    requires SerialsFiled(t)
    ensures var r := Respond(t, cas, ids, rcid, same, objects);
      && (r.MalformedRequest? <==> ids == [])
      && (r.InternalError? <==> exists i :: 0 <= i < |ids| && Spoils(t, cas, ids[i], same))
  {
    SinglesExist(t, cas, ids, rcid, same, objects);
  }

  lemma {:induction false} SinglesExist(
    t: Table, cas: seq<nat>, ids: seq<CertId>, rcid: bool, same: SameIssuer, objects: Objects)
    requires SerialsFiled(t)
    ensures Singles(t, cas, ids, rcid, same, objects).Some? <==>
      forall i :: 0 <= i < |ids| ==> !Spoils(t, cas, ids[i], same)
  {
    if ids != [] {
      var init := ids[..|ids| - 1];
      SinglesExist(t, cas, init, rcid, same, objects);
      LastSpoils(t, cas, ids, rcid, same, objects);
      assert forall i :: 0 <= i < |init| ==> init[i] == ids[i];
    }
  }

  lemma LastSpoils(t: Table, cas: seq<nat>, ids: seq<CertId>, rcid: bool, same: SameIssuer, objects: Objects)
    requires SerialsFiled(t) && ids != []
    ensures Singles(t, cas, ids, rcid, same, objects).Some? <==>
      && Singles(t, cas, ids[..|ids| - 1], rcid, same, objects).Some?
      && !Spoils(t, cas, ids[|ids| - 1], same)
  {
    AnswerByType(t, ids[|ids| - 1].serial, objects);
    IssuerIsFirst(cas, ids[|ids| - 1], same);
  }

  // A concrete row that the responder loads although the CRL generator would not:
  // whoever asks about it gets an error, and so does everyone who asks about
  // something else in the same request.
  lemma UntimedRowSpoils(ids: seq<CertId>, i: nat, ca: nat, rcid: bool, same: SameIssuer, objects: Objects)
    requires i < |ids| && same(ca, ids[i]) && ids[i].serial == 1
    ensures var rows := [Row("R", "", "", "01", "unknown", "/CN=a")];
      && Open(rows, true).Some? && SerialsFiled(Open(rows, true).value) && !RowsOk(rows, objects)
      && Respond(Open(rows, true).value, [ca], ids, rcid, same, objects) == InternalError
  {
    var r := Row("R", "", "", "01", "unknown", "/CN=a");
    OneRow(r);
    SerialTextReadsBack(1);
    OneIsFiled();
    var t := Open([r], true).value;
    assert Find(t, 1) == Some(0) && Head(r.rev) == "";
    assert !RowOk([r][0], objects);
    assert Known([ca], ids[i], same) by { assert same([ca][0], ids[i]); }
    assert Spoils(t, [ca], ids[i], same);
    ResponseExists(t, [ca], ids, rcid, same, objects);
  }

  lemma OneIsFiled()
    ensures Key(SerialText(1)) == Key("01")
  {
    assert SerialText(1) == ByteHex(0) + ['0', '1'] == "01";
  }

  // It has one answer, in request order, for every identifier except those whose
  // row is neither valid nor revoked.
  lemma {:induction false} ResponseIsExpected(
    t: Table, cas: seq<nat>, ids: seq<CertId>, rcid: bool, same: SameIssuer, objects: Objects)
    requires SerialsFiled(t) && Singles(t, cas, ids, rcid, same, objects).Some?
    ensures var a, s := Answerable(t, cas, ids, same), Singles(t, cas, ids, rcid, same, objects).value;
      && |s| == |a|
      && forall i :: 0 <= i < |a| ==> Answers(s[i], t, cas, a[i], rcid, same, objects)
  {
    if ids != [] {
      ResponseIsExpected(t, cas, ids[..|ids| - 1], rcid, same, objects);
      AnswerByType(t, ids[|ids| - 1].serial, objects);
      IssuerIsFirst(cas, ids[|ids| - 1], same);
    }
  }

  // Under -rcid the answers for two certificates of one issuer carry the same
  // identifier, so a client cannot tell which is which; without it they never do.
  lemma RcidDropsSerial(t: Table, cas: seq<nat>, a: CertId, b: CertId, rcid: bool, same: SameIssuer, objects: Objects)
    requires SerialsFiled(t)
    requires a.digestKnown && b.digestKnown && a != b
    requires Known(cas, a, same) && forall i :: 0 <= i < |cas| ==> same(cas[i], a) == same(cas[i], b)
    requires AnswerFor(t, a.serial, objects).Answered? && AnswerFor(t, b.serial, objects).Answered?
    ensures var s := Singles(t, cas, [a, b], rcid, same, objects);
      s.Some? && |s.value| == 2 && (s.value[0].id == s.value[1].id <==> rcid)
  {
    SameFirst(cas, a, b, same);
    OneSingle(t, cas, [], a, rcid, same, objects);
    OneSingle(t, cas, [a], b, rcid, same, objects);
    assert [] + [a] == [a] && [a] + [b] == [a, b];
  }

  lemma SameFirst(cas: seq<nat>, a: CertId, b: CertId, same: SameIssuer)
    requires Known(cas, a, same) && forall i :: 0 <= i < |cas| ==> same(cas[i], a) == same(cas[i], b)
    ensures FirstIssuer(cas, a, same).Some? && FirstIssuer(cas, b, same) == FirstIssuer(cas, a, same)
  {
    IssuerIsFirst(cas, a, same);
    var i :| FirstAt(cas, i, a, same);
    IssuerIsFirst(cas, b, same);
    assert FirstAt(cas, i, b, same);
  }

  lemma OneSingle(
    t: Table, cas: seq<nat>, init: seq<CertId>, id: CertId, rcid: bool, same: SameIssuer, objects: Objects)
    requires SerialsFiled(t) && Singles(t, cas, init, rcid, same, objects).Some?
    requires id.digestKnown && FirstIssuer(cas, id, same).Some? && AnswerFor(t, id.serial, objects).Answered?
    ensures Singles(t, cas, init + [id], rcid, same, objects) ==
      Some(Singles(t, cas, init, rcid, same, objects).value
        + [Single(IdFor(cas, id, rcid, same), AnswerFor(t, id.serial, objects).status)])
  {
    assert (init + [id])[..|init|] == init;
  }

  // A revoked row whose number is spelled in another way than the programs do,
  // and that is also the number of another revoked row.
  ghost predicate Doubles(rows: seq<Row>, p: nat, q: nat)
    requires p < |rows| && q < |rows|
  {
    && p != q && rows[p].Type() == 'R' && rows[q].Type() == 'R' && !Addressable(rows[p].serial)
    && SerialOk(rows[p].serial) && SerialOk(rows[q].serial)
    && SerialNumber(rows[p].serial) == SerialNumber(rows[q].serial)
  }

  // Every number is in the CRL at most once exactly when no such pair exists:
  // the index tells spellings apart, the CRL does not.
  lemma EachOnce(t: Table, objects: Objects)
    requires Consistent(t) && RowsOk(t.rows, objects)
    ensures var es := CrlEntries(t.rows, objects);
      (forall i, j :: 0 <= i < j < |es| ==> es[i].serial != es[j].serial) <==>
        forall p: nat, q: nat :: p < |t.rows| && q < |t.rows| ==> !Doubles(t.rows, p, q)
  {
    var es := CrlEntries(t.rows, objects);
    if p: nat, q: nat :| p < |t.rows| && q < |t.rows| && Doubles(t.rows, p, q) {
      ListedTwice(t, p, q, objects);
    } else {
      forall i: nat, j: nat | i < j < |es| ensures es[i].serial != es[j].serial {
        if es[i].serial == es[j].serial {
          var p, q := TwiceListed(t, i, j, objects);
          assert false;
        }
      }
    }
  }

  lemma ListedTwice(t: Table, p: nat, q: nat, objects: Objects)
    requires Consistent(t) && RowsOk(t.rows, objects) && p < |t.rows| && q < |t.rows| && Doubles(t.rows, p, q)
    ensures var es := CrlEntries(t.rows, objects);
      exists i: nat, j: nat :: i < j < |es| && es[i].serial == es[j].serial
  {
    var es := CrlEntries(t.rows, objects);
    var i := RevokedHasEntry(t.rows, p, objects);
    var j := RevokedHasEntry(t.rows, q, objects);
    assert Key(t.rows[p].serial) != Key(t.rows[q].serial);
    assert es[i].serial == es[j].serial && i != j;
    assert if i < j then es[i].serial == es[j].serial else es[j].serial == es[i].serial;
  }

  lemma TwiceListed(t: Table, i: nat, j: nat, objects: Objects) returns (p: nat, q: nat)
    requires Consistent(t) && RowsOk(t.rows, objects) && i < j < |CrlEntries(t.rows, objects)|
    requires CrlEntries(t.rows, objects)[i].serial == CrlEntries(t.rows, objects)[j].serial
    ensures p < |t.rows| && q < |t.rows| && (Doubles(t.rows, p, q) || Doubles(t.rows, q, p))
  {
    p := EntryHasRevoked(t.rows, i, objects);
    q := EntryHasRevoked(t.rows, j, objects);
    assert RowOk(t.rows[p], objects) && RowOk(t.rows[q], objects);
    RevokedRowsDistinct(t.rows);
    assert Key(t.rows[p].serial) != Key(t.rows[q].serial);
    if Addressable(t.rows[p].serial) && Addressable(t.rows[q].serial) {
      AddressableKey(t.rows[p].serial);
      AddressableKey(t.rows[q].serial);
    }
  }

  function SpelledTwice(clock: string): seq<Row> {
    [Row("R", clock, clock, "0A", "unknown", "/CN=a"), Row("R", clock, clock, "0a", "unknown", "/CN=b")]
  }

  // A concrete pair the loader accepts: number 10 is listed twice.
  lemma TwoSpellingsListed(objects: Objects)
    ensures var clock := Format(Tm(2030, 1, 1, 0, 0, 0));
      var rows := SpelledTwice(clock);
      && RowsOk(rows, objects) && Open(rows, true).Some?
      && |CrlEntries(rows, objects)| == 2
      && CrlEntries(rows, objects)[0].serial == CrlEntries(rows, objects)[1].serial == 10
  {
    var now := Tm(2030, 1, 1, 0, 0, 0);
    ClockIsUtc(now);
    TwoSpellings(Format(now), objects);
  }

  lemma TwoSpellings(clock: string, objects: Objects)
    requires UtcOk(clock) && ',' !in clock
    ensures var rows := SpelledTwice(clock);
      && RowsOk(rows, objects) && Open(rows, true).Some?
      && |CrlEntries(rows, objects)| == 2
      && CrlEntries(rows, objects)[0].serial == CrlEntries(rows, objects)[1].serial == 10
  {
    var r, q := SpelledTwice(clock)[0], SpelledTwice(clock)[1];
    HeadIs(clock, |clock|);
    UnpackSplit(clock, clock, None, None, objects);
    LowerCaseText();
    UpperCaseText();
    assert RowOk(r, objects) && RowOk(q, objects);
    TwoRevokedRows(r, q, objects);
  }

  lemma UpperCaseText()
    ensures SerialOk("0A") && SerialNumber("0A") == 10 && Key("0A") != Key("0a")
  {
    var s := "0A";
    assert |s| == 2 && s[0] == '0' && s[1] == 'A' && s == "" + ['0', 'A'];
    HexNumberPair("", '0', 'A');
    assert Key("0A") == "A" by { assert "0A"[1..] == "A"; }
    assert Key("0a") == "a" by { assert "0a"[1..] == "a"; }
  }

  lemma TwoRevokedRows(r: Row, q: Row, objects: Objects)
    requires RowOk(r, objects) && RowOk(q, objects) && r.Type() == 'R' && q.Type() == 'R'
    requires Key(r.serial) != Key(q.serial)
    ensures RowsOk([r, q], objects) && Open([r, q], true).Some?
    ensures CrlEntries([r, q], objects) == [Entry(r, objects), Entry(q, objects)]
  {
    TwoOpen(r, q);
    TwoEntries(r, q, objects);
  }

  lemma TwoOpen(r: Row, q: Row)
    requires Key(r.serial) != Key(q.serial) && r.Type() == 'R' && q.Type() == 'R'
    ensures Open([r, q], true).Some?
  {
    var rows := [r, q];
    assert SerialsDistinct(rows) && NamesDistinct(rows);
  }

  lemma TwoEntries(r: Row, q: Row, objects: Objects)
    requires RowOk(r, objects) && RowOk(q, objects) && r.Type() == 'R' && q.Type() == 'R'
    ensures RowsOk([r, q], objects)
    ensures CrlEntries([r, q], objects) == [Entry(r, objects), Entry(q, objects)]
  {
    OneRevokedRow(r, objects);
    OneMoreEntry([r], q, objects);
    assert [r] + [q] == [r, q];
  }

  lemma OneMoreEntry(rows: seq<Row>, q: Row, objects: Objects)
    requires RowsOk(rows, objects) && RowOk(q, objects) && q.Type() == 'R'
    ensures RowsOk(rows + [q], objects)
    ensures CrlEntries(rows + [q], objects) == CrlEntries(rows, objects) + [Entry(q, objects)]
  {
    var all := rows + [q];
    assert all[..|rows|] == rows && all[..|all|] == all;
    forall i | 0 <= i < |all| ensures RowOk(all[i], objects) {
      if i < |rows| { assert all[i] == rows[i]; }
    }
    CrlStep(all, |rows|, objects);
  }

  // A concrete row the loader accepts, in lower case: the CRL lists number 10,
  // and the responder says it does not know it.
  lemma LowerCaseIsMissed(objects: Objects)
    ensures var clock := Format(Tm(2030, 1, 1, 0, 0, 0));
      var rows := [Row("R", clock, clock, "0a", "unknown", "/CN=a")];
      && RowsOk(rows, objects) && Open(rows, true).Some? && SerialsFiled(Open(rows, true).value)
      && |CrlEntries(rows, objects)| == 1 && CrlEntries(rows, objects)[0].serial == 10
      && AnswerFor(Open(rows, true).value, 10, objects) == Answered(Unknown)
  {
    var now := Tm(2030, 1, 1, 0, 0, 0);
    ClockIsUtc(now);
    LowerCaseRow(Format(now), Format(now), objects);
  }

  lemma LowerCaseRow(exp: string, rev: string, objects: Objects)
    requires UtcOk(exp) && UtcOk(rev) && ',' !in rev
    ensures var rows := [Row("R", exp, rev, "0a", "unknown", "/CN=a")];
      && RowsOk(rows, objects) && Open(rows, true).Some? && SerialsFiled(Open(rows, true).value)
      && |CrlEntries(rows, objects)| == 1 && CrlEntries(rows, objects)[0].serial == 10
      && AnswerFor(Open(rows, true).value, 10, objects) == Answered(Unknown)
  {
    var r := Row("R", exp, rev, "0a", "unknown", "/CN=a");
    LowerCaseText();
    HeadIs(rev, |rev|);
    UnpackSplit(rev, rev, None, None, objects);
    assert RowOk(r, objects) && Entry(r, objects).serial == 10;
    OneRevokedRow(r, objects);
    NotListed(Open([r], true).value, 10, objects);
  }

  lemma NotListed(t: Table, n: int, objects: Objects)
    requires SerialsFiled(t) && Key(SerialText(n)) !in t.serials
    ensures AnswerFor(t, n, objects) == Answered(Unknown)
  {
  }

  lemma LowerCaseText()
    ensures SerialOk("0a") && !Addressable("0a") && SerialNumber("0a") == 10
    ensures Key(SerialText(10)) != Key("0a")
  {
    var s := "0a";
    assert |s| == 2 && s[0] == '0' && s[1] == 'a' && !IsUpperHex(s[1]);
    assert s == "" + ['0', 'a'];
    HexNumberPair("", '0', 'a');
    if Key(SerialText(10)) == Key(s) { KeyFoundIsAddressable(s, 10); }
  }

  lemma OneRevokedRow(r: Row, objects: Objects)
    requires RowOk(r, objects) && r.Type() == 'R'
    ensures RowsOk([r], objects) && CrlEntries([r], objects) == [Entry(r, objects)]
    ensures Open([r], true) == Some(Table([r], true, map[Key(r.serial) := 0], map[]))
    ensures SerialsFiled(Open([r], true).value)
  {
    var rows := [r];
    assert rows[..0] == [] && rows[|rows| - 1] == r;
    assert RowOk(rows[0], objects);
    assert CrlEntries([], objects) == [] && CrlEntries(rows, objects) == [] + [Entry(r, objects)];
    OneRow(r);
  }

  lemma OneRow(r: Row)
    requires r.Type() == 'R'
    ensures Open([r], true) == Some(Table([r], true, map[Key(r.serial) := 0], map[]))
    ensures SerialsFiled(Open([r], true).value)
  {
    var rows := [r];
    assert rows[..0] == [] && rows[|rows| - 1] == r;
    assert SerialIndex([]) == map[] && SerialIndex(rows) == map[Key(r.serial) := 0];
    assert NameIndex([]) == map[] && NameIndex(rows) == map[];
    OpenConsistent(rows, true);
  }

  // Revoked rows are listed in the order of the table.
  lemma {:induction false} RevokedInOrder(rows: seq<Row>, i: nat, j: nat) returns (p: nat, q: nat)
    requires i < j < |RevokedRows(rows)|
    ensures p < q < |rows| && RevokedRows(rows)[i] == rows[p] && RevokedRows(rows)[j] == rows[q]
  {
    var init := rows[..|rows| - 1];
    if j < |RevokedRows(init)| {
      p, q := RevokedInOrder(init, i, j);
    } else {
      RevokedRowsAre(init, RevokedRows(init)[i]);
      p :| 0 <= p < |init| && init[p] == RevokedRows(init)[i];
      q := |rows| - 1;
    }
  }
}
