// The certificate table as a value: its rows, the two indexes built over them,
// and what issuing, revoking, importing and expiring do to it.
module Table {
  import opened Text
  import opened Asn1Time
  import opened Revocation
  import TxtDb

  // One database row. The programs only ever look at the first letter of the
  // type field: V valid, R revoked, E expired, S suspended.
  datatype Row = Row(
    kind: string, exp: string, rev: string, serial: string, file: string, name: string)
  {
    function Type(): char { if kind == "" then '\0' else kind[0] }

    function Fields(): TxtDb.Fields { [kind, exp, rev, serial, file, name] }
  }

  // serials and names file the position of a row under its key. names holds
  // the rows that were valid when they were filed; it is empty, and never
  // consulted, unless subjects must be unique.
  datatype Table = Table(
    rows: seq<Row>, unique: bool, serials: map<string, nat>, names: map<string, nat>)

  // What the programs read off a certificate. The subject is the one-line text
  // of its name: empty, or starting with a slash.
  datatype Cert = Cert(serial: int, subject: string, notAfter: string)

  predicate OneLine(s: string) {
    (s == "" || s[0] == '/') && forall i :: 0 <= i < |s| ==> ' ' <= s[i] <= '~'
  }

  // An empty subject is replaced by the serial number.
  function NameKey(c: Cert): string {
    if c.subject == "" then SerialText(c.serial) else c.subject
  }

  function RowFor(c: Cert): Row {
    Row("V", c.notAfter, "", SerialText(c.serial), "unknown", NameKey(c))
  }

  // ----------------------------------------------------- opening a database

  predicate SerialsDistinct(rows: seq<Row>) {
    forall i, j :: 0 <= i < j < |rows| ==> Key(rows[i].serial) != Key(rows[j].serial)
  }

  // No two valid rows have the same name.
  predicate NamesDistinct(rows: seq<Row>) {
    forall i, j :: 0 <= i < j < |rows| && rows[i].Type() == 'V' && rows[j].Type() == 'V' ==>
      rows[i].name != rows[j].name
  }

  function SerialIndex(rows: seq<Row>): map<string, nat> {
    if rows == [] then map[]
    else SerialIndex(rows[..|rows| - 1])[Key(rows[|rows| - 1].serial) := |rows| - 1]
  }

  function NameIndex(rows: seq<Row>): map<string, nat> {
    if rows == [] then map[]
    else
      var last := rows[|rows| - 1];
      var before := NameIndex(rows[..|rows| - 1]);
      if last.Type() == 'V' then before[last.name := |rows| - 1] else before
  }

  // index_index: fails on a duplicate key.
  function Open(rows: seq<Row>, unique: bool): Option<Table> {
    if SerialsDistinct(rows) && (unique ==> NamesDistinct(rows))
    then Some(Table(rows, unique, SerialIndex(rows), if unique then NameIndex(rows) else map[]))
    else None
  }

  // The row checks the program makes after reading the file.
  predicate RowOk(r: Row, objects: Objects) {
    && (r.Type() != 'R' ==> r.rev == "")
    && (r.Type() == 'R' ==> Unpack(r.rev, objects).ok)
    && AnyTime(r.exp).Some?
    && SerialOk(r.serial)
  }

  predicate RowsOk(rows: seq<Row>, objects: Objects) {
    forall i :: 0 <= i < |rows| ==> RowOk(rows[i], objects)
  }

  // --------------------------------------------------------------- changing

  // TXT_DB_insert: refused when any index the row qualifies for has its key.
  function Insert(t: Table, r: Row): Option<Table> {
    if Key(r.serial) in t.serials then None
    else if t.unique && r.Type() == 'V' && r.name in t.names then None
    else Some(Table(
      t.rows + [r], t.unique, t.serials[Key(r.serial) := |t.rows|],
      if t.unique && r.Type() == 'V' then t.names[r.name := |t.rows|] else t.names))
  }

  // A certificate request, reduced to what decides its fate.
  datatype Request =
    | Broken     // could not be loaded, violates the policy, and the like
    | Refused    // its signature does not match
    | Wellformed(subject: string, notAfter: string, confirmed: bool, signs: bool)

  datatype Verdict = Failed | Skipped | Certified

  datatype IssueResult = IssueResult(verdict: Verdict, table: Table, serialClash: bool)

  // do_body from the clash check on, for the certificate numbered serial.
  function Issue(t: Table, serial: nat, q: Request): (r: IssueResult) {
    match q
    case Broken => IssueResult(Failed, t, false)
    case Refused => IssueResult(Skipped, t, false)
    case Wellformed(subject, notAfter, confirmed, signs) =>
      var row := RowFor(Cert(serial, subject, notAfter));
      if t.unique && row.name in t.names then IssueResult(Failed, t, false)
      else if Key(row.serial) in t.serials then IssueResult(Failed, t, true)
      else if !confirmed then IssueResult(Skipped, t, false)
      else if !signs then IssueResult(Failed, t, false)
      else
        match Insert(t, row)
        case None => IssueResult(Failed, t, false)
        case Some(t') => IssueResult(Certified, t', false)
  }

  datatype BatchResult = BatchResult(
    ok: bool, table: Table, serial: nat, certs: seq<Cert>, serialClash: bool)

  // The issuing section: requests in order, each success taking the next
  // serial, a failure ending the run.
  function Batch(t: Table, serial: nat, qs: seq<Request>): (r: BatchResult)
    decreases |qs|
  {
    if qs == [] then BatchResult(true, t, serial, [], false)
    else
      var one := Issue(t, serial, qs[0]);
      match one.verdict
      case Failed => BatchResult(false, one.table, serial, [], one.serialClash)
      case Skipped => Batch(one.table, serial, qs[1..])
      case Certified =>
        var rest := Batch(one.table, serial + 1, qs[1..]);
        rest.(certs := [Cert(serial, qs[0].subject, qs[0].notAfter)] + rest.certs)
  }

  datatype RevokeResult = RevokeResult(ok: bool, table: Table)

  function Find(t: Table, serial: int): (r: Option<nat>)
    ensures r.Some? ==> r.value < |t.rows|
  {
    var k := Key(SerialText(serial));
    if k in t.serials && t.serials[k] < |t.rows| then Some(t.serials[k]) else None
  }

  // text is what make_revocation_str yields for the revocation asked for.
  function RevokeFound(t: Table, i: nat, c: Cert, addOnly: bool, text: Option<string>): RevokeResult
    requires i < |t.rows|
  {
    var row := t.rows[i];
    if row.name != NameKey(c) || addOnly || row.Type() == 'R' || text.None? then RevokeResult(false, t)
    else RevokeResult(true, t.(rows := t.rows[i := row.(kind := "R", rev := text.value)]))
  }

  // do_revoke: an unknown certificate is added as a valid row first; with
  // addOnly (the -valid option) that is all that happens.
  function Revoke(t: Table, c: Cert, addOnly: bool, text: Option<string>): RevokeResult {
    match Find(t, c.serial)
    case Some(i) => RevokeFound(t, i, c, addOnly, text)
    case None =>
      match Insert(t, RowFor(c))
      case None => RevokeResult(false, t)
      case Some(t') =>
        if addOnly then RevokeResult(true, t') else RevokeFound(t', |t.rows|, c, addOnly, text)
  }

  // The row is marked as expired: the comparison does not come out positive.
  predicate Expires(r: Row, now: int) {
    r.Type() == 'V' && AnyTime(r.exp).Some? && Compare(AnyTime(r.exp).value, now) <= 0
  }

  function Expire(r: Row, now: int): Row {
    if Expires(r, now) then r.(kind := "E") else r
  }

  function ExpireRows(rows: seq<Row>, now: int): (e: seq<Row>)
    ensures |e| == |rows|
    ensures forall i :: 0 <= i < |rows| ==> e[i] == Expire(rows[i], now)
  {
    seq(|rows|, i requires 0 <= i < |rows| => Expire(rows[i], now))
  }

  function ExpiredCount(rows: seq<Row>, now: int): (n: nat)
    ensures n <= |rows|
  {
    if rows == [] then 0
    else ExpiredCount(rows[..|rows| - 1], now) + (if Expires(rows[|rows| - 1], now) then 1 else 0)
  }

  // ------------------------------------------------------------- invariants

  // The serial index files every row, exactly once and nothing else.
  predicate SerialsFiled(t: Table) {
    && (forall i :: 0 <= i < |t.rows| ==> Key(t.rows[i].serial) in t.serials && t.serials[Key(t.rows[i].serial)] == i)
    && (forall k :: k in t.serials ==> t.serials[k] < |t.rows| && Key(t.rows[t.serials[k]].serial) == k)
  }

  // The name index may hold rows that are no longer valid, but it holds every
  // valid one.
  predicate NamesFiled(t: Table) {
    if t.unique then
      && (forall i :: 0 <= i < |t.rows| && t.rows[i].Type() == 'V' ==>
            t.rows[i].name in t.names && t.names[t.rows[i].name] == i)
      && (forall k :: k in t.names ==> t.names[k] < |t.rows| && t.rows[t.names[k]].name == k)
    else t.names == map[]
  }

  predicate Consistent(t: Table) { SerialsFiled(t) && NamesFiled(t) }

  lemma ConsistentIsDistinct(t: Table)
    requires Consistent(t)
    ensures SerialsDistinct(t.rows) && (t.unique ==> NamesDistinct(t.rows))
  {
  }

  lemma {:induction false} SerialIndexFiles(rows: seq<Row>)
    requires SerialsDistinct(rows)
    ensures SerialsFiled(Table(rows, false, SerialIndex(rows), map[]))
  {
    if rows != [] {
      var p := rows[..|rows| - 1];
      SerialIndexFiles(p);
      var s := SerialIndex(p);
      forall i | 0 <= i < |rows|
        ensures Key(rows[i].serial) in SerialIndex(rows) && SerialIndex(rows)[Key(rows[i].serial)] == i
      {
        if i < |p| { assert p[i] == rows[i]; }
      }
      forall k | k in SerialIndex(rows)
        ensures SerialIndex(rows)[k] < |rows| && Key(rows[SerialIndex(rows)[k]].serial) == k
      {
        if k != Key(rows[|rows| - 1].serial) { assert k in s && p[s[k]] == rows[s[k]]; }
      }
    }
  }

  lemma {:induction false} NameIndexFiles(rows: seq<Row>)
    requires NamesDistinct(rows)
    ensures NamesFiled(Table(rows, true, map[], NameIndex(rows)))
    ensures forall k :: k in NameIndex(rows) ==> rows[NameIndex(rows)[k]].Type() == 'V'
  {
    if rows != [] {
      var p, last := rows[..|rows| - 1], rows[|rows| - 1];
      NameIndexFiles(p);
      var s, n := NameIndex(p), NameIndex(rows);
      forall i | 0 <= i < |rows| && rows[i].Type() == 'V'
        ensures rows[i].name in n && n[rows[i].name] == i
      {
        if i < |p| { assert p[i] == rows[i]; }
      }
      forall k | k in n
        ensures n[k] < |rows| && rows[n[k]].name == k && rows[n[k]].Type() == 'V'
      {
        if !(last.Type() == 'V' && k == last.name) { assert k in s && p[s[k]] == rows[s[k]]; }
      }
    }
  }

  // Indexing one more row.
  lemma SerialIndexStep(rows: seq<Row>, i: nat)
    requires i < |rows| && SerialsDistinct(rows[..i])
    ensures SerialIndex(rows[..i + 1]) == SerialIndex(rows[..i])[Key(rows[i].serial) := i]
    ensures SerialsDistinct(rows[..i + 1]) <==> Key(rows[i].serial) !in SerialIndex(rows[..i])
  {
    var p, q := rows[..i], rows[..i + 1];
    assert q[..i] == p && q[i] == rows[i];
    SerialIndexFiles(p);
    var k := Key(rows[i].serial);
    if k in SerialIndex(p) {
      var j := SerialIndex(p)[k];
      assert q[j] == p[j];
    } else {
      forall a, b | 0 <= a < b < |q| ensures Key(q[a].serial) != Key(q[b].serial) {
        assert q[a] == p[a];
        if b < i { assert q[b] == p[b]; }
      }
    }
  }

  lemma NameIndexStep(rows: seq<Row>, i: nat)
    requires i < |rows| && NamesDistinct(rows[..i])
    ensures NameIndex(rows[..i + 1]) ==
      if rows[i].Type() == 'V' then NameIndex(rows[..i])[rows[i].name := i] else NameIndex(rows[..i])
    ensures NamesDistinct(rows[..i + 1]) <==> rows[i].Type() == 'V' ==> rows[i].name !in NameIndex(rows[..i])
  {
    var p, q := rows[..i], rows[..i + 1];
    assert q[..i] == p && q[i] == rows[i];
    NameIndexFiles(p);
    if rows[i].Type() == 'V' && rows[i].name in NameIndex(p) {
      var j := NameIndex(p)[rows[i].name];
      assert q[j] == p[j];
    } else {
      forall a, b | 0 <= a < b < |q| && q[a].Type() == 'V' && q[b].Type() == 'V' ensures q[a].name != q[b].name {
        assert q[a] == p[a];
        if b < i { assert q[b] == p[b]; }
      }
    }
  }

  lemma OpenConsistent(rows: seq<Row>, unique: bool)
    requires Open(rows, unique).Some?
    ensures Consistent(Open(rows, unique).value)
  {
    SerialIndexFiles(rows);
    if unique { NameIndexFiles(rows); }
  }

  lemma InsertConsistent(t: Table, r: Row)
    requires Consistent(t) && Insert(t, r).Some?
    ensures Consistent(Insert(t, r).value)
  {
  }

  lemma IssueConsistent(t: Table, serial: nat, q: Request)
    requires Consistent(t)
    ensures Consistent(Issue(t, serial, q).table)
  {
    if q.Wellformed? {
      var row := RowFor(Cert(serial, q.subject, q.notAfter));
      if Insert(t, row).Some? { InsertConsistent(t, row); }
    }
  }

  lemma RevokeFoundConsistent(t: Table, i: nat, c: Cert, addOnly: bool, text: Option<string>)
    requires Consistent(t) && i < |t.rows|
    ensures Consistent(RevokeFound(t, i, c, addOnly, text).table)
  {
  }

  lemma RevokeConsistent(t: Table, c: Cert, addOnly: bool, text: Option<string>)
    requires Consistent(t)
    ensures Consistent(Revoke(t, c, addOnly, text).table)
  {
    match Find(t, c.serial)
    case Some(i) => RevokeFoundConsistent(t, i, c, addOnly, text);
    case None =>
      if Insert(t, RowFor(c)).Some? {
        InsertConsistent(t, RowFor(c));
        RevokeFoundConsistent(Insert(t, RowFor(c)).value, |t.rows|, c, addOnly, text);
      }
  }

  lemma ExpireConsistent(t: Table, now: int)
    requires Consistent(t)
    ensures Consistent(t.(rows := ExpireRows(t.rows, now)))
  {
  }
}
