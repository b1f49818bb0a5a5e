// When the issuing section goes through: exactly when no request is at fault,
// told from the requests and the names on record alone.
module Batches {
  import opened Text
  import opened Table
  import opened Lifecycle

  // The name under which request i will be filed: its number is the counter
  // plus the certificates made before it.
  function NameAt(serial: nat, qs: seq<Request>, i: nat): string
    requires i < |qs| && qs[i].Wellformed?
  {
    NameKey(Cert(serial + |Wanted(qs[..i])|, qs[i].subject, qs[i].notAfter))
  }

  predicate Confirmed(q: Request) { q.Wellformed? && q.confirmed }

  // Request i is not at fault: it is not broken, can be signed if it is
  // confirmed, and its name is neither on record nor, where subjects must be
  // unique, that of a certificate made before it in the batch.
  predicate Faultless(t: Table, serial: nat, qs: seq<Request>, i: nat)
    requires i < |qs|
  {
    && !qs[i].Broken?
    && (Confirmed(qs[i]) ==> qs[i].signs)
    && (qs[i].Wellformed? && t.unique ==> NameAt(serial, qs, i) !in t.names)
    && (qs[i].Wellformed? && t.unique ==> NewInBatch(serial, qs, i))
  }

  predicate NewInBatch(serial: nat, qs: seq<Request>, i: nat)
    requires i < |qs| && qs[i].Wellformed?
  {
    forall j :: 0 <= j < i && Confirmed(qs[j]) ==> NameAt(serial, qs, j) != NameAt(serial, qs, i)
  }

  predicate AllFaultless(t: Table, serial: nat, qs: seq<Request>) {
    forall i :: 0 <= i < |qs| ==> Faultless(t, serial, qs, i)
  }

  // While the counter is ahead of the table, that decides it: serials are no
  // matter, and a request that was declined or refused stands in nobody's way.
  lemma {:induction false} BatchSucceeds(t: Table, serial: nat, qs: seq<Request>)
    requires Consistent(t) && BelowCounter(t.rows, serial)
    ensures Batch(t, serial, qs).ok <==> AllFaultless(t, serial, qs)
    decreases |qs|
  {
    if qs != [] {
      var one := Issue(t, serial, qs[0]);
      FirstDecides(t, serial, qs);
      if one.verdict.Failed? {
        assert !Faultless(t, serial, qs, 0);
      } else {
        IssueKeepsCounter(t, serial, qs[0]);
        BatchSucceeds(one.table, After(serial, qs[0]), qs[1..]);
        RestFaultless(t, serial, qs);
      }
    }
  }

  // The counter behind one request.
  function After(serial: nat, q: Request): nat {
    if Confirmed(q) then serial + 1 else serial
  }

  lemma FirstDecides(t: Table, serial: nat, qs: seq<Request>)
    requires Consistent(t) && BelowCounter(t.rows, serial) && qs != []
    ensures Issue(t, serial, qs[0]).verdict.Failed? <==> !Faultless(t, serial, qs, 0)
    ensures Issue(t, serial, qs[0]).verdict.Certified? <==> Faultless(t, serial, qs, 0) && Confirmed(qs[0])
  {
    IssueDecides(t, serial, qs[0]);
    assert qs[..0] == [];
  }

  // One request, told from the names on record.
  lemma IssueDecides(t: Table, serial: nat, q: Request)
    requires Consistent(t) && BelowCounter(t.rows, serial)
    ensures Issue(t, serial, q).verdict.Failed? <==>
      || q.Broken? || (Confirmed(q) && !q.signs)
      || (q.Wellformed? && t.unique && NameKey(Cert(serial, q.subject, q.notAfter)) in t.names)
    ensures Issue(t, serial, q).verdict.Certified? <==> !Issue(t, serial, q).verdict.Failed? && Confirmed(q)
  {
    NoSerialClash(t, serial);
  }

  // The remaining requests are faultless for the table behind the first one
  // exactly when they are for the table in front of it.
  lemma RestFaultless(t: Table, serial: nat, qs: seq<Request>)
    requires Consistent(t) && BelowCounter(t.rows, serial) && qs != [] && Faultless(t, serial, qs, 0)
    ensures AllFaultless(t, serial, qs) <==>
      AllFaultless(Issue(t, serial, qs[0]).table, After(serial, qs[0]), qs[1..])
  {
    var t', serial', rest := Issue(t, serial, qs[0]).table, After(serial, qs[0]), qs[1..];
    forall i: nat | i < |rest| ensures Faultless(t', serial', rest, i) <==> Faultless(t, serial, qs, i + 1) {
      NextFaultless(t, serial, qs, i);
    }
    if AllFaultless(t', serial', rest) {
      forall i: nat | i < |qs| ensures Faultless(t, serial, qs, i) {
        if i > 0 { assert Faultless(t', serial', rest, i - 1); }
      }
    }
    if AllFaultless(t, serial, qs) {
      forall i: nat | i < |rest| ensures Faultless(t', serial', rest, i) {
        assert Faultless(t, serial, qs, i + 1);
      }
    }
  }

  lemma NextFaultless(t: Table, serial: nat, qs: seq<Request>, i: nat)
    requires Consistent(t) && BelowCounter(t.rows, serial) && i + 1 < |qs| && Faultless(t, serial, qs, 0)
    ensures Faultless(Issue(t, serial, qs[0]).table, After(serial, qs[0]), qs[1..], i) <==>
      Faultless(t, serial, qs, i + 1)
  {
    var t', serial', rest := Issue(t, serial, qs[0]).table, After(serial, qs[0]), qs[1..];
    FirstDecides(t, serial, qs);
    NamesAfter(t, serial, qs);
    if qs[i + 1].Wellformed? {
      NameShifts(serial, qs, i);
      NewInRest(serial, qs, i);
    }
  }

  lemma NewInRest(serial: nat, qs: seq<Request>, i: nat)
    requires i + 1 < |qs| && qs[i + 1].Wellformed?
    ensures NewInBatch(serial, qs, i + 1) <==>
      && NewInBatch(After(serial, qs[0]), qs[1..], i)
      && (Confirmed(qs[0]) ==> NameAt(serial, qs, 0) != NameAt(serial, qs, i + 1))
  {
    var serial', rest := After(serial, qs[0]), qs[1..];
    NameShifts(serial, qs, i);
    forall j: nat | j < i && Confirmed(rest[j]) ensures NameAt(serial', rest, j) == NameAt(serial, qs, j + 1) {
      NameShifts(serial, qs, j);
    }
    if NewInBatch(serial', rest, i) {
      forall j | 0 < j < i + 1 && Confirmed(qs[j]) ensures NameAt(serial, qs, j) != NameAt(serial, qs, i + 1) {
        assert Confirmed(rest[j - 1]);
      }
    }
    if NewInBatch(serial, qs, i + 1) {
      forall j | 0 <= j < i && Confirmed(rest[j]) ensures NameAt(serial', rest, j) != NameAt(serial', rest, i) {
        assert Confirmed(qs[j + 1]);
      }
    }
  }

  // The names on record behind the first request.
  lemma NamesAfter(t: Table, serial: nat, qs: seq<Request>)
    requires Consistent(t) && BelowCounter(t.rows, serial) && qs != [] && Faultless(t, serial, qs, 0)
    ensures var t' := Issue(t, serial, qs[0]).table;
      && t'.unique == t.unique
      && (t.unique ==> t'.names.Keys == t.names.Keys + (if Confirmed(qs[0]) then {NameAt(serial, qs, 0)} else {}))
  {
    FirstDecides(t, serial, qs);
    IssueFilesName(t, serial, qs[0]);
    assert qs[..0] == [];
  }

  lemma IssueFilesName(t: Table, serial: nat, q: Request)
    ensures var one := Issue(t, serial, q);
      && one.table.unique == t.unique
      && (!one.verdict.Certified? ==> one.table.names == t.names)
      && (one.verdict.Certified? && t.unique ==>
            one.table.names.Keys == t.names.Keys + {NameKey(Cert(serial, q.subject, q.notAfter))})
  {
  }

  lemma NameShifts(serial: nat, qs: seq<Request>, i: nat)
    requires i + 1 < |qs| && qs[i + 1].Wellformed?
    ensures NameAt(After(serial, qs[0]), qs[1..], i) == NameAt(serial, qs, i + 1)
  {
    assert qs[..i + 1][1..] == qs[1..][..i];
  }
}
