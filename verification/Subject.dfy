// Editing the entries of a name in place: deleting one entry, and the loop
// that deletes every e-mail entry while it scans. Set numbers group entries
// into RDNs; deleting must neither merge nor split the groups that stay.
module Subject {
  import opened Text
  import opened Policy
  import opened NameCheck

  // X509_NAME_delete_entry: when the deletion leaves a gap in the set numbers,
  // all later ones move down.
  function DeleteEntry(name: Name, loc: nat): (r: Name)
    requires loc < |name|
    ensures |r| == |name| - 1
  {
    var left := name[..loc] + name[loc + 1..];
    if loc == |left| then left
    else
      var prev := if loc != 0 then left[loc - 1].set_ else name[loc].set_ - 1;
      if prev + 1 < left[loc].set_ then left[..loc] + Lowered(left[loc..]) else left
  }

  function Lowered(entries: Name): (r: Name)
    ensures |r| == |entries|
    ensures forall i :: 0 <= i < |r| ==> r[i] == entries[i].(set_ := entries[i].set_ - 1)
  {
    seq(|entries|, i requires 0 <= i < |entries| => entries[i].(set_ := entries[i].set_ - 1))
  }

  // ------------------------------------------------------ the specification

  // The entries that are not of the given type, in order.
  function Without(name: Name, oid: ObjectId): (r: Name)
    ensures |r| <= |name|
    ensures forall i :: 0 <= i < |r| ==> r[i].oid != oid
  {
    if name == [] then []
    else Without(name[..|name| - 1], oid) + (if name[|name| - 1].oid != oid then [name[|name| - 1]] else [])
  }

  // Set numbers counted afresh from zero: a new number wherever the old one
  // changes from one entry to the next.
  function Regroup(name: Name): (r: Name)
    ensures SameValues(r, name)
  {
    if name == [] then []
    else
      var n := |name| - 1;
      var init := Regroup(name[..n]);
      var s := if n == 0 then 0
               else if name[n].set_ == name[n - 1].set_ then init[n - 1].set_
               else init[n - 1].set_ + 1;
      init + [name[n].(set_ := s)]
  }

  // Set numbers as the library leaves them: from zero, without gaps.
  predicate Canonical(name: Name) {
    (name != [] ==> name[0].set_ == 0) &&
    forall i, j :: 0 <= i < |name| && j == i + 1 && j < |name| ==> name[i].set_ <= name[j].set_ <= name[i].set_ + 1
  }

  // Same attributes, and the same entries share an RDN.
  predicate SameShape(a: Name, b: Name) {
    SameValues(a, b) &&
    forall i, j :: 0 <= i < j < |a| ==> (a[i].set_ == a[j].set_ <==> b[i].set_ == b[j].set_)
  }

  // ------------------------------------------------------------ the program

  // The deletion loop of do_body. The index steps back inside the call, so the
  // entry that moved up is looked at next.
  method DeleteAll(name: Name, oid: ObjectId) returns (dn: Name)
    ensures SameValues(dn, Without(name, oid))
    ensures Canonical(name) ==> dn == Regroup(Without(name, oid))
  {
    dn := name;
    var i := IndexByObj(dn, oid, -1);
    while i >= 0
      invariant -1 <= i < |dn|
      invariant i >= 0 ==> dn[i].oid == oid
      invariant forall k :: 0 <= k < (if i >= 0 then i else |dn|) ==> dn[k].oid != oid
      invariant KeepsRest(dn, name, oid)
      decreases |dn|
    {
      DeleteStep(dn, name, i, oid);
      DeleteKeepsFront(dn, i);
      dn := DeleteEntry(dn, i);
      i := i - 1;
      i := IndexByObj(dn, oid, i);
    }
    WithoutAll(dn, oid);
    if Canonical(name) { CanonicalIsRegrouped(dn); }
  }

  // What is still to be kept of name is still in dn, in the same RDNs.
  predicate KeepsRest(dn: Name, name: Name, oid: ObjectId) {
    && SameValues(Without(dn, oid), Without(name, oid))
    && (Canonical(name) ==> Canonical(dn) && Regroup(Without(dn, oid)) == Regroup(Without(name, oid)))
  }

  lemma DeleteStep(dn: Name, name: Name, i: nat, oid: ObjectId)
    requires KeepsRest(dn, name, oid) && i < |dn| && dn[i].oid == oid
    ensures KeepsRest(DeleteEntry(dn, i), name, oid)
  {
    DeleteKeepsRest(dn, i, oid);
    SameValuesTransitive(Without(DeleteEntry(dn, i), oid), Without(dn, oid), Without(name, oid));
    if Canonical(name) { DeleteKeepsGroups(dn, i, oid); }
  }

  lemma SameValuesTransitive(a: Name, b: Name, c: Name)
    requires SameValues(a, b) && SameValues(b, c)
    ensures SameValues(a, c)
  {
  }

  // The subject of the new certificate: from the policy, or the request's own
  // name when it is preserved; then without e-mail entries unless wanted. What
  // is matched is the name with its string types put right, and against it when
  // the certificate signs itself.
  method BuildSubject(policy: seq<Rule>, request: Name, issuer: Name, selfsign: bool, dict: Dictionary,
                      preserve: bool, emailDn: bool, email: ObjectId, msie: bool) returns (r: Result<Name>)
    ensures var name := RetagAll(request, email, msie);
      r.Accepted? <==>
        && AllPass(name, email, emailDn)
        && forall i :: 0 <= i < |policy| ==> Satisfies(policy[i], name, if selfsign then name else issuer, dict)
    ensures r.Accepted? ==> forall i :: 0 <= i < |policy| ==> dict(policy[i].attribute).Some?
    ensures r.Accepted? ==>
      var name := RetagAll(request, email, msie);
      var full := if preserve then name else Renumbered(Regrouped(policy, name, dict));
      if emailDn then r.value == full
      else SameValues(r.value, Without(full, email)) &&
           (Canonical(full) ==> r.value == Regroup(Without(full, email)))
  {
    var ok, name := CheckName(request, email, emailDn, msie);
    if !ok { return Rejected(BadString); }
    var ca := if selfsign then name else issuer;
    PolicyAccepts(policy, name, ca, dict);
    r := MatchPolicy(policy, name, ca, dict);
    if r.Rejected? { return; }
    var subject := if preserve then name else r.value;
    if !emailDn {
      subject := DeleteAll(subject, email);
    }
    r := Accepted(subject);
  }

  // ------------------------------------------------------------------ facts

  // A name built by the policy loop is canonical, and each entry is an RDN of its own.
  lemma RenumberedIsCanonical(entries: Name)
    ensures Canonical(Renumbered(entries))
    ensures forall i, j :: 0 <= i < j < |entries| ==> Renumbered(entries)[i].set_ != Renumbered(entries)[j].set_
  {
  }

  lemma {:induction false} WithoutAll(name: Name, oid: ObjectId)
    requires forall k :: 0 <= k < |name| ==> name[k].oid != oid
    ensures Without(name, oid) == name
  {
    if name != [] {
      WithoutAll(name[..|name| - 1], oid);
      assert name == name[..|name| - 1] + [name[|name| - 1]];
    }
  }

  lemma {:induction false} CanonicalIsRegrouped(name: Name)
    requires Canonical(name)
    ensures Regroup(name) == name
  {
    if name != [] {
      var n := |name| - 1;
      CanonicalIsRegrouped(name[..n]);
      if n > 0 { assert name[n - 1].set_ <= name[n].set_ <= name[n - 1].set_ + 1; }
      assert name == name[..n] + [name[n]];
    }
  }

  lemma {:induction false} RegroupIsCanonical(name: Name)
    ensures Canonical(Regroup(name))
  {
    if name != [] { RegroupIsCanonical(name[..|name| - 1]); }
  }

  // Regrouping keeps the RDNs of a name whose set numbers never decrease.
  lemma {:induction false} RegroupKeepsShape(name: Name)
    requires forall i, j :: 0 <= i < j < |name| ==> name[i].set_ <= name[j].set_
    ensures SameShape(Regroup(name), name)
  {
    if name != [] {
      var n := |name| - 1;
      var init := name[..n];
      RegroupKeepsShape(init);
      RegroupIsCanonical(init);
      CanonicalOrder(Regroup(init));
      var r := Regroup(name);
      forall i, j | 0 <= i < j < |name| ensures r[i].set_ == r[j].set_ <==> name[i].set_ == name[j].set_ {
        assert r[i] == Regroup(init)[i] && name[i] == init[i];
        if j < n { assert r[j] == Regroup(init)[j] && name[j] == init[j]; }
        else if i < n - 1 { assert r[n - 1] == Regroup(init)[n - 1] && name[n - 1] == init[n - 1]; }
      }
    }
  }

  lemma {:induction false} CanonicalOrder(name: Name)
    requires Canonical(name)
    ensures forall i, j :: 0 <= i < j < |name| ==> name[i].set_ <= name[j].set_
  {
    if name != [] {
      var n := |name| - 1;
      CanonicalOrder(name[..n]);
      forall i, j | 0 <= i < j < |name| ensures name[i].set_ <= name[j].set_ {
        if j == n && i < n - 1 { assert name[..n][i].set_ <= name[..n][n - 1].set_; }
        else if j < n { assert name[..n][i].set_ <= name[..n][j].set_; }
      }
    }
  }

  lemma DeleteKeepsFront(name: Name, loc: nat)
    requires loc < |name|
    ensures forall k :: 0 <= k < loc ==> DeleteEntry(name, loc)[k] == name[k]
  {
  }

  // By how much the deletion at loc lowers the numbers behind it.
  function Gap(name: Name, loc: nat): int
    requires loc < |name|
  {
    if loc + 1 == |name| then 0
    else if (if loc != 0 then name[loc - 1].set_ else name[loc].set_ - 1) + 1 < name[loc + 1].set_ then 1
    else 0
  }

  lemma DeletedAt(name: Name, loc: nat, i: nat)
    requires loc < |name| && i < |name| - 1
    ensures DeleteEntry(name, loc)[i] ==
      if i < loc then name[i] else name[i + 1].(set_ := name[i + 1].set_ - Gap(name, loc))
  {
    var left := name[..loc] + name[loc + 1..];
    assert left[i] == name[if i < loc then i else i + 1];
    if loc < |left| {
      assert left[loc] == name[loc + 1];
      if loc > 0 { assert left[loc - 1] == name[loc - 1]; }
    }
  }

  lemma DeleteShape(name: Name, loc: nat)
    requires Canonical(name) && loc < |name|
    ensures Canonical(DeleteEntry(name, loc))
    ensures SameShape(name[..loc] + name[loc + 1..], DeleteEntry(name, loc))
  {
    var left, r := name[..loc] + name[loc + 1..], DeleteEntry(name, loc);
    forall i, j | 0 <= i < j < |r|
      ensures r[i].set_ == r[j].set_ <==> left[i].set_ == left[j].set_
      ensures j == i + 1 ==> r[i].set_ <= r[j].set_ <= r[i].set_ + 1
    {
      ShapeAt(name, loc, i, j);
    }
    forall i | 0 <= i < |r| ensures r[i].oid == left[i].oid && r[i].value == left[i].value { DeletedAt(name, loc, i); }
    if r != [] {
      if loc + 1 < |name| { GapCloses(name, loc); }
      DeletedAt(name, loc, 0);
    }
  }

  lemma ShapeAt(name: Name, loc: nat, i: nat, j: nat)
    requires Canonical(name) && loc < |name| && i < j < |name| - 1
    ensures var left, r := name[..loc] + name[loc + 1..], DeleteEntry(name, loc);
      && (r[i].set_ == r[j].set_ <==> left[i].set_ == left[j].set_)
      && (j == i + 1 ==> r[i].set_ <= r[j].set_ <= r[i].set_ + 1)
  {
    var left := name[..loc] + name[loc + 1..];
    DeletedAt(name, loc, i);
    DeletedAt(name, loc, j);
    assert left[i] == name[if i < loc then i else i + 1] && left[j] == name[if j < loc then j else j + 1];
    if j < loc || loc <= i {
      assert j == i + 1 ==> var a := if j < loc then i else i + 1; name[a].set_ <= name[a + 1].set_ <= name[a].set_ + 1;
    } else {
      AcrossGap(name, loc, i, j);
    }
  }

  // Entries on both sides of the deleted one.
  lemma AcrossGap(name: Name, loc: nat, i: nat, j: nat)
    requires Canonical(name) && i < loc <= j < |name| - 1
    ensures var s, t := name[i].set_, name[j + 1].set_ - Gap(name, loc);
      && (s == t <==> s == name[j + 1].set_)
      && (j == i + 1 ==> s <= t <= s + 1)
  {
    GapCloses(name, loc);
    InOrder(name, i, loc - 1);
    InOrder(name, loc + 1, j + 1);
  }

  lemma InOrder(name: Name, a: nat, b: nat)
    requires Canonical(name) && a <= b < |name|
    ensures name[a].set_ <= name[b].set_
  {
    CanonicalOrder(name);
  }

  // Around a deleted entry of a canonical name.
  lemma GapCloses(name: Name, loc: nat)
    requires Canonical(name) && loc + 1 < |name|
    ensures var next := name[loc + 1].set_ - Gap(name, loc);
      if loc == 0 then next == 0
      else
        var prev := name[loc - 1].set_;
        prev <= next <= prev + 1 && (Gap(name, loc) == 1 ==> next == prev + 1)
  {
    assert name[loc].set_ <= name[loc + 1].set_ <= name[loc].set_ + 1;
    if loc > 0 { assert name[loc - 1].set_ <= name[loc].set_ <= name[loc - 1].set_ + 1; }
  }

  lemma {:induction false} WithoutRemoved(name: Name, loc: nat, oid: ObjectId)
    requires loc < |name| && name[loc].oid == oid
    ensures Without(name[..loc] + name[loc + 1..], oid) == Without(name, oid)
    decreases |name|
  {
    var n := |name| - 1;
    var left := name[..loc] + name[loc + 1..];
    if loc == n {
      assert left == name[..n];
    } else {
      WithoutRemoved(name[..n], loc, oid);
      assert left[..n - 1] == name[..n][..loc] + name[..n][loc + 1..];
    }
  }

  lemma DeleteKeepsRest(name: Name, loc: nat, oid: ObjectId)
    requires loc < |name| && name[loc].oid == oid
    ensures SameValues(Without(DeleteEntry(name, loc), oid), Without(name, oid))
  {
    WithoutRemoved(name, loc, oid);
    WithoutSameValues(DeleteEntry(name, loc), name[..loc] + name[loc + 1..], oid);
  }

  lemma {:induction false} WithoutSameValues(a: Name, b: Name, oid: ObjectId)
    requires SameValues(a, b)
    ensures SameValues(Without(a, oid), Without(b, oid))
  {
    if a != [] { WithoutSameValues(a[..|a| - 1], b[..|b| - 1], oid); }
  }

  // The deletion leaves the RDNs of the remaining entries as they were.
  lemma DeleteKeepsGroups(name: Name, loc: nat, oid: ObjectId)
    requires Canonical(name) && loc < |name| && name[loc].oid == oid
    ensures Canonical(DeleteEntry(name, loc))
    ensures Regroup(Without(DeleteEntry(name, loc), oid)) == Regroup(Without(name, oid))
  {
    var left, r := name[..loc] + name[loc + 1..], DeleteEntry(name, loc);
    DeleteShape(name, loc);
    WithoutRemoved(name, loc, oid);
    WithoutSameShape(left, r, oid);
    RegroupSameShape(Without(left, oid), Without(r, oid));
  }

  // The k-th entry kept comes from the same place in names that agree on types.
  lemma {:induction false} KeptAt(a: Name, b: Name, oid: ObjectId, k: nat) returns (m: nat)
    requires SameValues(a, b) && k < |Without(a, oid)|
    ensures m < |a| && k < |Without(b, oid)| && Without(a, oid)[k] == a[m] && Without(b, oid)[k] == b[m]
  {
    var n := |a| - 1;
    WithoutSameValues(a[..n], b[..n], oid);
    if k < |Without(a[..n], oid)| {
      m := KeptAt(a[..n], b[..n], oid, k);
    } else {
      m := n;
    }
  }

  lemma {:induction false} WithoutSameShape(a: Name, b: Name, oid: ObjectId)
    requires SameShape(a, b)
    ensures SameShape(Without(a, oid), Without(b, oid))
  {
    WithoutSameValues(a, b, oid);
    if a != [] {
      var n := |a| - 1;
      WithoutSameShape(a[..n], b[..n], oid);
      var x, y := Without(a, oid), Without(b, oid);
      forall i, j | 0 <= i < j < |x| ensures x[i].set_ == x[j].set_ <==> y[i].set_ == y[j].set_ {
        if j == |x| - 1 && a[n].oid != oid {
          var m := KeptAt(a[..n], b[..n], oid, i);
          assert a[m].set_ == a[n].set_ <==> b[m].set_ == b[n].set_;
        }
      }
    }
  }

  lemma {:induction false} RegroupSameShape(a: Name, b: Name)
    requires SameShape(a, b)
    ensures Regroup(a) == Regroup(b)
  {
    if a != [] { RegroupSameShape(a[..|a| - 1], b[..|b| - 1]); }
  }
}
