// Building the subject of a certificate from a request: the policy section of
// the configuration is matched against the request's name and the CA's name,
// and e-mail entries are deleted on demand.
module Policy {
  import opened Text

  type ObjectId = nat

  // One attribute of a name. Entries with the same set number form one
  // (multi-valued) RDN.
  datatype Entry = Entry(oid: ObjectId, value: AsnString, set_: int)

  datatype AsnString = AsnString(tag: int, data: string)

  type Name = seq<Entry>

  datatype Rule = Rule(attribute: string, keyword: string)

  // OBJ_txt2nid: the object an attribute name stands for, if it is known.
  type Dictionary = string -> Option<ObjectId>

  datatype Refusal = UnknownType | NotSupplied | NotInCa | DiffersFromCa | InvalidKeyword | BadString

  datatype Result<+T> = Accepted(value: T) | Rejected(why: Refusal)

  // X509_NAME_get_index_by_OBJ: the next position after last that holds oid; -1 at the end.
  function IndexByObj(name: Name, oid: ObjectId, last: int): (j: int)
    requires -1 <= last
    ensures j == -1 || last < j < |name|
    ensures j >= 0 ==> name[j].oid == oid
    ensures forall k :: last < k < (if j >= 0 then j else |name|) ==> name[k].oid != oid
    decreases |name| - last
  {
    if last + 1 >= |name| then -1
    else if name[last + 1].oid == oid then last + 1
    else IndexByObj(name, oid, last + 1)
  }

  // X509_NAME_add_entry at the end, as an RDN of its own.
  function AddEntry(name: Name, e: Entry): Name {
    name + [e.(set_ := if name == [] then 0 else name[|name| - 1].set_ + 1)]
  }

  // ------------------------------------------------------ the specification

  // All entries of one type, in order.
  function Of(name: Name, oid: ObjectId): (r: Name)
    ensures forall i :: 0 <= i < |r| ==> r[i].oid == oid
    ensures |r| <= |name|
  {
    if name == [] then []
    else Of(name[..|name| - 1], oid) + (if name[|name| - 1].oid == oid then [name[|name| - 1]] else [])
  }

  // The first entry of a list whose value equals v.
  function FirstEqual(entries: Name, v: AsnString): Option<Entry> {
    if entries == [] then None
    else if entries[0].value == v then Some(entries[0])
    else FirstEqual(entries[1..], v)
  }

  // For each request entry, the first CA entry with an equal value.
  function Matched(entries: Name, ca: Name): Option<Name> {
    if entries == [] then Some([])
    else
      var init, last := Matched(entries[..|entries| - 1], ca), FirstEqual(ca, entries[|entries| - 1].value);
      if init.None? || last.None? then None else Some(init.value + [last.value])
  }

  // What the entries asked for under one policy item contribute, given the CA's
  // entries of that type.
  function Pushes(keyword: string, asked: Name, ca: Name): Result<Name> {
    if keyword == "optional" then Accepted(asked)
    else if keyword == "supplied" then
      if asked == [] then Rejected(NotSupplied) else Accepted(asked)
    else if keyword == "match" then
      if asked == [] then Rejected(NotSupplied)
      else if ca == [] then Rejected(NotInCa)
      else
        match Matched(asked, ca)
        case None => Rejected(DiffersFromCa)
        case Some(m) => Accepted(m)
    else Rejected(InvalidKeyword)
  }

  function Contribution(rule: Rule, name: Name, ca: Name, dict: Dictionary): Result<Name> {
    match dict(rule.attribute)
    case None => Rejected(UnknownType)
    case Some(oid) => Pushes(rule.keyword, Of(name, oid), Of(ca, oid))
  }

  // The subject's entries before numbering: the contributions, policy item by item.
  function Contributions(policy: seq<Rule>, name: Name, ca: Name, dict: Dictionary): Result<Name> {
    if policy == [] then Accepted([])
    else
      match Contributions(policy[..|policy| - 1], name, ca, dict)
      case Rejected(why) => Rejected(why)
      case Accepted(done) =>
        match Contribution(policy[|policy| - 1], name, ca, dict)
        case Rejected(why) => Rejected(why)
        case Accepted(more) => Accepted(done + more)
  }

  // Every entry becomes an RDN of its own.
  function Renumbered(entries: Name): (r: Name)
    ensures |r| == |entries|
    ensures forall i :: 0 <= i < |r| ==> r[i] == entries[i].(set_ := i)
  {
    seq(|entries|, i requires 0 <= i < |entries| => entries[i].(set_ := i))
  }

  // ---------------------------------------------------------- the programs

  // The search that restarts at again2: the position of the first CA entry of
  // the type that equals v, or why there is none.
  method FindInCa(ca: Name, oid: ObjectId, v: AsnString) returns (j: int, why: Refusal)
    ensures j == -1 || 0 <= j < |ca|
    ensures j >= 0 ==> FirstEqual(Of(ca, oid), v) == Some(ca[j])
    ensures j < 0 ==> FirstEqual(Of(ca, oid), v) == None
    ensures j < 0 ==> why == if Of(ca, oid) == [] then NotInCa else DiffersFromCa
  {
    var last2 := -1;
    while true
      invariant -1 <= last2 < |ca|
      invariant last2 == -1 <==> Of(ca[..last2 + 1], oid) == []
      invariant FirstEqual(Of(ca[..last2 + 1], oid), v).None?
      decreases |ca| - last2
    {
      j := IndexByObj(ca, oid, last2);
      OfNext(ca, oid, last2);
      if j < 0 && last2 == -1 { return -1, NotInCa; }
      if j < 0 { return -1, DiffersFromCa; }
      FirstEqualSnoc(Of(ca[..last2 + 1], oid), ca[j], v);
      last2 := j;
      if ca[j].value == v {
        OfPrefix(ca, oid, j + 1);
        FirstEqualPrefix(Of(ca[..j + 1], oid), Of(ca, oid), v);
        return j, NotInCa;
      }
    }
  }

  // The endless loop of do_body for one policy item. In the match case j is
  // overwritten by a position in the CA's name; since the search either fails
  // or leaves j non-negative, that never ends the loop early.
  method ApplyRule(rule: Rule, name: Name, ca: Name, oid: ObjectId, subject: Name, ghost entries: Name)
    returns (r: Result<Name>)
    requires subject == Renumbered(entries)
    ensures r == match Pushes(rule.keyword, Of(name, oid), Of(ca, oid))
                 case Rejected(why) => Rejected(why)
                 case Accepted(more) => Accepted(Renumbered(entries + more))
  {
    var built := subject;
    ghost var all, own, asked, pushed: Name := Of(name, oid), Of(ca, oid), [], [];
    var last, j := -1, 0;
    while true
      invariant -1 <= last < |name| && (last == -1 <==> asked == [])
      invariant asked == Of(name[..last + 1], oid) && Passed(rule.keyword, asked, pushed, own)
      invariant built == Renumbered(entries + pushed)
      decreases |name| - last
    {
      j := IndexByObj(name, oid, last);
      OfNext(name, oid, last);
      if j < 0 && last != -1 { break; }
      var tne := None;
      if j >= 0 {
        tne := Some(name[j]);
        OfPrefix(name, oid, j + 1);
      }
      last := j;
      PassStep(rule.keyword, asked, pushed, tne, all, own);
      var push;
      push, j := ChoosePush(rule.keyword, tne, ca, oid, j);
      if push.Rejected? { return Rejected(push.why); }
      if push.value.Some? {
        PushBuilt(entries, pushed, push.value.value);
        built := AddEntry(built, push.value.value);
        pushed := pushed + [push.value.value];
      }
      if j < 0 { break; }
      asked := asked + [tne.value];
    }
    r := Accepted(built);
  }

  // What the entries in front have contributed.
  predicate Passed(keyword: string, asked: Name, pushed: Name, own: Name) {
    if asked == [] then pushed == [] else Pushes(keyword, asked, own) == Accepted(pushed)
  }

  // The cases of its body: what is to be pushed for the request entry tne.
  method ChoosePush(keyword: string, tne: Option<Entry>, ca: Name, oid: ObjectId, at: int)
    returns (push: Result<Option<Entry>>, j: int)
    requires tne.None? <==> at < 0
    ensures push == Pass(keyword, tne, Of(ca, oid))
    ensures push.Accepted? ==> (j < 0 <==> at < 0)
  {
    j := at;
    if keyword == "optional" { return Accepted(tne), j; }
    if keyword == "supplied" {
      if tne.None? { return Rejected(NotSupplied), j; }
      return Accepted(tne), j;
    }
    if keyword == "match" {
      if tne.None? { return Rejected(NotSupplied), j; }
      var why;
      j, why := FindInCa(ca, oid, tne.value.value);
      if j < 0 { return Rejected(why), j; }
      return Accepted(Some(ca[j])), j;
    }
    return Rejected(InvalidKeyword), j;
  }

  function Pass(keyword: string, tne: Option<Entry>, own: Name): Result<Option<Entry>> {
    if keyword == "optional" then Accepted(tne)
    else if keyword == "supplied" then
      if tne.None? then Rejected(NotSupplied) else Accepted(tne)
    else if keyword == "match" then
      if tne.None? then Rejected(NotSupplied)
      else
        var found := FirstEqual(own, tne.value.value);
        if found.Some? then Accepted(found) else Rejected(if own == [] then NotInCa else DiffersFromCa)
    else Rejected(InvalidKeyword)
  }

  // One pass adds to what the entries in front have contributed, or decides
  // the fate of the whole list; a pass without an entry is for an empty list.
  lemma PassStep(keyword: string, asked: Name, pushed: Name, tne: Option<Entry>, all: Name, own: Name)
    requires Passed(keyword, asked, pushed, own)
    requires if tne.Some? then asked + [tne.value] <= all else asked == all == []
    ensures match Pass(keyword, tne, own)
            case Rejected(why) => Pushes(keyword, all, own) == Rejected(why)
            case Accepted(push) =>
              if tne.None? then push.None? && Pushes(keyword, all, own) == Accepted(pushed)
              else push.Some? && Pushes(keyword, asked + [tne.value], own) == Accepted(pushed + [push.value])
  {
    if keyword == "match" && tne.Some? {
      MatchedSnoc(asked, tne.value, own);
      if FirstEqual(own, tne.value.value).None? {
        MatchedPrefix(asked + [tne.value], all, own);
      } else {
        assert own != [];
      }
    }
  }

  // The policy loop of do_body.
  method MatchPolicy(policy: seq<Rule>, name: Name, ca: Name, dict: Dictionary) returns (r: Result<Name>)
    ensures r == match Contributions(policy, name, ca, dict)
                 case Rejected(why) => Rejected(why)
                 case Accepted(entries) => Accepted(Renumbered(entries))
  {
    var subject: Name := [];
    ghost var entries: Name := [];
    for i := 0 to |policy|
      invariant Contributions(policy[..i], name, ca, dict) == Accepted(entries)
      invariant subject == Renumbered(entries)
    {
      assert policy[..i + 1][..i] == policy[..i];
      ContributionsPrefix(policy, i + 1, name, ca, dict);
      var known := dict(policy[i].attribute);
      if known.None? { return Rejected(UnknownType); }
      var step := ApplyRule(policy[i], name, ca, known.value, subject, entries);
      if step.Rejected? { return step; }
      subject := step.value;
      entries := entries + Contribution(policy[i], name, ca, dict).value;
    }
    assert policy[..|policy|] == policy;
    r := Accepted(subject);
  }

  // ------------------------------------------------------------------ facts

  lemma AddEntryRenumbers(entries: Name, e: Entry)
    ensures AddEntry(Renumbered(entries), e) == Renumbered(entries + [e])
  {
  }

  lemma PushBuilt(entries: Name, pushed: Name, e: Entry)
    ensures AddEntry(Renumbered(entries + pushed), e) == Renumbered(entries + (pushed + [e]))
  {
    AddEntryRenumbers(entries + pushed, e);
    assert entries + pushed + [e] == entries + (pushed + [e]);
  }

  lemma OfSkip(name: Name, oid: ObjectId, a: nat, b: nat)
    requires a <= b <= |name| && forall k :: a <= k < b ==> name[k].oid != oid
    ensures Of(name[..b], oid) == Of(name[..a], oid)
    decreases b
  {
    if a < b {
      OfSkip(name, oid, a, b - 1);
      assert name[..b][..b - 1] == name[..b - 1];
    }
  }

  // Stepping to the next entry of a type.
  lemma OfNext(name: Name, oid: ObjectId, last: int)
    requires -1 <= last < |name|
    ensures var j := IndexByObj(name, oid, last);
      && (j >= 0 ==> Of(name[..j + 1], oid) == Of(name[..last + 1], oid) + [name[j]])
      && (j < 0 ==> Of(name, oid) == Of(name[..last + 1], oid))
  {
    var j := IndexByObj(name, oid, last);
    if j >= 0 {
      OfSkip(name, oid, last + 1, j);
      assert name[..j + 1][..j] == name[..j];
    } else {
      OfSkip(name, oid, last + 1, |name|);
      assert name[..|name|] == name;
    }
  }

  lemma {:induction false} OfPrefix(name: Name, oid: ObjectId, n: nat)
    requires n <= |name|
    ensures Of(name[..n], oid) <= Of(name, oid)
    decreases |name|
  {
    if n == |name| {
      assert name[..n] == name;
    } else {
      var p := name[..|name| - 1];
      OfPrefix(p, oid, n);
      assert p[..n] == name[..n];
    }
  }

  lemma {:induction false} FirstEqualSnoc(s: Name, e: Entry, v: AsnString)
    ensures FirstEqual(s + [e], v) ==
      if FirstEqual(s, v).Some? then FirstEqual(s, v) else if e.value == v then Some(e) else None
  {
    if s != [] {
      FirstEqualSnoc(s[1..], e, v);
      assert (s + [e])[1..] == s[1..] + [e];
    }
  }

  lemma {:induction false} FirstEqualPrefix(p: Name, s: Name, v: AsnString)
    requires p <= s && FirstEqual(p, v).Some?
    ensures FirstEqual(s, v) == FirstEqual(p, v)
  {
    if p[0].value != v { FirstEqualPrefix(p[1..], s[1..], v); }
  }

  lemma MatchedSnoc(s: Name, e: Entry, ca: Name)
    ensures Matched(s + [e], ca) ==
      if Matched(s, ca).None? || FirstEqual(ca, e.value).None? then None
      else Some(Matched(s, ca).value + [FirstEqual(ca, e.value).value])
  {
    assert (s + [e])[..|s|] == s;
  }

  lemma {:induction false} MatchedPrefix(p: Name, s: Name, ca: Name)
    requires p <= s && Matched(p, ca).None?
    ensures Matched(s, ca).None?
    decreases |s|
  {
    if |p| < |s| {
      MatchedPrefix(p, s[..|s| - 1], ca);
    } else {
      assert p == s;
    }
  }

  lemma {:induction false} ContributionsPrefix(policy: seq<Rule>, n: nat, name: Name, ca: Name, dict: Dictionary)
    requires n <= |policy|
    ensures Contributions(policy[..n], name, ca, dict).Rejected? ==>
      Contributions(policy, name, ca, dict) == Contributions(policy[..n], name, ca, dict)
    decreases |policy|
  {
    if n == |policy| {
      assert policy[..n] == policy;
    } else {
      var p := policy[..|policy| - 1];
      ContributionsPrefix(p, n, name, ca, dict);
      assert p[..n] == policy[..n];
    }
  }

  // ------------------------------------------------- what the policy demands

  predicate InCa(ca: Name, oid: ObjectId, v: AsnString) {
    exists j :: 0 <= j < |ca| && ca[j].oid == oid && ca[j].value == v
  }

  // What the documentation of the policy section asks for.
  predicate Satisfies(rule: Rule, name: Name, ca: Name, dict: Dictionary) {
    var oid := dict(rule.attribute);
    && oid.Some?
    && (rule.keyword == "optional" || rule.keyword == "supplied" || rule.keyword == "match")
    && (rule.keyword != "optional" ==> exists i :: 0 <= i < |name| && name[i].oid == oid.value)
    && (rule.keyword == "match" ==> forall i :: 0 <= i < |name| && name[i].oid == oid.value ==>
          InCa(ca, oid.value, name[i].value))
  }

  lemma {:induction false} OfHas(name: Name, oid: ObjectId, e: Entry)
    ensures e in Of(name, oid) <==> e in name && e.oid == oid
  {
    if name != [] {
      var p, last := name[..|name| - 1], name[|name| - 1];
      OfHas(p, oid, e);
      assert name == p + [last];
    }
  }

  lemma {:induction false} FirstEqualFinds(s: Name, v: AsnString)
    ensures FirstEqual(s, v).Some? <==> exists j :: 0 <= j < |s| && s[j].value == v
    ensures FirstEqual(s, v).Some? ==> FirstEqual(s, v).value in s && FirstEqual(s, v).value.value == v
  {
    if s != [] && s[0].value != v {
      FirstEqualFinds(s[1..], v);
      if j :| 0 <= j < |s| && s[j].value == v { assert s[1..][j - 1].value == v; }
    }
  }

  // A match changes nothing but the set number: the entry taken from the CA
  // has the type and value of the entry asked for.
  lemma {:induction false} MatchedKeepsValues(asked: Name, ca: Name, oid: ObjectId)
    requires forall i :: 0 <= i < |asked| ==> asked[i].oid == oid
    requires forall i :: 0 <= i < |ca| ==> ca[i].oid == oid
    ensures Matched(asked, ca).Some? <==> forall i :: 0 <= i < |asked| ==> FirstEqual(ca, asked[i].value).Some?
    ensures Matched(asked, ca).Some? ==> |Matched(asked, ca).value| == |asked|
    ensures Matched(asked, ca).Some? ==> forall i :: 0 <= i < |asked| ==>
      Matched(asked, ca).value[i].oid == oid && Matched(asked, ca).value[i].value == asked[i].value
  {
    if asked != [] {
      var init, last := asked[..|asked| - 1], asked[|asked| - 1];
      MatchedKeepsValues(init, ca, oid);
      FirstEqualFinds(ca, last.value);
      assert forall i :: 0 <= i < |init| ==> init[i] == asked[i];
    }
  }

  lemma RuleAccepts(rule: Rule, name: Name, ca: Name, dict: Dictionary)
    ensures Contribution(rule, name, ca, dict).Accepted? <==> Satisfies(rule, name, ca, dict)
    ensures Contribution(rule, name, ca, dict).Accepted? ==>
      SameValues(Contribution(rule, name, ca, dict).value, Of(name, dict(rule.attribute).value))
  {
    if dict(rule.attribute).Some? {
      var oid := dict(rule.attribute).value;
      var asked, own := Of(name, oid), Of(ca, oid);
      SomeOf(name, oid);
      MatchedKeepsValues(asked, own, oid);
      if rule.keyword == "match" && asked != [] {
        MatchDemand(name, ca, oid);
      }
    }
  }

  lemma SomeOf(name: Name, oid: ObjectId)
    ensures Of(name, oid) != [] <==> exists i :: 0 <= i < |name| && name[i].oid == oid
  {
    if Of(name, oid) != [] { OfHas(name, oid, Of(name, oid)[0]); }
    if i :| 0 <= i < |name| && name[i].oid == oid { OfHas(name, oid, name[i]); }
  }

  lemma FirstEqualOf(ca: Name, oid: ObjectId, v: AsnString)
    ensures FirstEqual(Of(ca, oid), v).Some? <==> InCa(ca, oid, v)
  {
    var own := Of(ca, oid);
    FirstEqualFinds(own, v);
    if FirstEqual(own, v).Some? {
      OfHas(ca, oid, FirstEqual(own, v).value);
    } else if j :| 0 <= j < |ca| && ca[j].oid == oid && ca[j].value == v {
      OfHas(ca, oid, ca[j]);
    }
  }

  lemma MatchDemand(name: Name, ca: Name, oid: ObjectId)
    ensures (forall i :: 0 <= i < |Of(name, oid)| ==> FirstEqual(Of(ca, oid), Of(name, oid)[i].value).Some?) <==>
      forall i :: 0 <= i < |name| && name[i].oid == oid ==> InCa(ca, oid, name[i].value)
  {
    var asked, own := Of(name, oid), Of(ca, oid);
    if forall i :: 0 <= i < |asked| ==> FirstEqual(own, asked[i].value).Some? {
      forall i | 0 <= i < |name| && name[i].oid == oid ensures InCa(ca, oid, name[i].value) {
        OfHas(name, oid, name[i]);
        FirstEqualOf(ca, oid, name[i].value);
      }
    }
    if forall i :: 0 <= i < |name| && name[i].oid == oid ==> InCa(ca, oid, name[i].value) {
      forall i | 0 <= i < |asked| ensures FirstEqual(own, asked[i].value).Some? {
        OfHas(name, oid, asked[i]);
        FirstEqualOf(ca, oid, asked[i].value);
      }
    }
  }

  // Equal up to set numbers.
  predicate SameValues(a: Name, b: Name) {
    |a| == |b| && forall i :: 0 <= i < |a| ==> a[i].oid == b[i].oid && a[i].value == b[i].value
  }

  // The request's entries, regrouped by policy item.
  function Regrouped(policy: seq<Rule>, name: Name, dict: Dictionary): Name
    requires forall i :: 0 <= i < |policy| ==> dict(policy[i].attribute).Some?
  {
    if policy == [] then []
    else Regrouped(policy[..|policy| - 1], name, dict) + Of(name, dict(policy[|policy| - 1].attribute).value)
  }

  // The policy is met exactly when every item is, and the subject built is then
  // the request's own entries, item by item, in their order.
  lemma {:induction false} PolicyAccepts(policy: seq<Rule>, name: Name, ca: Name, dict: Dictionary)
    ensures Contributions(policy, name, ca, dict).Accepted? <==>
      forall i :: 0 <= i < |policy| ==> Satisfies(policy[i], name, ca, dict)
    ensures Contributions(policy, name, ca, dict).Accepted? ==>
      && (forall i :: 0 <= i < |policy| ==> dict(policy[i].attribute).Some?)
      && Renumbered(Contributions(policy, name, ca, dict).value) == Renumbered(Regrouped(policy, name, dict))
  {
    if policy != [] {
      var p, rule := policy[..|policy| - 1], policy[|policy| - 1];
      PolicyAccepts(p, name, ca, dict);
      RuleAccepts(rule, name, ca, dict);
      assert forall i :: 0 <= i < |p| ==> p[i] == policy[i];
      if Contributions(policy, name, ca, dict).Accepted? {
        RenumberedAppend(Contributions(p, name, ca, dict).value, Regrouped(p, name, dict),
          Contribution(rule, name, ca, dict).value, Of(name, dict(rule.attribute).value));
      }
    }
  }

  lemma RenumberedAppend(a: Name, b: Name, c: Name, d: Name)
    requires Renumbered(a) == Renumbered(b) && SameValues(c, d)
    ensures Renumbered(a + c) == Renumbered(b + d)
  {
    forall i | 0 <= i < |a + c| ensures Renumbered(a + c)[i] == Renumbered(b + d)[i] {
      if i < |a| { assert Renumbered(a)[i] == Renumbered(b)[i]; }
    }
  }

  // ----------------------------------------------------------- why it refuses

  predicate Supplied(name: Name, oid: ObjectId) {
    exists i :: 0 <= i < |name| && name[i].oid == oid
  }

  // The reason why one item refuses a request, told from the item and the two names.
  predicate Refuses(rule: Rule, name: Name, ca: Name, dict: Dictionary, why: Refusal) {
    var oid := dict(rule.attribute);
    match why
    case UnknownType => oid.None?
    case InvalidKeyword => oid.Some? && rule.keyword !in {"optional", "supplied", "match"}
    case NotSupplied => oid.Some? && rule.keyword in {"supplied", "match"} && !Supplied(name, oid.value)
    case NotInCa =>
      oid.Some? && rule.keyword == "match" && Supplied(name, oid.value) && !Supplied(ca, oid.value)
    case DiffersFromCa =>
      && oid.Some? && rule.keyword == "match" && Supplied(name, oid.value) && Supplied(ca, oid.value)
      && exists i :: 0 <= i < |name| && name[i].oid == oid.value && !InCa(ca, oid.value, name[i].value)
    case BadString => false
  }

  lemma RuleRefuses(rule: Rule, name: Name, ca: Name, dict: Dictionary, why: Refusal)
    ensures Contribution(rule, name, ca, dict) == Rejected(why) <==> Refuses(rule, name, ca, dict, why)
  {
    RuleAccepts(rule, name, ca, dict);
    if dict(rule.attribute).Some? {
      SomeOf(name, dict(rule.attribute).value);
      SomeOf(ca, dict(rule.attribute).value);
    }
  }

  // The policy refuses a request for the reason of the first item that does.
  lemma {:induction false} PolicyRefuses(policy: seq<Rule>, name: Name, ca: Name, dict: Dictionary, why: Refusal)
    ensures Contributions(policy, name, ca, dict) == Rejected(why) <==>
      exists i :: 0 <= i < |policy| && Refuses(policy[i], name, ca, dict, why) &&
        forall j :: 0 <= j < i ==> Satisfies(policy[j], name, ca, dict)
  {
    if policy != [] {
      var p, rule := policy[..|policy| - 1], policy[|policy| - 1];
      PolicyRefuses(p, name, ca, dict, why);
      PolicyAccepts(p, name, ca, dict);
      RuleRefuses(rule, name, ca, dict, why);
      RuleAccepts(rule, name, ca, dict);
      assert forall i :: 0 <= i < |p| ==> p[i] == policy[i];
      SatisfiedNotRefused(policy, name, ca, dict, why);
      if Contributions(p, name, ca, dict).Accepted? && Contribution(rule, name, ca, dict) == Rejected(why) {
        assert policy[|policy| - 1] == rule;
      }
    }
  }

  lemma SatisfiedNotRefused(policy: seq<Rule>, name: Name, ca: Name, dict: Dictionary, why: Refusal)
    ensures forall i :: 0 <= i < |policy| && Refuses(policy[i], name, ca, dict, why) ==>
      !Satisfies(policy[i], name, ca, dict)
  {
    forall i | 0 <= i < |policy| && Refuses(policy[i], name, ca, dict, why)
      ensures !Satisfies(policy[i], name, ca, dict)
    {
      RuleRefuses(policy[i], name, ca, dict, why);
      RuleAccepts(policy[i], name, ca, dict);
    }
  }

  // Entries of one type keep their order.
  lemma {:induction false} OfInOrder(name: Name, oid: ObjectId, i: nat, j: nat) returns (p: nat, q: nat)
    requires i < j < |Of(name, oid)|
    ensures p < q < |name| && Of(name, oid)[i] == name[p] && Of(name, oid)[j] == name[q]
  {
    var init := name[..|name| - 1];
    if j < |Of(init, oid)| {
      p, q := OfInOrder(init, oid, i, j);
    } else {
      OfHas(init, oid, Of(init, oid)[i]);
      p :| 0 <= p < |init| && init[p] == Of(init, oid)[i];
      q := |name| - 1;
    }
  }
}
