// The machine that reads the -signer, -inkey and -keyopt options of a signing
// operation: it pairs certificates with keys option by option and hangs the options
// of each pair on a linked list, searched once per signer when signing.
module Signers {
  import opened Text
  import opened Pairing

  // -------------------------------------------------------------- the state

  class KeyParam {
    const idx: nat
    var param: seq<string>
    var next: KeyParam?

    constructor (idx: nat)
      ensures this.idx == idx && param == [] && next == null
    {
      this.idx, param, next := idx, [], null;
    }
  }

  class Options {
    var signerfile: Option<string>
    var keyfile: Option<string>
    var sksigners: seq<string>
    var skkeys: seq<string>
    var keyFirst: KeyParam?
    var keyParam: KeyParam?
    ghost var nodes: seq<KeyParam>
    ghost var contents: seq<Node>
    ghost var progress: Progress

    // The list from keyFirst runs through the nodes, which hold the contents,
    // and ends at keyParam.
    ghost predicate Linked()
      reads this`nodes, this`contents, this`keyFirst, this`keyParam, nodes
    {
      && |nodes| == |contents|
      && (forall i, j :: 0 <= i < j < |nodes| ==> nodes[i] != nodes[j])
      && (forall i :: 0 <= i < |nodes| ==> nodes[i].idx == contents[i].idx && nodes[i].param == contents[i].opts)
      && (if nodes == [] then keyFirst == null && keyParam == null
          else keyFirst == nodes[0] && keyParam == nodes[|nodes| - 1] && keyParam.next == null)
      && (forall i, j :: 0 <= i && j == i + 1 && j < |nodes| ==> nodes[i].next == nodes[j])
    }

    // The files collected so far.
    ghost predicate Filed()
      reads this`signerfile, this`keyfile, this`sksigners, this`skkeys, this`progress
    {
      FiledAs(signerfile, keyfile, sksigners, skkeys, progress)
    }

    // The fields show the progress.
    ghost predicate Valid()
      reads this, nodes
    {
      Filed() && Linked()
    }

    constructor ()
      ensures Valid() && nodes == [] && progress == Progress([], NOTHING)
    {
      signerfile, keyfile, sksigners, skkeys := None, None, [], [];
      keyFirst, keyParam, nodes, contents := null, null, [], [];
      progress := Progress([], NOTHING);
    }

    // The -signer case.
    method ApplySigner(f: string)
      requires Valid()
      modifies this`signerfile, this`keyfile, this`sksigners, this`skkeys, this`progress
      ensures Valid() && progress == Step(old(progress), SignerFile(f))
    {
      if signerfile.Some? {
        PairFiled(signerfile, keyfile, sksigners, skkeys, progress, Pair(Some(f), None, []));
        sksigners := sksigners + [signerfile.value];
        if keyfile.None? { keyfile := signerfile; }
        skkeys := skkeys + [keyfile.value];
        keyfile := None;
      }
      signerfile := Some(f);
      progress := Step(progress, SignerFile(f));
    }

    // The -inkey case.
    method ApplyInKey(f: string) returns (ok: bool)
      requires Valid()
      modifies this`signerfile, this`keyfile, this`sksigners, this`skkeys, this`progress
      ensures ok <==> Step(old(progress), InKey(f)).Progress?
      ensures ok ==> Valid() && progress == Step(old(progress), InKey(f))
    {
      if keyfile.Some? {
        if signerfile.None? { return false; }
        PairFiled(signerfile, keyfile, sksigners, skkeys, progress, Pair(None, Some(f), []));
        sksigners := sksigners + [signerfile.value];
        signerfile := None;
        skkeys := skkeys + [keyfile.value];
      }
      keyfile := Some(f);
      progress := Step(progress, InKey(f));
      ok := true;
    }

    // The -keyopt case: options of the pair being assembled go to one node.
    method ApplyKeyOpt(text: string) returns (ok: bool)
      requires Valid()
      modifies this`keyFirst, this`keyParam, this`nodes, this`contents, this`progress, nodes
      ensures ok <==> Step(old(progress), KeyOpt(text)).Progress?
      ensures ok ==> Valid() && progress == Step(old(progress), KeyOpt(text))
      ensures ok ==> contents == Noted(old(contents), |old(progress).done|, text)
      ensures old(nodes) <= nodes && forall i :: |old(nodes)| <= i < |nodes| ==> fresh(nodes[i])
    {
      OptionFiled(signerfile, keyfile, sksigners, skkeys, progress, text);
      var keyidx := -1;
      if keyfile.Some? || signerfile.Some? { keyidx := keyidx + 1; }
      keyidx := keyidx + |skkeys|;
      if keyidx < 0 { return false; }
      NoteOption(keyidx, text);
      progress := Step(progress, KeyOpt(text));
      ok := true;
    }

    // A new node, unless the last one is for the same pair.
    method NoteOption(keyidx: nat, text: string)
      requires Linked()
      modifies this`keyFirst, this`keyParam, this`nodes, this`contents, nodes
      ensures Linked() && contents == Noted(old(contents), keyidx, text)
      ensures old(nodes) <= nodes && forall i :: |old(nodes)| <= i < |nodes| ==> fresh(nodes[i])
    {
      if keyParam == null || keyParam.idx != keyidx {
        AppendNode(keyidx, text);
      } else {
        ExtendLast(text);
      }
    }

    method AppendNode(keyidx: nat, text: string)
      requires Linked()
      modifies this`keyFirst, this`keyParam, this`nodes, this`contents, nodes
      ensures Linked() && contents == old(contents) + [Node(keyidx, [text])]
      ensures old(nodes) <= nodes && forall i :: |old(nodes)| <= i < |nodes| ==> fresh(nodes[i])
    {
      var nparam := new KeyParam(keyidx);
      nparam.param := [text];
      if keyFirst == null {
        keyFirst := nparam;
      } else {
        keyParam.next := nparam;
      }
      keyParam := nparam;
      nodes, contents := nodes + [nparam], contents + [Node(keyidx, [text])];
    }

    method ExtendLast(text: string)
      requires Linked() && keyParam != null
      modifies this`contents, nodes
      ensures Linked() && contents == Extended(old(contents), text)
    {
      keyParam.param := keyParam.param + [text];
      contents := Extended(contents, text);
    }

    method Apply(o: Opt) returns (ok: bool)
      requires Valid()
      modifies this, nodes
      ensures ok <==> Step(old(progress), o).Progress?
      ensures ok ==> Valid() && progress == Step(old(progress), o)
      ensures ok ==> contents == NoteStep(old(contents), old(progress), o)
      ensures old(nodes) <= nodes && forall i :: |old(nodes)| <= i < |nodes| ==> fresh(nodes[i])
    {
      ok := true;
      match o {
        case SignerFile(f) => ApplySigner(f);
        case InKey(f) => ok := ApplyInKey(f);
        case KeyOpt(text) => ok := ApplyKeyOpt(text);
      }
    }

    // The option loop of cms_main.
    method Parse(opts: seq<Opt>) returns (ok: bool)
      requires Valid() && nodes == [] && progress == Progress([], NOTHING)
      modifies this
      ensures ok <==> Pairs(opts).Progress?
      ensures ok ==> Valid() && progress == Pairs(opts) && contents == Notes(opts)
    {
      ok := true;
      var i := 0;
      while i < |opts|
        invariant 0 <= i <= |opts| && Valid()
        invariant Pairs(opts[..i]) == progress && Notes(opts[..i]) == contents && ok
        invariant forall n :: 0 <= n < |nodes| ==> fresh(nodes[n])
      {
        PairsStep(opts, i);
        ok := Apply(opts[i]);
        if !ok { return; }
        i := i + 1;
      }
      assert opts[..i] == opts;
    }

    // After the loop: the final signer is appended.
    method Finish() returns (ok: bool)
      requires Valid()
      modifies this`signerfile, this`keyfile, this`sksigners, this`skkeys
      ensures ok <==> progress.cur.signer.Some?
      ensures ok ==> Filled(progress.done + [progress.cur], sksigners, skkeys)
      ensures Linked()
    {
      if keyfile.Some? && signerfile.None? { return false; }
      if signerfile.Some? {
        FilledSnoc(progress.done, sksigners, skkeys, progress.cur);
        sksigners := sksigners + [signerfile.value];
        if keyfile.None? { keyfile := signerfile; }
        skkeys := skkeys + [keyfile.value];
      }
      if sksigners == [] { return false; }
      signerfile, keyfile := None, None;
      ok := true;
    }

    // The signing loop.
    method Collect(ghost pairs: seq<Pair>) returns (infos: seq<SignerInfo>)
      requires Linked() && Filled(pairs, sksigners, skkeys) && Tells(contents, Lists(pairs))
      ensures |infos| == |pairs|
      ensures forall j :: 0 <= j < |infos| ==> pairs[j].signer.Some? && infos[j] == InfoOf(pairs[j])
    {
      infos := [];
      var i := 0;
      while i < |sksigners|
        invariant 0 <= i <= |sksigners| && |infos| == i
        invariant forall j :: 0 <= j < i ==> pairs[j].signer.Some? && infos[j] == InfoOf(pairs[j])
      {
        var kparam := Find(i);
        assert pairs[i].signer == Some(sksigners[i]) && KeyOf(pairs[i]) == skkeys[i];
        assert Lists(pairs)[i] == pairs[i].opts;
        infos := infos + [SignerInfo(sksigners[i], skkeys[i], if kparam == null then [] else kparam.param)];
        i := i + 1;
      }
    }

    // The first-match search of the signing loop.
    method Find(i: nat) returns (kparam: KeyParam?)
      requires Linked()
      ensures Found(contents, i).None? <==> kparam == null
      ensures kparam != null ==> Found(contents, i) == Some(kparam.param)
    {
      kparam := keyFirst;
      ghost var n := 0;
      while kparam != null && kparam.idx != i
        invariant 0 <= n <= |nodes|
        invariant kparam == if n < |nodes| then nodes[n] else null
        invariant Found(contents, i) == Found(contents[n..], i)
        decreases |nodes| - n
      {
        n := n + 1;
        kparam := kparam.next;
      }
    }
  }

  // From the options of a signing operation to the signers added to it: there are
  // some exactly when the options form blocks, and then one for each block.
  method AddSigners(opts: seq<Opt>) returns (r: Option<seq<SignerInfo>>)
    ensures r.Some? <==> exists bs: seq<Block> :: bs != [] && Wellformed(bs) && Sequence(bs) == opts
    ensures forall bs: seq<Block> :: bs != [] && Wellformed(bs) && Sequence(bs) == opts ==>
      r.Some? && |r.value| == |bs| && forall i :: 0 <= i < |bs| ==> BlockInfo(bs[i], r.value[i])
  {
    AcceptedAreBlocks(opts);
    r := SignersAdded(opts);
    forall bs: seq<Block> | bs != [] && Wellformed(bs) && Sequence(bs) == opts
      ensures r.Some? && |r.value| == |bs| && forall i :: 0 <= i < |bs| ==> BlockInfo(bs[i], r.value[i])
    {
      BlocksPaired(bs);
    }
  }

  method SignersAdded(opts: seq<Opt>) returns (r: Option<seq<SignerInfo>>)
    ensures r.Some? <==> AllPairs(opts).Some?
    ensures r.Some? ==> |r.value| == |AllPairs(opts).value|
    ensures r.Some? ==> forall i :: 0 <= i < |r.value| ==>
      AllPairs(opts).value[i].signer.Some? && r.value[i] == InfoOf(AllPairs(opts).value[i])
  {
    var o := new Options();
    var ok := o.Parse(opts);
    if !ok { return None; }
    ok := o.Finish();
    if !ok { return None; }
    ListsSnoc(Pairs(opts).done, Pairs(opts).cur);
    NotesTell(opts);
    var infos := o.Collect(AllPairs(opts).value);
    r := Some(infos);
  }

  // What a node holds.
  datatype Node = Node(idx: nat, opts: seq<string>)

  // The options of the first node with index i.
  function Found(nodes: seq<Node>, i: nat): Option<seq<string>> {
    if nodes == [] then None
    else if nodes[0].idx == i then Some(nodes[0].opts)
    else Found(nodes[1..], i)
  }

  function Extended(nodes: seq<Node>, text: string): seq<Node>
    requires nodes != []
  {
    var last := nodes[|nodes| - 1];
    nodes[..|nodes| - 1] + [last.(opts := last.opts + [text])]
  }

  predicate Increasing(nodes: seq<Node>) {
    forall i, j :: 0 <= i < j < |nodes| ==> nodes[i].idx < nodes[j].idx
  }

  // Indices strictly increase, and searching the list for a pair finds exactly
  // its options; a pair without options has no node.
  predicate Tells(nodes: seq<Node>, lists: seq<seq<string>>) {
    && Increasing(nodes)
    && (forall n :: 0 <= n < |nodes| ==> nodes[n].idx < |lists|)
    && (forall p :: 0 <= p < |lists| ==> Found(nodes, p) == if lists[p] == [] then None else Some(lists[p]))
  }

  // The nodes tell the options of all pairs, the one being assembled included.
  predicate TellsOf(nodes: seq<Node>, p: Progress) {
    p.Progress? && Tells(nodes, Lists(p.done) + [p.cur.opts])
  }

  // The nodes with one more option for the pair number idx.
  function Noted(nodes: seq<Node>, idx: nat, text: string): seq<Node> {
    if nodes == [] || nodes[|nodes| - 1].idx != idx then nodes + [Node(idx, [text])] else Extended(nodes, text)
  }

  // The nodes an option sequence leaves.
  function Notes(opts: seq<Opt>): seq<Node> {
    if opts == [] then []
    else
      var init, last := opts[..|opts| - 1], opts[|opts| - 1];
      NoteStep(Notes(init), Pairs(init), last)
  }

  function NoteStep(nodes: seq<Node>, p: Progress, o: Opt): seq<Node> {
    if o.KeyOpt? && p.Progress? then Noted(nodes, |p.done|, o.text) else nodes
  }

  // For every sequence that is not refused the nodes have strictly increasing
  // indices, and the search finds for a pair what was given while it was assembled.
  lemma {:induction false} NotesTell(opts: seq<Opt>)
    requires Pairs(opts).Progress?
    ensures TellsOf(Notes(opts), Pairs(opts))
  {
    if opts != [] {
      var init, last := opts[..|opts| - 1], opts[|opts| - 1];
      NotesTell(init);
      if last.KeyOpt? {
        OptionTells(Notes(init), Pairs(init), last.text);
      } else {
        FilesTell(Notes(init), Pairs(init), last);
      }
    } else {
      assert Lists([]) + [NOTHING.opts] == [[]];
    }
  }

  lemma FilesTell(nodes: seq<Node>, p: Progress, o: Opt)
    requires TellsOf(nodes, p) && !o.KeyOpt? && Step(p, o).Progress?
    ensures TellsOf(nodes, Step(p, o))
  {
    TellsNext(nodes, p.done, p.cur);
    var q := Step(p, o);
    assert Lists(q.done) + [q.cur.opts] in {Lists(p.done) + [p.cur.opts], Lists(p.done + [p.cur]) + [[]]};
  }

  lemma OptionTells(nodes: seq<Node>, p: Progress, text: string)
    requires TellsOf(nodes, p) && Step(p, KeyOpt(text)).Progress?
    ensures TellsOf(Noted(nodes, |p.done|, text), Step(p, KeyOpt(text)))
  {
    if nodes == [] || nodes[|nodes| - 1].idx != |p.done| {
      TellsAppend(nodes, Lists(p.done), p.cur.opts, text);
    } else {
      TellsExtend(nodes, Lists(p.done), p.cur.opts, text);
    }
  }

  lemma {:induction false} FoundSnoc(nodes: seq<Node>, n: Node, i: nat)
    ensures Found(nodes + [n], i) ==
      if Found(nodes, i).Some? then Found(nodes, i) else if n.idx == i then Some(n.opts) else None
  {
    if nodes != [] {
      FoundSnoc(nodes[1..], n, i);
      assert (nodes + [n])[1..] == nodes[1..] + [n];
    }
  }

  lemma {:induction false} NotFound(nodes: seq<Node>, i: nat)
    requires forall n :: 0 <= n < |nodes| ==> nodes[n].idx != i
    ensures Found(nodes, i).None?
  {
    if nodes != [] { NotFound(nodes[1..], i); }
  }

  lemma TellsNext(nodes: seq<Node>, done: seq<Pair>, cur: Pair)
    requires Tells(nodes, Lists(done) + [cur.opts])
    ensures Tells(nodes, Lists(done + [cur]) + [[]])
  {
    ListsSnoc(done, cur);
    NotFound(nodes, |done| + 1);
  }

  lemma TellsAppend(nodes: seq<Node>, lists: seq<seq<string>>, opts: seq<string>, text: string)
    requires Tells(nodes, lists + [opts])
    requires nodes == [] || nodes[|nodes| - 1].idx != |lists|
    ensures Tells(nodes + [Node(|lists|, [text])], lists + [opts + [text]])
  {
    var k := |lists|;
    forall n | 0 <= n < |nodes| ensures nodes[n].idx < k {
      if n < |nodes| - 1 { assert nodes[n].idx < nodes[|nodes| - 1].idx; }
    }
    NotFound(nodes, k);
    assert (lists + [opts])[k] == opts && opts == [];
    assert opts + [text] == [text];
    forall p | 0 <= p <= k
      ensures Found(nodes + [Node(k, [text])], p) ==
        if (lists + [opts + [text]])[p] == [] then None else Some((lists + [opts + [text]])[p])
    {
      FoundSnoc(nodes, Node(k, [text]), p);
      if p < k { assert (lists + [opts])[p] == lists[p]; }
    }
  }

  lemma TellsExtend(nodes: seq<Node>, lists: seq<seq<string>>, opts: seq<string>, text: string)
    requires Tells(nodes, lists + [opts]) && nodes != [] && nodes[|nodes| - 1].idx == |lists|
    ensures Tells(Extended(nodes, text), lists + [opts + [text]])
  {
    var k := |lists|;
    var init, last := nodes[..|nodes| - 1], nodes[|nodes| - 1];
    assert nodes == init + [last];
    NotFound(init, k);
    FoundSnoc(init, last, k);
    assert (lists + [opts])[k] == opts;
    forall p | 0 <= p <= k
      ensures Found(Extended(nodes, text), p) ==
        if (lists + [opts + [text]])[p] == [] then None else Some((lists + [opts + [text]])[p])
    {
      FoundSnoc(init, last, p);
      FoundSnoc(init, last.(opts := last.opts + [text]), p);
      if p < k { assert (lists + [opts])[p] == lists[p]; }
    }
  }

  predicate FiledAs(signer: Option<string>, key: Option<string>, signers: seq<string>, keys: seq<string>, p: Progress) {
    && p.Progress?
    && signer == p.cur.signer && key == p.cur.key
    && Filled(p.done, signers, keys)
    && (p.cur.signer.None? && p.cur.key.None? ==> p.done == [])
  }

  // An option leaves the files as they are. It is refused when there is no pair
  // for it, finished or not.
  lemma OptionFiled(
    signer: Option<string>, key: Option<string>, signers: seq<string>, keys: seq<string>, p: Progress, text: string)
    requires FiledAs(signer, key, signers, keys, p)
    ensures |keys| == |p.done|
    ensures Step(p, KeyOpt(text)).Progress? <==> signer.Some? || key.Some?
    ensures Step(p, KeyOpt(text)).Refused? ==> keys == []
    ensures Step(p, KeyOpt(text)).Progress? ==> FiledAs(signer, key, signers, keys, Step(p, KeyOpt(text)))
  {
  }

  // Both ways of ending a pair push its signer and its key.
  lemma PairFiled(
    signer: Option<string>, key: Option<string>, signers: seq<string>, keys: seq<string>, p: Progress, cur: Pair)
    requires FiledAs(signer, key, signers, keys, p) && p.cur.signer.Some? && (cur.signer.Some? || cur.key.Some?)
    ensures FiledAs(cur.signer, cur.key, signers + [p.cur.signer.value], keys + [KeyOf(p.cur)],
      Progress(p.done + [p.cur], cur))
  {
    FilledSnoc(p.done, signers, keys, p.cur);
  }

  // The two file lists belong to the finished pairs.
  predicate Filled(done: seq<Pair>, signers: seq<string>, keys: seq<string>) {
    |signers| == |keys| == |done| &&
    forall i :: 0 <= i < |done| ==> done[i].signer == Some(signers[i]) && KeyOf(done[i]) == keys[i]
  }

  lemma FilledSnoc(done: seq<Pair>, signers: seq<string>, keys: seq<string>, p: Pair)
    requires Filled(done, signers, keys) && p.signer.Some?
    ensures Filled(done + [p], signers + [p.signer.value], keys + [KeyOf(p)])
  {
  }

  function Lists(pairs: seq<Pair>): (l: seq<seq<string>>)
    ensures |l| == |pairs| && forall i :: 0 <= i < |l| ==> l[i] == pairs[i].opts
  {
    if pairs == [] then [] else Lists(pairs[..|pairs| - 1]) + [pairs[|pairs| - 1].opts]
  }

  lemma ListsSnoc(pairs: seq<Pair>, p: Pair)
    ensures Lists(pairs + [p]) == Lists(pairs) + [p.opts]
  {
    assert (pairs + [p])[..|pairs|] == pairs;
  }

  lemma PairsStep(opts: seq<Opt>, i: nat)
    requires i < |opts| && Pairs(opts[..i]).Progress?
    ensures Pairs(opts[..i + 1]) == Step(Pairs(opts[..i]), opts[i])
    ensures Notes(opts[..i + 1]) == NoteStep(Notes(opts[..i]), Pairs(opts[..i]), opts[i])
    ensures Step(Pairs(opts[..i]), opts[i]).Refused? ==> Pairs(opts).Refused?
  {
    assert opts[..i + 1][..i] == opts[..i];
    RefusedStays(opts, i + 1);
  }

  lemma {:induction false} RefusedStays(opts: seq<Opt>, n: nat)
    requires n <= |opts|
    ensures Pairs(opts[..n]).Refused? ==> Pairs(opts).Refused?
    decreases |opts|
  {
    if n == |opts| {
      assert opts[..n] == opts;
    } else {
      var p := opts[..|opts| - 1];
      RefusedStays(p, n);
      assert p[..n] == opts[..n];
    }
  }
}
