// The -signer, -inkey and -keyopt options of a signing operation, and which of
// them belong together: as they are read, one by one, and as they are written,
// in blocks.
module Pairing {
  import opened Text

  datatype Opt = SignerFile(file: string) | InKey(file: string) | KeyOpt(text: string)

  // ------------------------------------------------------ the specification

  // One signer in the making, and the options given meanwhile.
  datatype Pair = Pair(signer: Option<string>, key: Option<string>, opts: seq<string>)

  const NOTHING := Pair(None, None, [])

  // The finished pairs and the one in the making -- or an option was refused.
  datatype Progress = Progress(done: seq<Pair>, cur: Pair) | Refused

  // The effect of one option: a pair ends in front of a -signer when it has a
  // signer already, and in front of an -inkey when it has a key already. A
  // second key without a signer is refused, and so is an option that belongs
  // to no pair.
  function Step(p: Progress, o: Opt): Progress
    requires p.Progress?
  {
    match o
    case SignerFile(f) =>
      if p.cur.signer.Some? then Progress(p.done + [p.cur], Pair(Some(f), None, []))
      else p.(cur := p.cur.(signer := Some(f)))
    case InKey(f) =>
      if p.cur.key.None? then p.(cur := p.cur.(key := Some(f)))
      else if p.cur.signer.None? then Refused
      else Progress(p.done + [p.cur], Pair(None, Some(f), []))
    case KeyOpt(o) =>
      if p.cur.signer.None? && p.cur.key.None? then Refused
      else p.(cur := p.cur.(opts := p.cur.opts + [o]))
  }

  function Pairs(opts: seq<Opt>): Progress {
    if opts == [] then Progress([], NOTHING)
    else
      var p := Pairs(opts[..|opts| - 1]);
      if p.Refused? then Refused else Step(p, opts[|opts| - 1])
  }

  // The pairs of a whole option sequence: refused when the last pair, or the
  // only one, has no signer.
  function AllPairs(opts: seq<Opt>): Option<seq<Pair>> {
    var p := Pairs(opts);
    if p.Refused? || p.cur.signer.None? then None else Some(p.done + [p.cur])
  }

  function KeyOf(p: Pair): string
    requires p.signer.Some?
  {
    if p.key.Some? then p.key.value else p.signer.value
  }

  // What is handed to the signing loop for one signer.
  datatype SignerInfo = SignerInfo(cert: string, key: string, params: seq<string>)

  function InfoOf(p: Pair): SignerInfo
    requires p.signer.Some?
  {
    SignerInfo(p.signer.value, KeyOf(p), p.opts)
  }

  // --------------------------------------------------------- blocks of options

  // The options of one signer: a -signer or an -inkey, its options, and perhaps
  // the other of the two with further options.
  datatype Block = Block(first: Opt, opts: seq<string>, second: Option<Opt>, more: seq<string>)

  predicate Shaped(b: Block) {
    && !b.first.KeyOpt?
    && (b.second.None? ==> b.more == [])
    && (b.second.Some? && b.first.SignerFile? ==> b.second.value.InKey?)
    && (b.second.Some? && b.first.InKey? ==> b.second.value.SignerFile?)
  }

  function SignerIn(b: Block): Option<string> {
    if b.first.SignerFile? then Some(b.first.file)
    else if b.second.Some? && b.second.value.SignerFile? then Some(b.second.value.file)
    else None
  }

  function KeyIn(b: Block): Option<string> {
    if b.first.InKey? then Some(b.first.file)
    else if b.second.Some? && b.second.value.InKey? then Some(b.second.value.file)
    else None
  }

  // Every block has its form, a signer, and a key unless it is the last one or
  // the next one begins with a -signer.
  predicate Wellformed(bs: seq<Block>) {
    Followed(bs) && (bs != [] ==> SignerIn(bs[|bs| - 1]).Some?)
  }

  // The same while the last block may lack its signer.
  predicate Followed(bs: seq<Block>) {
    && (forall i :: 0 <= i < |bs| ==> Shaped(bs[i]))
    && (forall i :: 0 <= i < |bs| - 1 ==> SignerIn(bs[i]).Some?)
    && (forall i :: 0 <= i < |bs| - 1 ==> KeyIn(bs[i]).Some? || bs[i + 1].first.SignerFile?)
  }

  function Given(texts: seq<string>): (opts: seq<Opt>)
    ensures |opts| == |texts|
  {
    seq(|texts|, i requires 0 <= i < |texts| => KeyOpt(texts[i]))
  }

  function Spelled(b: Block): seq<Opt> {
    [b.first] + Given(b.opts) + (if b.second.Some? then [b.second.value] + Given(b.more) else [])
  }

  // The option sequence that consists of these blocks.
  function Sequence(bs: seq<Block>): seq<Opt> {
    if bs == [] then [] else Sequence(bs[..|bs| - 1]) + Spelled(bs[|bs| - 1])
  }

  function Together(b: Block): Pair { Pair(SignerIn(b), KeyIn(b), b.opts + b.more) }

  // Reading goes on behind options that have been read.
  function Run(p: Progress, opts: seq<Opt>): Progress {
    if opts == [] then p
    else
      var q := Run(p, opts[..|opts| - 1]);
      if q.Refused? then Refused else Step(q, opts[|opts| - 1])
  }

  lemma {:induction false} RunAppend(p: Progress, a: seq<Opt>, b: seq<Opt>)
    ensures Run(p, a + b) == Run(Run(p, a), b)
  {
    if b == [] {
      assert a + b == a;
    } else {
      RunAppend(p, a, b[..|b| - 1]);
      assert (a + b)[..|a + b| - 1] == a + b[..|b| - 1];
    }
  }

  lemma {:induction false} PairsAreRun(opts: seq<Opt>)
    ensures Pairs(opts) == Run(Progress([], NOTHING), opts)
  {
    if opts != [] { PairsAreRun(opts[..|opts| - 1]); }
  }

  lemma RunOne(p: Progress, o: Opt)
    requires p.Progress?
    ensures Run(p, [o]) == Step(p, o)
  {
    assert [o][..0] == [];
  }

  lemma {:induction false} RunGiven(done: seq<Pair>, cur: Pair, texts: seq<string>)
    requires cur.signer.Some? || cur.key.Some?
    ensures Run(Progress(done, cur), Given(texts)) == Progress(done, cur.(opts := cur.opts + texts))
  {
    if texts == [] {
      assert cur.opts + texts == cur.opts;
    } else {
      var init := texts[..|texts| - 1];
      RunGiven(done, cur, init);
      assert Given(texts)[..|texts| - 1] == Given(init);
      assert cur.opts + init + [texts[|texts| - 1]] == cur.opts + texts;
    }
  }

  // A block that starts a new pair becomes that pair.
  lemma BlockRead(p: Progress, b: Block, done: seq<Pair>)
    requires p.Progress? && Shaped(b)
    requires Step(p, b.first) == Progress(done, Together(Block(b.first, [], None, [])))
    ensures Run(p, Spelled(b)) == Progress(done, Together(b))
  {
    var start := Together(Block(b.first, [], None, []));
    var mid := start.(opts := b.opts);
    RunOne(p, b.first);
    RunGiven(done, start, b.opts);
    assert start.opts + b.opts == b.opts;
    RunAppend(p, [b.first], Given(b.opts));
    if b.second.Some? {
      SecondRead(done, mid, b);
      RunAppend(p, [b.first] + Given(b.opts), [b.second.value] + Given(b.more));
    } else {
      assert Spelled(b) == [b.first] + Given(b.opts);
      assert b.opts + b.more == b.opts;
    }
  }

  lemma SecondRead(done: seq<Pair>, mid: Pair, b: Block)
    requires Shaped(b) && b.second.Some? && mid == Together(Block(b.first, [], None, [])).(opts := b.opts)
    ensures Run(Progress(done, mid), [b.second.value] + Given(b.more)) == Progress(done, Together(b))
  {
    var both := Together(b).(opts := b.opts);
    RunOne(Progress(done, mid), b.second.value);
    assert Step(Progress(done, mid), b.second.value) == Progress(done, both);
    RunGiven(done, both, b.more);
    RunAppend(Progress(done, mid), [b.second.value], Given(b.more));
  }

  function PairsOf(bs: seq<Block>): (pairs: seq<Pair>)
    ensures |pairs| == |bs|
  {
    seq(|bs|, i requires 0 <= i < |bs| => Together(bs[i]))
  }

  // Blocks are read one by one, each into the pair it spells.
  lemma {:induction false} BlocksRead(bs: seq<Block>)
    requires Followed(bs) && bs != []
    ensures Pairs(Sequence(bs)) == Progress(PairsOf(bs[..|bs| - 1]), Together(bs[|bs| - 1]))
  {
    var init, last := bs[..|bs| - 1], bs[|bs| - 1];
    PairsAreRun(Sequence(init));
    PairsAreRun(Sequence(bs));
    RunAppend(Progress([], NOTHING), Sequence(init), Spelled(last));
    if init == [] {
      BlockRead(Progress([], NOTHING), last, []);
    } else {
      FollowedInit(bs);
      BlocksRead(init);
      BlockRead(Pairs(Sequence(init)), last, PairsOf(init));
    }
  }

  lemma FollowedInit(bs: seq<Block>)
    requires Followed(bs) && |bs| > 1
    ensures var init := bs[..|bs| - 1];
      && Followed(init) && SignerIn(init[|init| - 1]).Some?
      && (KeyIn(init[|init| - 1]).Some? || bs[|bs| - 1].first.SignerFile?)
      && PairsOf(init) == PairsOf(init[..|init| - 1]) + [Together(init[|init| - 1])]
  {
  }

  // And only such sequences are read to their end.
  lemma {:induction false} ReadAreBlocks(opts: seq<Opt>) returns (bs: seq<Block>)
    requires opts != [] && Pairs(opts).Progress?
    ensures bs != [] && Followed(bs) && Sequence(bs) == opts
    decreases |opts|
  {
    var init, o := opts[..|opts| - 1], opts[|opts| - 1];
    if init == [] {
      bs := [Block(o, [], None, [])];
      assert Sequence([]) == [] && bs[..0] == [];
      assert opts == [o];
    } else {
      bs := ReadAreBlocks(init);
      BlocksRead(bs);
      assert opts == init + [o];
      bs := OneMore(bs, o);
    }
  }

  // The blocks with one more option.
  lemma OneMore(bs: seq<Block>, o: Opt) returns (more: seq<Block>)
    requires Followed(bs) && bs != [] && Step(Progress([], Together(bs[|bs| - 1])), o).Progress?
    ensures more != [] && Followed(more) && Sequence(more) == Sequence(bs) + [o]
  {
    var last := bs[|bs| - 1];
    if o.KeyOpt? {
      var b := if last.second.Some? then last.(more := last.more + [o.text]) else last.(opts := last.opts + [o.text]);
      more := bs[|bs| - 1 := b];
      assert more[..|bs| - 1] == bs[..|bs| - 1];
      OptionSpelled(last, o.text);
      assert Spelled(b) == Spelled(last) + [o];
    } else if last.second.None? && last.first.SignerFile? != o.SignerFile? {
      var b := last.(second := Some(o));
      more := bs[|bs| - 1 := b];
      assert more[..|bs| - 1] == bs[..|bs| - 1];
      assert Spelled(b) == Spelled(last) + [o];
    } else {
      more := bs + [Block(o, [], None, [])];
      assert more[..|bs|] == bs;
      assert Spelled(more[|bs|]) == [o];
    }
  }

  lemma OptionSpelled(b: Block, text: string)
    requires Shaped(b)
    ensures b.second.Some? ==> Spelled(b.(more := b.more + [text])) == Spelled(b) + [KeyOpt(text)]
    ensures b.second.None? ==> Spelled(b.(opts := b.opts + [text])) == Spelled(b) + [KeyOpt(text)]
  {
    assert Given(b.more + [text]) == Given(b.more) + [KeyOpt(text)];
    assert Given(b.opts + [text]) == Given(b.opts) + [KeyOpt(text)];
  }

  // A sequence is accepted exactly when it consists of well-formed blocks, at
  // least one.
  lemma AcceptedAreBlocks(opts: seq<Opt>)
    ensures AllPairs(opts).Some? <==> exists bs: seq<Block> :: bs != [] && Wellformed(bs) && Sequence(bs) == opts
  {
    if AllPairs(opts).Some? {
      var bs := ReadAreBlocks(opts);
      BlocksRead(bs);
      assert Wellformed(bs);
    }
    if bs: seq<Block> :| bs != [] && Wellformed(bs) && Sequence(bs) == opts { BlocksRead(bs); }
  }

  // The signers are then those of the blocks, one by one: the -signer of the
  // block, its -inkey or else the file of the signer itself, and its options.
  predicate BlockInfo(b: Block, i: SignerInfo) {
    && SignerIn(b) == Some(i.cert)
    && (if KeyIn(b).Some? then i.key == KeyIn(b).value else i.key == i.cert)
    && i.params == b.opts + b.more
  }

  lemma BlocksPaired(bs: seq<Block>)
    requires bs != [] && Wellformed(bs)
    ensures AllPairs(Sequence(bs)) == Some(PairsOf(bs))
    ensures forall i :: 0 <= i < |bs| ==> PairsOf(bs)[i].signer.Some? && BlockInfo(bs[i], InfoOf(PairsOf(bs)[i]))
  {
    BlocksRead(bs);
    LastPair(bs);
    forall i | 0 <= i < |bs|
      ensures PairsOf(bs)[i].signer.Some? && BlockInfo(bs[i], InfoOf(PairsOf(bs)[i]))
    {
      SignerIsIn(bs, i);
    }
  }

  lemma LastPair(bs: seq<Block>)
    requires bs != []
    ensures PairsOf(bs) == PairsOf(bs[..|bs| - 1]) + [Together(bs[|bs| - 1])]
  {
  }

  lemma SignerIsIn(bs: seq<Block>, i: nat)
    requires i < |bs| && Wellformed(bs)
    ensures SignerIn(bs[i]).Some?
  {
  }

  // ------------------------------------------------------------------ facts

  function SignerFiles(opts: seq<Opt>): seq<string> {
    if opts == [] then []
    else SignerFiles(opts[..|opts| - 1]) + (if opts[|opts| - 1].SignerFile? then [opts[|opts| - 1].file] else [])
  }

  function KeyFiles(opts: seq<Opt>): seq<string> {
    if opts == [] then []
    else KeyFiles(opts[..|opts| - 1]) + (if opts[|opts| - 1].InKey? then [opts[|opts| - 1].file] else [])
  }

  function KeyOpts(opts: seq<Opt>): seq<string> {
    if opts == [] then []
    else KeyOpts(opts[..|opts| - 1]) + (if opts[|opts| - 1].KeyOpt? then [opts[|opts| - 1].text] else [])
  }

  function Listed1(o: Option<string>): seq<string> { if o.Some? then [o.value] else [] }

  function SignersOf(pairs: seq<Pair>): seq<string> {
    if pairs == [] then [] else SignersOf(pairs[..|pairs| - 1]) + Listed1(pairs[|pairs| - 1].signer)
  }

  function KeysOf(pairs: seq<Pair>): seq<string> {
    if pairs == [] then [] else KeysOf(pairs[..|pairs| - 1]) + Listed1(pairs[|pairs| - 1].key)
  }

  function OptsOf(pairs: seq<Pair>): seq<string> {
    if pairs == [] then [] else OptsOf(pairs[..|pairs| - 1]) + pairs[|pairs| - 1].opts
  }

  // Nothing is lost, invented or reordered: the signers of the pairs are the
  // -signer arguments in order, their keys the -inkey arguments, each used
  // once, and their options the -keyopt arguments; every finished pair has a
  // signer.
  lemma {:induction false} PairsConserve(opts: seq<Opt>)
    requires Pairs(opts).Progress?
    ensures var p := Pairs(opts);
      && SignersOf(p.done + [p.cur]) == SignerFiles(opts)
      && KeysOf(p.done + [p.cur]) == KeyFiles(opts)
      && OptsOf(p.done + [p.cur]) == KeyOpts(opts)
      && forall i :: 0 <= i < |p.done| ==> p.done[i].signer.Some?
  {
    if opts == [] {
      PairsLast([], NOTHING);
    } else {
      PairsConserve(opts[..|opts| - 1]);
      StepConserves(Pairs(opts[..|opts| - 1]), opts[|opts| - 1]);
    }
  }

  lemma StepConserves(p: Progress, o: Opt)
    requires p.Progress? && Step(p, o).Progress?
    ensures var q := Step(p, o);
      && SignersOf(q.done + [q.cur]) == SignersOf(p.done + [p.cur]) + (if o.SignerFile? then [o.file] else [])
      && KeysOf(q.done + [q.cur]) == KeysOf(p.done + [p.cur]) + (if o.InKey? then [o.file] else [])
      && OptsOf(q.done + [q.cur]) == OptsOf(p.done + [p.cur]) + (if o.KeyOpt? then [o.text] else [])
      && (q.done == p.done || (q.done == p.done + [p.cur] && p.cur.signer.Some?))
  {
    var q := Step(p, o);
    PairsLast(q.done, q.cur);
    if q.done == p.done {
      PairsLast(p.done, p.cur);
      SameDone(SignersOf(p.done), KeysOf(p.done), OptsOf(p.done), p.cur, q.cur, o);
    }
  }

  // An option that goes to the pair in the making adds to it at the end.
  lemma SameDone(s: seq<string>, k: seq<string>, t: seq<string>, cur: Pair, cur': Pair, o: Opt)
    requires Step(Progress([], cur), o) == Progress([], cur')
    ensures s + Listed1(cur'.signer) == s + Listed1(cur.signer) + (if o.SignerFile? then [o.file] else [])
    ensures k + Listed1(cur'.key) == k + Listed1(cur.key) + (if o.InKey? then [o.file] else [])
    ensures t + cur'.opts == t + cur.opts + (if o.KeyOpt? then [o.text] else [])
  {
  }

  lemma PairsLast(done: seq<Pair>, cur: Pair)
    ensures SignersOf(done + [cur]) == SignersOf(done) + Listed1(cur.signer)
    ensures KeysOf(done + [cur]) == KeysOf(done) + Listed1(cur.key)
    ensures OptsOf(done + [cur]) == OptsOf(done) + cur.opts
  {
    assert (done + [cur])[..|done|] == done;
  }

  // For an accepted sequence there is one signer and one key per pair, in
  // option order; a signer without a key of its own uses its own file.
  lemma SignersPaired(opts: seq<Opt>)
    requires AllPairs(opts).Some?
    ensures var pairs := AllPairs(opts).value;
      && (forall i :: 0 <= i < |pairs| ==> pairs[i].signer.Some?)
      && |pairs| == |SignerFiles(opts)| > 0
      && (forall i :: 0 <= i < |pairs| ==> pairs[i].signer == Some(SignerFiles(opts)[i]))
      && KeysOf(pairs) == KeyFiles(opts)
      && OptsOf(pairs) == KeyOpts(opts)
  {
    PairsConserve(opts);
    SignersAreFiles(AllPairs(opts).value);
  }

  lemma {:induction false} SignersAreFiles(pairs: seq<Pair>)
    requires forall i :: 0 <= i < |pairs| ==> pairs[i].signer.Some?
    ensures |SignersOf(pairs)| == |pairs|
    ensures forall i :: 0 <= i < |pairs| ==> pairs[i].signer == Some(SignersOf(pairs)[i])
  {
    if pairs != [] { SignersAreFiles(pairs[..|pairs| - 1]); }
  }
}
