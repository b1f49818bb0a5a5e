// The list of configuration sections given to the CMP client: the tokenizer
// that walks it backwards, and the option look-up that tries the sections from
// the last to the first.
module Sections {
  import opened Text

  const SECTION_NAME_MAX: nat := 40

  // A comma, or what isspace accepts: the blank and the five control
  // characters from tab to carriage return.
  predicate IsSeparator(c: char) {
    c == ',' || c == ' ' || 9 <= c as int <= 13
  }

  predicate NoSeparator(s: string) { forall i :: 0 <= i < |s| ==> !IsSeparator(s[i]) }

  predicate OnlySeparators(s: string) { forall i :: 0 <= i < |s| ==> IsSeparator(s[i]) }

  // ------------------------------------------------------ the specification

  // The characters in front of the first separator.
  function FirstWord(s: string): (w: string)
    ensures |w| <= |s| && w == s[..|w|] && NoSeparator(w)
    ensures |w| < |s| ==> IsSeparator(s[|w|])
  {
    if s == "" || IsSeparator(s[0]) then "" else [s[0]] + FirstWord(s[1..])
  }

  // The words of a list, read from the front.
  function Words(s: string): seq<string>
    decreases |s|
  {
    if s == "" then []
    else if IsSeparator(s[0]) then Words(s[1..])
    else [FirstWord(s)] + Words(s[|FirstWord(s)|..])
  }

  // A list that ends in a separator counts one more, empty, word.
  function Names(s: string): seq<string> {
    Words(s) + (if s != "" && IsSeparator(s[|s| - 1]) then [""] else [])
  }

  // Section names are looked up with at most SECTION_NAME_MAX characters.
  function Clipped(w: string): (c: string)
    ensures |c| <= SECTION_NAME_MAX && c <= w
    ensures |w| <= SECTION_NAME_MAX ==> c == w
  {
    if |w| > SECTION_NAME_MAX then w[..SECTION_NAME_MAX] else w
  }

  // What the configuration itself defines: option values by section and name,
  // and the environment, visible under the section name ENV.
  datatype Config = Config(values: map<(string, string), string>, environment: map<string, string>)
  {
    function Own(section: string, name: string): Option<string> {
      if (section, name) in values then Some(values[(section, name)])
      else if section == "ENV" && name in environment then Some(environment[name])
      else None
    }

    // NCONF_get_string: every single look-up falls back to the default section.
    function Lookup(section: string, name: string): Option<string> {
      if Own(section, name).Some? then Own(section, name) else Default(name)
    }

    function Default(name: string): Option<string> {
      if ("default", name) in values then Some(values[("default", name)]) else None
    }
  }

  // The value of an option: the look-up in the last name that has one.
  function LastValue(conf: Config, names: seq<string>, option: string): Option<string> {
    if names == [] then None
    else
      var v := conf.Lookup(Clipped(names[|names| - 1]), option);
      if v.Some? then v else LastValue(conf, names[..|names| - 1], option)
  }

  // ---------------------------------------------------------- the programs

  // prev_item: the name that ends at end, and where the rest of the list ends;
  // None when there is no rest.
  method PrevItem(opt: string, end: nat) returns (next: Option<nat>, item: string)
    requires end <= |opt|
    requires end == |opt| || end == 0 || !IsSeparator(opt[end - 1])
    ensures next.None? <==> end == 0
    ensures next.Some? ==>
      && next.value < end
      && (next.value == 0 || !IsSeparator(opt[next.value - 1]))
      && LastIs(opt, end, next.value, item)
  {
    if end == 0 { return None, ""; }
    var start := WordStart(opt, end);
    var len := end - start;
    if len > SECTION_NAME_MAX { len := SECTION_NAME_MAX; }
    item := opt[start..start + len];
    assert item == Clipped(opt[start..end]);
    var beg := SkipBack(opt, start);
    LastName(opt, beg, start, end);
    next := Some(beg);
  }

  // Its first loop: back over the characters of a word.
  method WordStart(opt: string, end: nat) returns (beg: nat)
    requires end <= |opt|
    ensures beg <= end && NoSeparator(opt[beg..end]) && (beg == 0 || IsSeparator(opt[beg - 1]))
  {
    beg := end;
    while beg > 0
      invariant 0 <= beg <= end && NoSeparator(opt[beg..end])
    {
      beg := beg - 1;
      if IsSeparator(opt[beg]) {
        beg := beg + 1;
        break;
      }
      assert opt[beg..end] == [opt[beg]] + opt[beg + 1..end];
    }
  }

  // Its second loop: back over separators.
  method SkipBack(opt: string, start: nat) returns (beg: nat)
    requires start <= |opt|
    ensures beg <= start && OnlySeparators(opt[beg..start]) && (beg == 0 || !IsSeparator(opt[beg - 1]))
  {
    beg := start;
    while beg > 0
      invariant 0 <= beg <= start && OnlySeparators(opt[beg..start])
    {
      beg := beg - 1;
      if !IsSeparator(opt[beg]) {
        beg := beg + 1;
        break;
      }
      assert opt[beg..start] == [opt[beg]] + opt[beg + 1..start];
    }
  }

  // conf_get_string.
  method ConfGetString(conf: Config, groups: string, option: string) returns (res: Option<string>)
    ensures res == LastValue(conf, Names(groups), option)
  {
    var end: nat := |groups|;
    ghost var value := LastValue(conf, Names(groups), option);
    assert groups[..end] == groups;
    while true
      invariant end <= |groups|
      invariant end == |groups| || end == 0 || !IsSeparator(groups[end - 1])
      invariant value == ValueUpTo(conf, groups, end, option)
      decreases end
    {
      var next, item := PrevItem(groups, end);
      ValueStep(conf, groups, end, next, item, option);
      if next.None? { return None; }
      res := conf.Lookup(item, option);
      if res.Some? { return; }
      end := next.value;
    }
  }

  // The names up to end are those up to beg and one more, of which item is what counts.
  predicate LastIs(opt: string, end: nat, beg: nat, item: string)
    requires beg <= end <= |opt|
  {
    var all, front := Names(opt[..end]), Names(opt[..beg]);
    |all| == |front| + 1 && all[..|front|] == front && item == Clipped(all[|front|])
  }

  function ValueUpTo(conf: Config, groups: string, end: nat, option: string): Option<string>
    requires end <= |groups|
  {
    LastValue(conf, Names(groups[..end]), option)
  }

  // ------------------------------------------------------------------ facts

  lemma LastValueStep(conf: Config, names: seq<string>, w: string, option: string)
    ensures LastValue(conf, names + [w], option) ==
      if conf.Lookup(Clipped(w), option).Some? then conf.Lookup(Clipped(w), option) else LastValue(conf, names, option)
  {
    assert (names + [w])[..|names|] == names;
  }

  // What one call of prev_item contributes to the value.
  lemma ValueStep(conf: Config, groups: string, end: nat, next: Option<nat>, item: string, option: string)
    requires end <= |groups| && (next.None? ==> end == 0) && (next.Some? ==> next.value <= end)
    requires next.Some? ==> LastIs(groups, end, next.value, item)
    ensures ValueUpTo(conf, groups, end, option) ==
      if next.None? then None
      else if conf.Lookup(item, option).Some? then conf.Lookup(item, option)
      else ValueUpTo(conf, groups, next.value, option)
  {
    if next.Some? {
      var all, front := Names(groups[..end]), Names(groups[..next.value]);
      LastValueStep(conf, front, all[|front|], option);
      assert all == front + [all[|front|]];
    } else {
      assert groups[..end] == "";
    }
  }

  lemma FirstWordIs(w: string, rest: string)
    requires NoSeparator(w) && (rest != "" ==> IsSeparator(rest[0]))
    ensures FirstWord(w + rest) == w
  {
    var s := w + rest;
    var f := FirstWord(s);
    assert forall i :: 0 <= i < |w| ==> s[i] == w[i] && !IsSeparator(s[i]);
    assert forall i :: 0 <= i < |f| ==> f[i] == s[i] && !IsSeparator(s[i]);
    assert rest != "" ==> s[|w|] == rest[0];
  }

  lemma WordStep(w: string, rest: string)
    requires NoSeparator(w) && w != "" && (rest != "" ==> IsSeparator(rest[0]))
    ensures Words(w + rest) == [w] + Words(rest)
  {
    FirstWordIs(w, rest);
    assert (w + rest)[0] == w[0] && (w + rest)[|w|..] == rest;
  }

  lemma SeparatorStep(c: char, rest: string)
    requires IsSeparator(c)
    ensures Words([c] + rest) == Words(rest)
  {
    assert ([c] + rest)[1..] == rest;
  }

  // The first step of reading p, with and without more text behind it.
  lemma FirstStep(p: string, more: string) returns (head: seq<string>, r: string)
    requires p != ""
    requires IsSeparator(p[0]) || |FirstWord(p)| < |p| || more == "" || IsSeparator(more[0])
    ensures |r| < |p| && r == p[|p| - |r|..]
    ensures Words(p) == head + Words(r) && Words(p + more) == head + Words(r + more)
  {
    if IsSeparator(p[0]) {
      head, r := [], p[1..];
      assert p == [p[0]] + r && p + more == [p[0]] + (r + more);
      SeparatorStep(p[0], r + more);
      SeparatorStep(p[0], r);
    } else {
      var f := FirstWord(p);
      head, r := [f], p[|f|..];
      assert p == f + r && p + more == f + (r + more);
      WordStep(f, r + more);
      WordStep(f, r);
    }
  }

  // A word added behind a separator is the last word.
  lemma {:induction false} WordsSnoc(p: string, w: string)
    requires NoSeparator(w) && w != "" && (p == "" || IsSeparator(p[|p| - 1]))
    ensures Words(p + w) == Words(p) + [w]
    decreases |p|
  {
    if p == "" {
      WordStep(w, "");
      assert p + w == w + "";
    } else {
      var head, r := FirstStep(p, w);
      WordsSnoc(r, w);
      assert head + (Words(r) + [w]) == (head + Words(r)) + [w];
    }
  }

  lemma {:induction false} NoWords(seps: string)
    requires OnlySeparators(seps)
    ensures Words(seps) == []
  {
    if seps != "" { NoWords(seps[1..]); }
  }

  // Separators at the end add no word.
  lemma {:induction false} WordsTrim(p: string, seps: string)
    requires OnlySeparators(seps)
    ensures Words(p + seps) == Words(p)
    decreases |p|
  {
    if p == "" {
      assert p + seps == seps;
      NoWords(seps);
    } else {
      var head, r := FirstStep(p, seps);
      WordsTrim(r, seps);
    }
  }

  // The list up to end is the list up to beg, some separators, and one name.
  lemma LastName(opt: string, beg: nat, start: nat, end: nat)
    requires beg <= start <= end <= |opt| && end > 0
    requires NoSeparator(opt[start..end]) && OnlySeparators(opt[beg..start])
    requires start == 0 || IsSeparator(opt[start - 1])
    requires beg == 0 || !IsSeparator(opt[beg - 1])
    ensures Names(opt[..end]) == Names(opt[..beg]) + [opt[start..end]]
  {
    var w := opt[start..end];
    assert opt[..end] == opt[..start] + w && opt[..start] == opt[..beg] + opt[beg..start];
    WordsTrim(opt[..beg], opt[beg..start]);
    if w == "" {
      assert opt[..end] == opt[..start];
    } else {
      WordsSnoc(opt[..start], w);
      assert opt[..end][end - 1] == w[|w| - 1];
    }
  }

  // The value the last section that has one of its own gives.
  function LastOwn(conf: Config, names: seq<string>, option: string): Option<string> {
    if names == [] then None
    else
      var v := conf.Own(Clipped(names[|names| - 1]), option);
      if v.Some? then v else LastOwn(conf, names[..|names| - 1], option)
  }

  // What the documentation promises: a section named later overrides one named
  // before, and the default section is the fallback behind them all.
  function Promised(conf: Config, names: seq<string>, option: string): Option<string> {
    if LastOwn(conf, names, option).Some? then LastOwn(conf, names, option) else conf.Default(option)
  }

  // The code meets the promise unless the default section has the option, the
  // last section named does not, and an earlier section has it with another
  // value: already the first look-up falls back to the default section then.
  lemma {:induction false} OverridePromise(conf: Config, names: seq<string>, option: string)
    requires names != []
    ensures LastValue(conf, names, option) == Promised(conf, names, option) <==>
      !(&& conf.Default(option).Some?
        && conf.Own(Clipped(names[|names| - 1]), option).None?
        && LastOwn(conf, names, option).Some?
        && LastOwn(conf, names, option) != conf.Default(option))
  {
    if conf.Default(option).None? { NoDefault(conf, names, option); }
  }

  lemma {:induction false} NoDefault(conf: Config, names: seq<string>, option: string)
    requires conf.Default(option).None?
    ensures LastValue(conf, names, option) == LastOwn(conf, names, option)
  {
    if names != [] { NoDefault(conf, names[..|names| - 1], option); }
  }

  // A concrete list on which it fails.
  lemma EarlierSectionIsShadowed()
    ensures var conf := Config(map[("a", "x") := "1", ("default", "x") := "0"], map[]);
      LastValue(conf, ["a", "b"], "x") == Some("0") && Promised(conf, ["a", "b"], "x") == Some("1")
  {
    var conf := Config(map[("a", "x") := "1", ("default", "x") := "0"], map[]);
    assert ["a", "b"][..1] == ["a"];
    assert conf.Own("b", "x").None? && conf.Own("a", "x") == Some("1");
    assert LastOwn(conf, ["a"], "x") == Some("1");
  }

  // Names in a list separated by commas are those names.
  function Listed(ws: seq<string>): string {
    if ws == [] then ""
    else if |ws| == 1 then ws[0]
    else Listed(ws[..|ws| - 1]) + "," + ws[|ws| - 1]
  }

  lemma {:induction false} ListedNames(ws: seq<string>)
    requires forall i :: 0 <= i < |ws| ==> ws[i] != "" && NoSeparator(ws[i])
    ensures Names(Listed(ws)) == ws
  {
    if |ws| > 0 {
      var init, w := ws[..|ws| - 1], ws[|ws| - 1];
      assert ws == init + [w];
      if init == [] {
        WordStep(w, "");
        assert Listed(ws) == w == w + "";
      } else {
        ListedNames(init);
        ListedWord(init);
        var front := Listed(init) + ",";
        WordsTrim(Listed(init), ",");
        WordsSnoc(front, w);
        assert Listed(ws) == front + w && Listed(ws)[|Listed(ws)| - 1] == w[|w| - 1];
      }
    }
  }

  lemma ListedWord(ws: seq<string>)
    requires ws != [] && forall i :: 0 <= i < |ws| ==> ws[i] != "" && NoSeparator(ws[i])
    ensures Listed(ws) != "" && !IsSeparator(Listed(ws)[|Listed(ws)| - 1])
  {
    var w := ws[|ws| - 1];
    assert !IsSeparator(w[|w| - 1]);
  }

  // What separates them, how much of a name counts, and where the environment is
  // found.
  lemma ListDetails(c: char, w: string, v: string)
    ensures IsSeparator(c) <==> c in {',', ' ', '\t', '\n', '\r', 11 as char, 12 as char}
    ensures |Clipped(w)| == if |w| > 40 then 40 else |w|
    ensures Config(map[], map["x" := v]).Lookup("ENV", "x") == Some(v)
    ensures Config(map[("ENV", "x") := "own", ("default", "x") := "0"], map["x" := v]).Lookup("ENV", "x") == Some("own")
    ensures Config(map[("default", "x") := v], map["y" := v]).Lookup("ENV", "x") == Some(v)
    ensures Config(map[("default", "x") := v], map["x" := v]).Lookup("a", "y").None?
  {
  }
}
