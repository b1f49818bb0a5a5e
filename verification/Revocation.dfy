// The revocation field of a database row: "time[,reason[,extra]]". It is
// written when a certificate is revoked and unpacked by the loader, the CRL
// generator and the OCSP responder.
module Revocation {
  import opened Text
  import opened Asn1Time
  import CString

  datatype RevType =
    | RevValid           // no revocation: only add the certificate
    | RevNone
    | RevCrlReason       // argument: name of a CRL reason
    | RevHold            // argument: object identifier of a hold instruction
    | RevKeyCompromise   // argument: time of the compromise
    | RevCaCompromise    // argument: time of the compromise

  type Oid = seq<nat>

  // OBJ_txt2obj: what a text names as an object identifier, if anything.
  type Objects = string -> Option<Oid>

  // The table of reason names; the last three are pseudo reasons.
  const NUM_REASONS: nat := 11

  function CrlReason(i: nat): string
    requires i < NUM_REASONS
  {
    match i
    case 0 => "unspecified"
    case 1 => "keyCompromise"
    case 2 => "CACompromise"
    case 3 => "affiliationChanged"
    case 4 => "superseded"
    case 5 => "cessationOfOperation"
    case 6 => "certificateHold"
    case 7 => "removeFromCRL"
    case 8 => "holdInstruction"
    case 9 => "keyTime"
    case _ => "CAkeyTime"
  }

  // Reason codes of RFC 5280 section 5.3.1; no code stands for "no reason".
  const NO_REASON := -1
  const KEY_COMPROMISE := 1
  const CA_COMPROMISE := 2
  const CERTIFICATE_HOLD := 6
  const REMOVE_FROM_CRL := 8

  // What unpack_revinfo hands back. A time that does not parse leaves an
  // allocated but empty time behind, written here as None.
  datatype RevInfo = RevInfo(
    ok: bool, time: Option<string>, reason: int, hold: Option<Oid>, invalidity: Option<string>)

  // The text in front of the first comma, and what follows it.
  function Head(s: string): (h: string)
    ensures |h| <= |s| && h == s[..|h|] && ',' !in h
    ensures |h| < |s| ==> s[|h|] == ','
  {
    if s == "" || s[0] == ',' then "" else [s[0]] + Head(s[1..])
  }

  function Rest(s: string): (r: Option<string>) {
    if |Head(s)| == |s| then None else Some(s[|Head(s)| + 1..])
  }

  // Index of the first of the n leading reason names that equals s up to
  // letter case; n when there is none.
  function ReasonIndex(s: string, n: nat): (i: nat)
    requires n <= NUM_REASONS
    ensures i <= n
    ensures i < n ==> SameIgnoringCase(s, CrlReason(i))
    ensures forall j :: 0 <= j < i ==> !SameIgnoringCase(s, CrlReason(j))
  {
    FirstReason(s, 0, n)
  }

  function FirstReason(s: string, from: nat, n: nat): (i: nat)
    requires from <= n <= NUM_REASONS
    ensures from <= i <= n
    ensures i < n ==> SameIgnoringCase(s, CrlReason(i))
    ensures forall j :: from <= j < i ==> !SameIgnoringCase(s, CrlReason(j))
    decreases n - from
  {
    if from == n || SameIgnoringCase(s, CrlReason(from)) then from else FirstReason(s, from + 1, n)
  }

  // ------------------------------------------------------ the specification

  // The reason and extra parts chosen for a revocation type and its argument;
  // None when the argument is refused.
  function Parts(k: RevType, arg: string, objects: Objects): Option<(Option<string>, Option<string>)> {
    match k
    case RevValid => Some((None, None))
    case RevNone => Some((None, None))
    case RevCrlReason =>
      var i := ReasonIndex(arg, 8);
      if i == 8 then None else Some((Some(CrlReason(i)), None))
    case RevHold =>
      if objects(arg).None? then None else Some((Some(CrlReason(8)), Some(arg)))
    case RevKeyCompromise =>
      if !GeneralizedOk(arg) then None else Some((Some(CrlReason(9)), Some(arg)))
    case RevCaCompromise =>
      if !GeneralizedOk(arg) then None else Some((Some(CrlReason(10)), Some(arg)))
  }

  function Suffix(part: Option<string>): string {
    if part.Some? then "," + part.value else ""
  }

  function RevocationStr(k: RevType, arg: string, now: Tm, objects: Objects): Option<string> {
    match Parts(k, arg, objects)
    case None => None
    case Some(p) => Some(Format(now) + Suffix(p.0) + Suffix(p.1))
  }

  function Unpack(str: string, objects: Objects): RevInfo {
    var time := Head(str);
    if !UtcOk(time) then RevInfo(false, None, NO_REASON, None, None)
    else
      match Rest(str)
      case None => RevInfo(true, Some(time), NO_REASON, None, None)
      case Some(more) => UnpackReason(Some(time), Head(more), Rest(more), objects)
  }

  function UnpackReason(time: Option<string>, reason: string, extra: Option<string>, objects: Objects): RevInfo {
    var failed := RevInfo(false, time, NO_REASON, None, None);
    var i := ReasonIndex(reason, NUM_REASONS);
    if i == NUM_REASONS then failed
    else if i == 7 then RevInfo(true, time, REMOVE_FROM_CRL, None, None)
    else if i == 8 then
      if extra.None? || objects(extra.value).None? then failed
      else RevInfo(true, time, CERTIFICATE_HOLD, objects(extra.value), None)
    else if i == 9 || i == 10 then
      if extra.None? || !GeneralizedOk(extra.value) then failed
      else RevInfo(true, time, if i == 9 then KEY_COMPROMISE else CA_COMPROMISE, None, extra)
    else RevInfo(true, time, i, None, None)
  }

  // What a revocation means, stated from its type and argument alone.
  function Meaning(k: RevType, arg: string, now: Tm, objects: Objects): RevInfo {
    var time := Some(Format(now));
    match k
    case RevValid => RevInfo(true, time, NO_REASON, None, None)
    case RevNone => RevInfo(true, time, NO_REASON, None, None)
    case RevCrlReason =>
      var i := ReasonIndex(arg, 8);
      RevInfo(true, time, if i == 7 then REMOVE_FROM_CRL else i, None, None)
    case RevHold => RevInfo(true, time, CERTIFICATE_HOLD, objects(arg), None)
    case RevKeyCompromise => RevInfo(true, time, KEY_COMPROMISE, None, Some(arg))
    case RevCaCompromise => RevInfo(true, time, CA_COMPROMISE, None, Some(arg))
  }

  // ---------------------------------------------------------- the programs

  method FindReason(s: string, n: nat) returns (i: nat)
    requires n <= NUM_REASONS
    ensures i == ReasonIndex(s, n)
  {
    i := 0;
    while i < n
      invariant 0 <= i <= n
      invariant FirstReason(s, i, n) == ReasonIndex(s, n)
    {
      if SameIgnoringCase(s, CrlReason(i)) { return; }
      i := i + 1;
    }
  }

  // The switch of make_revocation_str: check the argument, choose the parts.
  method ChooseParts(k: RevType, arg: string, objects: Objects)
    returns (ok: bool, reason: Option<string>, other: Option<string>)
    ensures Parts(k, arg, objects) == if ok then Some((reason, other)) else None
  {
    ok, reason, other := true, None, None;
    match k {
      case RevValid =>
      case RevNone =>
      case RevCrlReason =>
        var i := FindReason(arg, 8);
        if i == 8 {
          ok := false;
        } else {
          reason := Some(CrlReason(i));
        }
      case RevHold =>
        ok, reason, other := objects(arg).Some?, Some(CrlReason(8)), Some(arg);
      case RevKeyCompromise =>
        ok, reason, other := GeneralizedOk(arg), Some(CrlReason(9)), Some(arg);
      case RevCaCompromise =>
        ok, reason, other := GeneralizedOk(arg), Some(CrlReason(10)), Some(arg);
    }
  }

  // Its second half. The buffer is allocated for exactly the parts that are
  // copied into it, so no bounded copy ever truncates.
  method JoinParts(clock: string, reason: Option<string>, other: Option<string>) returns (t: string)
    requires CString.NulFree(clock)
    requires (reason.Some? ==> CString.NulFree(reason.value)) && (other.Some? ==> CString.NulFree(other.value))
    ensures t == clock + Suffix(reason) + Suffix(other)
  {
    var size := |clock| + 1;
    if reason.Some? { size := size + |reason.value| + 1; }
    if other.Some? { size := size + |other.value| + 1; }
    var str := new char[size];
    var _ := CString.Strlcpy(str, clock);
    if reason.Some? { JoinPart(str, reason.value, clock); }
    ghost var text := clock + Suffix(reason);
    if other.Some? { JoinPart(str, other.value, text); }
    text := text + Suffix(other);
    assert str[..][0..] == str[..];
    t := CString.TextAt(str, 0, text);
  }

  method JoinPart(str: array<char>, part: string, ghost text: string)
    requires CString.Holds(str[..], text) && CString.NulFree(part)
    requires |text| + 1 + |part| < str.Length
    modifies str
    ensures CString.Holds(str[..], text + ("," + part))
  {
    var _ := CString.Strlcat(str, ",", text);
    var _ := CString.Strlcat(str, part, text + ",");
    assert text + "," + part == text + ("," + part);
  }

  method MakeRevocationStr(k: RevType, arg: string, now: Tm, objects: Objects) returns (r: Option<string>)
    requires CString.NulFree(arg)
    ensures r == RevocationStr(k, arg, now, objects)
  {
    var ok, reason, other := ChooseParts(k, arg, objects);
    if !ok { return None; }
    FormatNulFree(now);
    assert reason.Some? ==> CString.NulFree(reason.value) by { PartsNulFree(k, arg, objects); }
    var t := JoinParts(Format(now), reason, other);
    r := Some(t);
  }

  lemma PartsNulFree(k: RevType, arg: string, objects: Objects)
    requires Parts(k, arg, objects).Some?
    ensures var p := Parts(k, arg, objects).value;
      p.0.Some? ==> CString.NulFree(p.0.value)
  {
    if k.RevCrlReason? {
      ReasonNames(ReasonIndex(arg, 8));
    } else {
      ReasonNames(8);
      ReasonNames(9);
      ReasonNames(10);
    }
  }

  // The first half of unpack_revinfo: split a copy of the text in place by
  // writing terminators over the first two commas.
  method SplitField(str: string) returns (time: string, reason: Option<string>, extra: Option<string>)
    requires CString.NulFree(str)
    ensures time == Head(str)
    ensures reason == if Rest(str).None? then None else Some(Head(Rest(str).value))
    ensures extra == if Rest(str).None? then None else Rest(Rest(str).value)
  {
    var tmp := new char[|str| + 1];
    var _ := CString.Strlcpy(tmp, str);
    assert tmp[..][0..] == tmp[..];
    var p := CString.Strchr(tmp, 0, ',', str);
    HeadIs(str, p);
    reason, extra := None, None;
    if tmp[p] == '\0' {
      time := CString.TextAt(tmp, 0, str);
      assert str[..|str|] == str;
    } else {
      ghost var was := tmp[..];
      tmp[p] := '\0';
      SplitHolds(was, tmp[..], 0, str, p);
      time := CString.TextAt(tmp, 0, str[..p]);
      reason, extra := SplitMore(tmp, p + 1, str[p + 1..]);
    }
  }

  method SplitMore(tmp: array<char>, r: nat, ghost more: string) returns (reason: Option<string>, extra: Option<string>)
    requires CString.HoldsAt(tmp[..], r, more)
    modifies tmp
    ensures reason == Some(Head(more)) && extra == Rest(more)
  {
    var q := CString.Strchr(tmp, r, ',', more);
    HeadIs(more, q - r);
    extra := None;
    if tmp[q] != '\0' {
      ghost var was := tmp[..];
      tmp[q] := '\0';
      SplitHolds(was, tmp[..], r, more, q - r);
      var e := CString.TextAt(tmp, q + 1, more[q - r + 1..]);
      extra := Some(e);
    } else {
      assert more[..|more|] == more;
    }
    var t := CString.TextAt(tmp, r, more[..q - r]);
    reason := Some(t);
  }

  method UnpackRevinfo(str: string, objects: Objects) returns (u: RevInfo)
    requires CString.NulFree(str)
    ensures u == Unpack(str, objects)
  {
    var time, reason, extra := SplitField(str);
    if !UtcOk(time) { return RevInfo(false, None, NO_REASON, None, None); }
    var code, hold, comp := NO_REASON, None, None;
    if reason.Some? {
      var i := FindReason(reason.value, NUM_REASONS);
      if i == NUM_REASONS { return RevInfo(false, Some(time), NO_REASON, None, None); }
      code := i;
      if code == 7 {
        code := REMOVE_FROM_CRL;
      } else if code == 8 {
        if extra.None? { return RevInfo(false, Some(time), NO_REASON, None, None); }
        code := CERTIFICATE_HOLD;
        hold := objects(extra.value);
        if hold.None? { return RevInfo(false, Some(time), NO_REASON, None, None); }
      } else if code == 9 || code == 10 {
        if extra.None? { return RevInfo(false, Some(time), NO_REASON, None, None); }
        if !GeneralizedOk(extra.value) { return RevInfo(false, Some(time), NO_REASON, None, None); }
        comp := extra;
        code := if code == 9 then KEY_COMPROMISE else CA_COMPROMISE;
      }
    }
    u := RevInfo(true, Some(time), code, hold, comp);
  }

  lemma FormatNulFree(now: Tm)
    ensures CString.NulFree(Format(now))
  {
  }

  lemma {:induction false} HeadIs(s: string, n: nat)
    requires n <= |s| && ',' !in s[..n] && (n < |s| ==> s[n] == ',')
    ensures Head(s) == s[..n]
  {
    assert forall i :: 0 <= i < n ==> s[..n][i] == s[i] != ',';
    assert forall i :: 0 <= i < |Head(s)| ==> Head(s)[i] == s[i] != ',';
  }

  // Writing a terminator over position p of a text leaves two texts behind.
  lemma SplitHolds(was: seq<char>, b: seq<char>, o: nat, s: string, p: nat)
    requires p < |s| && CString.HoldsAt(was, o, s) && b == was[o + p := '\0']
    ensures CString.HoldsAt(b, o, s[..p])
    ensures CString.HoldsAt(b, o + p + 1, s[p + 1..])
  {
    assert was[o..][..|s|] == s;
    assert b[o..] == was[o..][p := '\0'];
    assert b[o..][..p] == s[..p];
    assert b[o + p + 1..][..|s| - p - 1] == s[p + 1..];
  }

  // ------------------------------------------------------------------ facts

  lemma HeadAlone(t: string)
    requires ',' !in t
    ensures Head(t) == t && Rest(t) == None
  {
    HeadIs(t, |t|);
  }

  lemma HeadOf(t: string, more: string)
    requires ',' !in t
    ensures Head(t + ("," + more)) == t && Rest(t + ("," + more)) == Some(more)
  {
    var s := t + ("," + more);
    assert s[..|t|] == t && s[|t| + 1..] == more && s[|t|] == ',';
    HeadIs(s, |t|);
  }

  predicate IsLetter(c: char) { 'A' <= c <= 'Z' || 'a' <= c <= 'z' }

  predicate Letters(s: string) { forall i :: 0 <= i < |s| ==> IsLetter(s[i]) }

  lemma ReasonNames(i: nat)
    requires i < NUM_REASONS
    ensures Letters(CrlReason(i)) && ',' !in CrlReason(i) && CString.NulFree(CrlReason(i))
  {
    PlainReasons();
    PseudoReasons();
    LettersOnly(CrlReason(i));
  }

  lemma PlainReasons()
    ensures Letters("unspecified") && Letters("keyCompromise") && Letters("CACompromise")
    ensures Letters("affiliationChanged") && Letters("superseded") && Letters("cessationOfOperation")
  {
  }

  lemma PseudoReasons()
    ensures Letters("certificateHold") && Letters("removeFromCRL")
    ensures Letters("holdInstruction") && Letters("keyTime") && Letters("CAkeyTime")
  {
  }

  lemma LettersOnly(s: string)
    requires Letters(s)
    ensures ',' !in s && CString.NulFree(s)
  {
  }

  lemma ReasonIsFirst(i: nat)
    requires i < NUM_REASONS
    ensures ReasonIndex(CrlReason(i), NUM_REASONS) == i
  {
    var r := CrlReason(i);
    forall j | 0 <= j < i ensures !SameIgnoringCase(r, CrlReason(j)) {
      ReasonsDiffer(i, j);
    }
    assert SameIgnoringCase(r, CrlReason(i));
  }

  // Reason names of the same length differ in their first two letters.
  lemma ReasonsDiffer(i: nat, j: nat)
    requires j < i < NUM_REASONS
    ensures !SameIgnoringCase(CrlReason(i), CrlReason(j))
  {
    var a, b := CrlReason(i), CrlReason(j);
    if |a| == |b| {
      assert Upper(a)[0] == ToUpper(a[0]) && Upper(b)[0] == ToUpper(b[0]);
      assert Upper(a)[1] == ToUpper(a[1]) && Upper(b)[1] == ToUpper(b[1]);
    }
  }

  // The round trip, and exactly when it holds: whatever revocation was asked
  // for, unpacking the written field gives its time, reason, hold object and
  // compromise time back -- while the clock can be spelled as a UTCTime.
  lemma RoundTrip(k: RevType, arg: string, now: Tm, objects: Objects)
    requires ValidTm(now) && 1950 <= now.year <= 9999
    requires RevocationStr(k, arg, now, objects).Some?
    ensures now.year < 2050 ==>
      Unpack(RevocationStr(k, arg, now, objects).value, objects) == Meaning(k, arg, now, objects)
    ensures Unpack(RevocationStr(k, arg, now, objects).value, objects).ok <==> now.year < 2050
  {
    var s, p := RevocationStr(k, arg, now, objects).value, Parts(k, arg, objects).value;
    SplitWritten(k, arg, now, objects);
    UnpackSplit(s, Format(now), p.0, p.1, objects);
    if now.year >= 2050 {
      ClockIsNotUtc(now);
    } else {
      ClockIsUtc(now);
      ReasonMeant(k, arg, now, objects);
    }
  }

  lemma UnpackSplit(s: string, clock: string, reason: Option<string>, other: Option<string>, objects: Objects)
    requires Head(s) == clock && (reason.None? ==> Rest(s).None?)
    requires reason.Some? ==> Rest(s).Some? && Head(Rest(s).value) == reason.value && Rest(Rest(s).value) == other
    ensures Unpack(s, objects) ==
      if !UtcOk(clock) then RevInfo(false, None, NO_REASON, None, None)
      else if reason.None? then RevInfo(true, Some(clock), NO_REASON, None, None)
      else UnpackReason(Some(clock), reason.value, other, objects)
  {
  }

  lemma ReasonMeant(k: RevType, arg: string, now: Tm, objects: Objects)
    requires Parts(k, arg, objects).Some?
    ensures var p := Parts(k, arg, objects).value;
      Meaning(k, arg, now, objects) ==
        if p.0.None? then RevInfo(true, Some(Format(now)), NO_REASON, None, None)
        else UnpackReason(Some(Format(now)), p.0.value, p.1, objects)
  {
    var p := Parts(k, arg, objects).value;
    if p.0.Some? {
      ReasonOf(k, arg, objects);
      var i := ReasonIndex(p.0.value, NUM_REASONS);
      if k.RevCrlReason? { assert i < 8; } else { assert 8 <= i <= 10; }
    }
  }

  // The commas of a written field separate exactly the parts put into it.
  lemma SplitWritten(k: RevType, arg: string, now: Tm, objects: Objects)
    requires ValidTm(now) && 1950 <= now.year <= 9999
    requires RevocationStr(k, arg, now, objects).Some?
    ensures var s, p := RevocationStr(k, arg, now, objects).value, Parts(k, arg, objects).value;
      && Head(s) == Format(now)
      && (p.0.None? ==> Rest(s).None?)
      && (p.0.Some? ==> Rest(s).Some? && Head(Rest(s).value) == p.0.value && Rest(Rest(s).value) == p.1)
  {
    var p := Parts(k, arg, objects).value;
    ClockNoComma(now);
    if p.0.Some? { ReasonOf(k, arg, objects); }
    SplitJoined(Format(now), p.0, p.1);
  }

  lemma SplitJoined(clock: string, reason: Option<string>, other: Option<string>)
    requires ',' !in clock && (reason.Some? ==> ',' !in reason.value) && (reason.None? ==> other.None?)
    ensures var s := clock + Suffix(reason) + Suffix(other);
      && Head(s) == clock
      && (reason.None? ==> Rest(s).None?)
      && (reason.Some? ==> Rest(s).Some? && Head(Rest(s).value) == reason.value && Rest(Rest(s).value) == other)
  {
    var s := clock + Suffix(reason) + Suffix(other);
    if reason.None? {
      HeadAlone(clock);
      assert s == clock;
    } else {
      var more := reason.value + Suffix(other);
      assert s == clock + ("," + more);
      HeadOf(clock, more);
      SplitReason(reason.value, other);
    }
  }

  lemma SplitReason(reason: string, other: Option<string>)
    requires ',' !in reason
    ensures Head(reason + Suffix(other)) == reason && Rest(reason + Suffix(other)) == other
  {
    if other.None? {
      HeadAlone(reason);
      assert reason + "" == reason;
    } else {
      HeadOf(reason, other.value);
    }
  }

  lemma ClockNoComma(now: Tm)
    requires ValidTm(now) && 1950 <= now.year <= 9999
    ensures ',' !in Format(now)
  {
  }

  lemma ReasonOf(k: RevType, arg: string, objects: Objects)
    requires Parts(k, arg, objects).Some? && Parts(k, arg, objects).value.0.Some?
    ensures var r := Parts(k, arg, objects).value.0.value;
      ',' !in r && ReasonIndex(r, NUM_REASONS) ==
        match k
        case RevCrlReason => ReasonIndex(arg, 8)
        case RevHold => 8
        case RevKeyCompromise => 9
        case _ => 10
  {
    var i := match k
      case RevCrlReason => ReasonIndex(arg, 8)
      case RevHold => 8
      case RevKeyCompromise => 9
      case _ => 10;
    ReasonNames(i);
    ReasonIsFirst(i);
  }

  predicate RevocationCode(c: int) { NO_REASON <= c <= REMOVE_FROM_CRL && c != 7 }

  // Whatever text is unpacked, the reason is a code of RFC 5280 section 5.3.1
  // (7 is unused there), at most one of hold object and compromise time is set,
  // and each comes with its own reason code. A failed unpacking reports neither.
  lemma UnpackedCodes(s: string, objects: Objects)
    ensures var u := Unpack(s, objects);
      && RevocationCode(u.reason)
      && !(u.hold.Some? && u.invalidity.Some?)
      && (u.hold.Some? ==> u.reason == CERTIFICATE_HOLD)
      && (u.invalidity.Some? ==> u.reason == KEY_COMPROMISE || u.reason == CA_COMPROMISE)
      && (u.time.Some? <==> UtcOk(Head(s)))
      && (u.ok ==> u.time == Some(Head(s)))
      && (!u.ok ==> u.reason == NO_REASON && u.hold.None? && u.invalidity.None?)
  {
    if UtcOk(Head(s)) && Rest(s).Some? {
      UnpackReasonCodes(Some(Head(s)), Head(Rest(s).value), Rest(Rest(s).value), objects);
    }
  }

  lemma UnpackReasonCodes(time: Option<string>, reason: string, extra: Option<string>, objects: Objects)
    ensures var u := UnpackReason(time, reason, extra, objects);
      && u.time == time
      && RevocationCode(u.reason)
      && !(u.hold.Some? && u.invalidity.Some?)
      && (u.hold.Some? ==> u.reason == CERTIFICATE_HOLD)
      && (u.invalidity.Some? ==> u.reason == KEY_COMPROMISE || u.reason == CA_COMPROMISE)
      && (!u.ok ==> u.reason == NO_REASON && u.hold.None? && u.invalidity.None?)
  {
  }
}
