// What a revocation field says, name by name and code by code: which arguments
// are accepted, what is written for them, and what the readers report.
module Reasons {
  import opened Text
  import opened Asn1Time
  import opened Revocation
  import opened Table
  import opened Readers

  // The same name up to the case of its letters.
  predicate Called(s: string, name: string) {
    |s| == |name| && forall i :: 0 <= i < |s| ==>
      || s[i] == name[i]
      || ('a' <= name[i] <= 'z' && name[i] as int - s[i] as int == 'a' as int - 'A' as int)
      || ('a' <= s[i] <= 'z' && s[i] as int - name[i] as int == 'a' as int - 'A' as int)
  }

  lemma CalledIsSame(s: string, name: string)
    ensures Called(s, name) <==> SameIgnoringCase(s, name)
  {
    if SameIgnoringCase(s, name) {
      assert |s| == |Upper(s)| == |name|;
      forall i | 0 <= i < |s| ensures ToUpper(s[i]) == ToUpper(name[i]) {
        assert Upper(s)[i] == Upper(name)[i];
      }
    }
  }

  lemma IndexOfCalled(s: string, i: nat)
    requires i < 11 && Called(s, CrlReason(i))
    ensures ReasonIndex(s, 11) == i && (i < 8 ==> ReasonIndex(s, 8) == i)
  {
    CalledIsSame(s, CrlReason(i));
    ReasonIsFirst(i);
    forall j | 0 <= j < i ensures !SameIgnoringCase(s, CrlReason(j)) {
      assert !SameIgnoringCase(CrlReason(i), CrlReason(j));
    }
  }

  predicate PlainName(s: string) {
    || Called(s, "unspecified") || Called(s, "keyCompromise") || Called(s, "CACompromise")
    || Called(s, "affiliationChanged") || Called(s, "superseded") || Called(s, "cessationOfOperation")
    || Called(s, "certificateHold") || Called(s, "removeFromCRL")
  }

  predicate KnownName(s: string) {
    PlainName(s) || Called(s, "holdInstruction") || Called(s, "keyTime") || Called(s, "CAkeyTime")
  }

  // -------------------------------------------------------------------- reading

  // A revocation at some time for a reason with this code, and nothing else.
  function Plain(time: string, code: int): RevInfo {
    RevInfo(true, Some(time), code, None, None)
  }

  // What a field with a reason must be unpacked to: the codes of RFC 5280
  // section 5.3.1, name by name. The three pseudo reasons stand for another one
  // and need a third part; other names are not accepted.
  predicate Reports(u: RevInfo, time: string, reason: string, extra: Option<string>, objects: Objects) {
    && ReportsPlain(u, time, reason)
    && ReportsExtra(u, time, reason, extra, objects)
    && (!KnownName(reason) ==> !u.ok)
  }

  predicate ReportsPlain(u: RevInfo, time: string, reason: string) {
    && (Called(reason, "unspecified") ==> u == Plain(time, 0))
    && (Called(reason, "keyCompromise") ==> u == Plain(time, 1))
    && (Called(reason, "CACompromise") ==> u == Plain(time, 2))
    && (Called(reason, "affiliationChanged") ==> u == Plain(time, 3))
    && (Called(reason, "superseded") ==> u == Plain(time, 4))
    && (Called(reason, "cessationOfOperation") ==> u == Plain(time, 5))
    && (Called(reason, "certificateHold") ==> u == Plain(time, 6))
    && (Called(reason, "removeFromCRL") ==> u == Plain(time, 8))
  }

  predicate ReportsExtra(u: RevInfo, time: string, reason: string, extra: Option<string>, objects: Objects) {
    && (Called(reason, "holdInstruction") ==>
          if extra.Some? && objects(extra.value).Some?
          then u == RevInfo(true, Some(time), 6, objects(extra.value), None) else !u.ok)
    && (Called(reason, "keyTime") ==>
          if extra.Some? && GeneralizedOk(extra.value)
          then u == RevInfo(true, Some(time), 1, None, extra) else !u.ok)
    && (Called(reason, "CAkeyTime") ==>
          if extra.Some? && GeneralizedOk(extra.value)
          then u == RevInfo(true, Some(time), 2, None, extra) else !u.ok)
  }

  lemma PlainReasonsRead(time: string, reason: string, extra: Option<string>, objects: Objects)
    ensures ReportsPlain(UnpackReason(Some(time), reason, extra, objects), time, reason)
  {
    forall i: nat | i < 8 && Called(reason, CrlReason(i))
      ensures UnpackReason(Some(time), reason, extra, objects) == Plain(time, if i == 7 then 8 else i)
    {
      IndexOfCalled(reason, i);
    }
    assert CrlReason(0) == "unspecified" && CrlReason(1) == "keyCompromise" && CrlReason(2) == "CACompromise";
    assert CrlReason(3) == "affiliationChanged" && CrlReason(4) == "superseded";
    assert CrlReason(5) == "cessationOfOperation" && CrlReason(6) == "certificateHold";
    assert CrlReason(7) == "removeFromCRL";
  }

  lemma ExtraReasonsRead(time: string, reason: string, extra: Option<string>, objects: Objects)
    ensures ReportsExtra(UnpackReason(Some(time), reason, extra, objects), time, reason, extra, objects)
  {
    if Called(reason, "holdInstruction") { IndexOfCalled(reason, 8); }
    if Called(reason, "keyTime") { IndexOfCalled(reason, 9); }
    if Called(reason, "CAkeyTime") { IndexOfCalled(reason, 10); }
  }

  lemma OtherReasonsFail(time: string, reason: string, extra: Option<string>, objects: Objects)
    requires !KnownName(reason)
    ensures !UnpackReason(Some(time), reason, extra, objects).ok
  {
    var i := ReasonIndex(reason, 11);
    if i < 11 { CalledIsSame(reason, CrlReason(i)); }
  }

  // Every field is read that way: a time, a reason behind a comma, and whatever
  // follows a second comma. Nothing is read when the time is not a UTCTime.
  lemma FieldWithReason(time: string, reason: string, objects: Objects)
    requires ',' !in time && ',' !in reason
    ensures var u := Unpack(time + ("," + reason), objects);
      if UtcOk(time) then Reports(u, time, reason, None, objects) else !u.ok && u.time.None?
  {
    var s := time + ("," + reason);
    HeadOf(time, reason);
    HeadAlone(reason);
    ReasonReads(s, time, reason, None, objects);
  }

  lemma FieldWithExtra(time: string, reason: string, extra: string, objects: Objects)
    requires ',' !in time && ',' !in reason
    ensures var u := Unpack(time + ("," + (reason + ("," + extra))), objects);
      if UtcOk(time) then Reports(u, time, reason, Some(extra), objects) else !u.ok && u.time.None?
  {
    var s := time + ("," + (reason + ("," + extra)));
    HeadOf(time, reason + ("," + extra));
    HeadOf(reason, extra);
    ReasonReads(s, time, reason, Some(extra), objects);
  }

  lemma FieldWithTime(time: string, objects: Objects)
    requires ',' !in time
    ensures var u := Unpack(time, objects);
      if UtcOk(time) then u == Plain(time, -1) else !u.ok && u.time.None?
  {
    HeadAlone(time);
  }

  lemma ReasonReads(s: string, time: string, reason: string, extra: Option<string>, objects: Objects)
    requires Head(s) == time && Rest(s).Some?
    requires Head(Rest(s).value) == reason && Rest(Rest(s).value) == extra
    ensures var u := Unpack(s, objects);
      if UtcOk(time) then Reports(u, time, reason, extra, objects) else !u.ok && u.time.None?
  {
    UnpackSplit(s, time, Some(reason), extra, objects);
    PlainReasonsRead(time, reason, extra, objects);
    ExtraReasonsRead(time, reason, extra, objects);
    if !KnownName(reason) { OtherReasonsFail(time, reason, extra, objects); }
  }

  // -------------------------------------------------------------------- writing

  // The field that is written, for each kind of revocation and its argument.
  lemma FieldWritten(arg: string, now: Tm, objects: Objects)
    ensures var clock := Format(now);
      && RevocationStr(RevNone, arg, now, objects) == Some(clock)
      && RevocationStr(RevHold, arg, now, objects)
           == (if objects(arg).Some? then Some(clock + ("," + ("holdInstruction" + ("," + arg)))) else None)
      && RevocationStr(RevKeyCompromise, arg, now, objects)
           == (if GeneralizedOk(arg) then Some(clock + ("," + ("keyTime" + ("," + arg)))) else None)
      && RevocationStr(RevCaCompromise, arg, now, objects)
           == (if GeneralizedOk(arg) then Some(clock + ("," + ("CAkeyTime" + ("," + arg)))) else None)
  {
    var clock := Format(now);
    assert clock + "" + "" == clock;
    Joined(clock, "holdInstruction", arg);
    Joined(clock, "keyTime", arg);
    Joined(clock, "CAkeyTime", arg);
  }

  lemma Joined(clock: string, reason: string, arg: string)
    ensures clock + Suffix(Some(reason)) + Suffix(Some(arg)) == clock + ("," + (reason + ("," + arg)))
    ensures clock + Suffix(Some(reason)) + Suffix(None) == clock + ("," + reason)
  {
    ConcatAssociates(clock, "," + reason, "," + arg);
    ConcatAssociates(",", reason, "," + arg);
    assert clock + ("," + reason) + "" == clock + ("," + reason);
  }

  // -crl_reason takes the eight proper reasons, in any letter case; what is
  // written is another spelling of the same name.
  lemma ReasonWritten(arg: string, now: Tm, objects: Objects)
    ensures var r := RevocationStr(RevCrlReason, arg, now, objects);
      && (r.Some? <==> PlainName(arg))
      && (r.Some? ==> exists name: string :: Called(arg, name) && r.value == Format(now) + ("," + name))
  {
    var i := ReasonIndex(arg, 8);
    if i < 8 {
      CalledIsSame(arg, CrlReason(i));
      Joined(Format(now), CrlReason(i), arg);
    } else {
      NotPlain(arg);
    }
  }

  lemma NotPlain(s: string)
    requires ReasonIndex(s, 8) == 8
    ensures !PlainName(s)
  {
    forall i: nat | i < 8 ensures !Called(s, CrlReason(i)) { CalledIsSame(s, CrlReason(i)); }
    assert CrlReason(0) == "unspecified" && CrlReason(1) == "keyCompromise" && CrlReason(2) == "CACompromise";
    assert CrlReason(3) == "affiliationChanged" && CrlReason(4) == "superseded";
    assert CrlReason(5) == "cessationOfOperation" && CrlReason(6) == "certificateHold";
    assert CrlReason(7) == "removeFromCRL";
  }

  // What a revocation asked for must be unpacked to.
  predicate Tells(k: RevType, arg: string, time: string, u: RevInfo, objects: Objects) {
    match k
    case RevValid => u == Plain(time, -1)
    case RevNone => u == Plain(time, -1)
    case RevCrlReason => PlainName(arg) && ReportsPlain(u, time, arg)
    case RevHold => objects(arg).Some? && u == RevInfo(true, Some(time), 6, objects(arg), None)
    case RevKeyCompromise => GeneralizedOk(arg) && u == RevInfo(true, Some(time), 1, None, Some(arg))
    case RevCaCompromise => GeneralizedOk(arg) && u == RevInfo(true, Some(time), 2, None, Some(arg))
  }

  // And is, while the time can be written as a UTCTime.
  lemma WrittenIsRead(k: RevType, arg: string, now: Tm, objects: Objects)
    requires ValidTm(now) && 1950 <= now.year < 2050 && RevocationStr(k, arg, now, objects).Some?
    ensures Tells(k, arg, Format(now), Unpack(RevocationStr(k, arg, now, objects).value, objects), objects)
  {
    var clock := Format(now);
    ClockIsUtc(now);
    ClockNoComma(now);
    FieldWritten(arg, now, objects);
    match k
    case RevValid => assert clock + "" + "" == clock; FieldWithTime(clock, objects);
    case RevNone => FieldWithTime(clock, objects);
    case RevCrlReason => ReasonIsRead(arg, now, objects);
    case RevHold => PseudoIsRead(clock, "holdInstruction", arg, objects);
    case RevKeyCompromise => PseudoIsRead(clock, "keyTime", arg, objects);
    case RevCaCompromise => PseudoIsRead(clock, "CAkeyTime", arg, objects);
  }

  lemma PseudoIsRead(clock: string, reason: string, arg: string, objects: Objects)
    requires ',' !in clock && UtcOk(clock) && reason in {"holdInstruction", "keyTime", "CAkeyTime"}
    ensures ReportsExtra(Unpack(clock + ("," + (reason + ("," + arg))), objects), clock, reason, Some(arg), objects)
  {
    PseudoReasons();
    LettersOnly(reason);
    FieldWithExtra(clock, reason, arg, objects);
  }

  lemma ReasonIsRead(arg: string, now: Tm, objects: Objects)
    requires ValidTm(now) && 1950 <= now.year < 2050 && RevocationStr(RevCrlReason, arg, now, objects).Some?
    ensures PlainName(arg)
    ensures ReportsPlain(Unpack(RevocationStr(RevCrlReason, arg, now, objects).value, objects), Format(now), arg)
  {
    ClockIsUtc(now);
    ClockNoComma(now);
    ReasonWritten(arg, now, objects);
    var i := ReasonIndex(arg, 8);
    ReasonNames(i);
    CalledIsSame(arg, CrlReason(i));
    Joined(Format(now), CrlReason(i), arg);
    FieldWithReason(Format(now), CrlReason(i), objects);
    SameReports(Unpack(Format(now) + ("," + CrlReason(i)), objects), Format(now), CrlReason(i), arg);
  }

  lemma SameReports(u: RevInfo, time: string, name: string, arg: string)
    requires ReportsPlain(u, time, name) && SameIgnoringCase(arg, name)
    ensures ReportsPlain(u, time, arg)
  {
    forall s: string ensures Called(arg, s) <==> Called(name, s) {
      CalledIsSame(arg, s);
      CalledIsSame(name, s);
    }
  }

  // ------------------------------------------------------------------ reporting

  // The CRL entry and the OCSP answer that report this.
  predicate Told(e: CrlEntry, a: Answer, u: RevInfo) {
    && u.ok && u.time.Some?
    && e.time == u.time.value && e.reason == u.reason && e.invalidity == u.invalidity && e.hold == u.hold
    && a.Answered? && a.status.RevokedStatus? && a.status.time == u.time.value && a.status.reason == u.reason
    && (u.invalidity.Some? ==> a.status.ext == InvalidityDate(u.invalidity.value))
    && (u.invalidity.None? && u.hold.Some? ==> a.status.ext == HoldInstruction(u.hold.value))
    && (u.invalidity.None? && u.hold.None? ==> a.status.ext == NoExtension)
  }

  // From the option of the revocation to what CRL and responder say about it:
  // the number, the time, the code and what comes with it.
  lemma RevocationReported(k: RevType, arg: string, now: Tm, r: Row, objects: Objects)
    requires ValidTm(now) && 1950 <= now.year < 2050 && SerialOk(r.serial)
    requires RevocationStr(k, arg, now, objects) == Some(r.rev)
    ensures Unpack(r.rev, objects).ok && Entry(r, objects).serial == SerialNumber(r.serial)
    ensures exists u: RevInfo ::
      Tells(k, arg, Format(now), u, objects) && Told(Entry(r, objects), RevokedAnswer(r.rev, objects), u)
  {
    WrittenIsRead(k, arg, now, objects);
    RowTold(r, objects);
  }

  // Both report what their row is unpacked to.
  lemma RowTold(r: Row, objects: Objects)
    requires SerialOk(r.serial) && Unpack(r.rev, objects).ok
    ensures Told(Entry(r, objects), RevokedAnswer(r.rev, objects), Unpack(r.rev, objects))
  {
    UnpackedCodes(r.rev, objects);
  }
}
