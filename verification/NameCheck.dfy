// The first look do_body takes at the name in a request: string types are put
// right on demand, and every string must suit its type.
module NameCheck {
  import opened Policy

  const UTF8STRING: int := 12
  const PRINTABLESTRING: int := 19
  const T61STRING: int := 20
  const IA5STRING: int := 22
  const UNIVERSALSTRING: int := 28
  const BMPSTRING: int := 30

  // ------------------------------------------------------ the specification

  predicate IsAscii(c: char) { c < 128 as char }

  // The characters of a PrintableString.
  predicate IsPrintable(c: char) {
    || 'A' <= c <= 'Z' || 'a' <= c <= 'z' || '0' <= c <= '9'
    || c in " '()+,-./:=?"
  }

  predicate AllAscii(s: string) { forall i :: 0 <= i < |s| ==> IsAscii(s[i]) }

  predicate AllPrintable(s: string) { forall i :: 0 <= i < |s| ==> IsPrintable(s[i]) }

  // ASN1_PRINTABLE_type: the narrowest type for a string.
  function NarrowestType(s: string): int {
    if !AllAscii(s) then T61STRING else if !AllPrintable(s) then IA5STRING else PRINTABLESTRING
  }

  // Four bytes a character, three of them zero.
  predicate Wide(s: string) {
    |s| % 4 == 0 && forall i :: 0 <= i < |s| && i % 4 != 3 ==> s[i] == '\0'
  }

  // Its characters.
  function Narrowed(s: string): (r: string)
    requires |s| % 4 == 0
    ensures |r| == |s| / 4
    ensures forall i :: 0 <= i < |r| ==> r[i] == s[4 * i + 3]
  {
    seq(|s| / 4, i requires 0 <= i < |s| / 4 => s[4 * i + 3])
  }

  // ASN1_UNIVERSALSTRING_to_string.
  function ToString(v: AsnString): AsnString {
    if v.tag == UNIVERSALSTRING && Wide(v.data)
    then AsnString(NarrowestType(Narrowed(v.data)), Narrowed(v.data))
    else v
  }

  // What -msie_hack does to an entry.
  function Retagged(e: Entry, email: ObjectId, msie: bool): Entry {
    if !msie then e
    else
      var v := ToString(e.value);
      if v.tag == IA5STRING && e.oid != email then e.(value := v.(tag := T61STRING))
      else if v.tag == PRINTABLESTRING && e.oid == email then e.(value := v.(tag := IA5STRING))
      else e.(value := v)
  }

  function RetagAll(name: Name, email: ObjectId, msie: bool): (r: Name)
    ensures |r| == |name|
    ensures forall i :: 0 <= i < |r| ==> r[i] == Retagged(name[i], email, msie)
  {
    seq(|name|, i requires 0 <= i < |name| => Retagged(name[i], email, msie))
  }

  // A string suits its type: an 8-bit or Unicode type takes any string, a
  // PrintableString its own characters, every other type ASCII.
  predicate Suits(v: AsnString) {
    if v.tag == T61STRING || v.tag == BMPSTRING || v.tag == UTF8STRING then true
    else if v.tag == PRINTABLESTRING then AllPrintable(v.data)
    else AllAscii(v.data)
  }

  // An entry passes: e-mail entries that are to be dropped are not looked at,
  // others are IA5 strings.
  predicate Passes(e: Entry, email: ObjectId, emailDn: bool) {
    (e.oid == email && !emailDn) || (Suits(e.value) && (e.oid == email ==> e.value.tag == IA5STRING))
  }

  predicate AllPass(name: Name, email: ObjectId, emailDn: bool) {
    forall i :: 0 <= i < |name| ==> Passes(name[i], email, emailDn)
  }

  // ---------------------------------------------------------- the programs

  method PrintableType(s: string) returns (t: int)
    ensures t == NarrowestType(s)
  {
    var ia5, t61 := false, false;
    for i := 0 to |s|
      invariant t61 <==> !AllAscii(s[..i])
      invariant ia5 <==> !AllPrintable(s[..i])
    {
      assert s[..i + 1] == s[..i] + [s[i]];
      if !IsPrintable(s[i]) { ia5 := true; }
      if !IsAscii(s[i]) { t61 := true; }
    }
    assert s[..|s|] == s;
    if t61 { return T61STRING; }
    if ia5 { return IA5STRING; }
    t := PRINTABLESTRING;
  }

  method UniversalToString(v: AsnString) returns (r: AsnString)
    ensures r == ToString(v)
  {
    var s := v.data;
    if v.tag != UNIVERSALSTRING || |s| % 4 != 0 { return v; }
    var i := 0;
    while i < |s| && s[i] == s[i + 1] == s[i + 2] == '\0'
      invariant 0 <= i <= |s| && i % 4 == 0
      invariant forall k :: 0 <= k < i && k % 4 != 3 ==> s[k] == '\0'
    {
      i := i + 4;
    }
    if i < |s| { return v; }
    var data := "";
    i := 3;
    while i < |s|
      invariant i == 4 * |data| + 3 && |data| <= |s| / 4
      invariant forall k :: 0 <= k < |data| ==> data[k] == s[4 * k + 3]
    {
      data := data + [s[i]];
      i := i + 4;
    }
    assert data == Narrowed(s);
    var t := PrintableType(data);
    r := AsnString(t, data);
  }

  // The loop over the entries of the request's name, which is changed in place.
  method CheckName(name: Name, email: ObjectId, emailDn: bool, msie: bool) returns (ok: bool, checked: Name)
    ensures ok <==> AllPass(RetagAll(name, email, msie), email, emailDn)
    ensures ok ==> checked == RetagAll(name, email, msie)
  {
    checked := name;
    ghost var all := RetagAll(name, email, msie);
    ok := true;
    var i := 0;
    while i < |name| && ok
      invariant 0 <= i <= |name| == |checked|
      invariant forall j :: 0 <= j < |name| ==> checked[j] == if j < i then all[j] else name[j]
      invariant ok ==> forall j :: 0 <= j < i ==> Passes(all[j], email, emailDn)
      invariant !ok ==> i > 0 && !Passes(all[i - 1], email, emailDn)
    {
      var e := checked[i];
      if msie { e := Retag(e, email); }
      checked := checked[i := e];
      ok := CheckEntry(e, email, emailDn);
      i := i + 1;
    }
  }

  // The checks on one entry.
  method CheckEntry(e: Entry, email: ObjectId, emailDn: bool) returns (ok: bool)
    ensures ok <==> Passes(e, email, emailDn)
  {
    if e.oid == email && !emailDn { return true; }
    if e.oid == email && e.value.tag != IA5STRING { return false; }
    if e.value.tag != BMPSTRING && e.value.tag != UTF8STRING {
      var t := PrintableType(e.value.data);
      if AllPrintable(e.value.data) { PrintableIsAscii(e.value.data); }
      if (t == T61STRING && e.value.tag != T61STRING) || (t == IA5STRING && e.value.tag == PRINTABLESTRING) {
        return false;
      }
    }
    ok := true;
  }

  method Retag(e: Entry, email: ObjectId) returns (r: Entry)
    ensures r == Retagged(e, email, true)
  {
    var str := UniversalToString(e.value);
    if str.tag == IA5STRING && e.oid != email { str := str.(tag := T61STRING); }
    if e.oid == email && str.tag == PRINTABLESTRING { str := str.(tag := IA5STRING); }
    r := e.(value := str);
  }

  // ------------------------------------------------------------------ facts

  lemma PrintableIsAscii(s: string)
    requires AllPrintable(s)
    ensures AllAscii(s)
  {
    forall i | 0 <= i < |s| ensures IsAscii(s[i]) { assert IsPrintable(s[i]); }
  }

  // What -msie_hack is for: outside e-mail entries no IA5 string is left, in
  // them no PrintableString, and nothing that had passed fails because of it.
  lemma HackHelps(e: Entry, email: ObjectId, emailDn: bool)
    ensures var r := Retagged(e, email, true);
      && r.oid == e.oid && r.set_ == e.set_
      && (r.oid != email ==> r.value.tag != IA5STRING)
      && (r.oid == email ==> r.value.tag != PRINTABLESTRING)
      && (Passes(e, email, emailDn) ==> Passes(r, email, emailDn))
  {
    if AllPrintable(e.value.data) { PrintableIsAscii(e.value.data); }
    if |e.value.data| % 4 == 0 && AllPrintable(Narrowed(e.value.data)) { PrintableIsAscii(Narrowed(e.value.data)); }
  }

  // The same as a table of tag numbers and characters: 22 is an IA5 string, the
  // only type for an e-mail address; 12, 20 and 30 are UTF-8, T61 and BMP strings,
  // 19 is a PrintableString.
  lemma PassesByTag(e: Entry, email: ObjectId, emailDn: bool)
    ensures Passes(e, email, emailDn) <==>
      var s := e.value.data;
      if e.oid == email then !emailDn || (e.value.tag == 22 && forall i :: 0 <= i < |s| ==> s[i] as int <= 127)
      else if e.value.tag in {12, 20, 30} then true
      else if e.value.tag == 19 then forall i :: 0 <= i < |s| ==> Letter(s[i]) || Mark(s[i])
      else forall i :: 0 <= i < |s| ==> s[i] as int <= 127
  {
  }

  predicate Letter(c: char) { 'A' <= c <= 'Z' || 'a' <= c <= 'z' || '0' <= c <= '9' }

  predicate Mark(c: char) {
    || c == ' ' || c == '\'' || c == '(' || c == ')' || c == '+' || c == ','
    || c == '-' || c == '.' || c == '/' || c == ':' || c == '=' || c == '?'
  }

  // And the tags -msie_hack gives: 20 for 22 outside e-mail entries, 22 for 19 in
  // them, and before that the narrowest tag for a wide string of type 28.
  lemma RetaggedTags(e: Entry, email: ObjectId)
    ensures Retagged(e, email, false) == e
    ensures var r, v := Retagged(e, email, true), ToString(e.value);
      && r.value.data == v.data
      && r.value.tag ==
           (if v.tag == 22 && e.oid != email then 20 else if v.tag == 19 && e.oid == email then 22 else v.tag)
  {
  }

  lemma NarrowTags(chars: string, v: AsnString)
    ensures v.tag != 28 || |v.data| % 4 != 0 ==> ToString(v) == v
    ensures (exists i :: 0 <= i < |v.data| && i % 4 != 3 && v.data[i] != 0 as char) ==> ToString(v) == v
    ensures var wide := AsnString(28, Widened(chars));
      ToString(wide) == AsnString(
        if exists i :: 0 <= i < |chars| && chars[i] as int > 127 then 20
        else if exists i :: 0 <= i < |chars| && !Letter(chars[i]) && !Mark(chars[i]) then 22
        else 19, chars)
  {
    assert Narrowed(Widened(chars)) == chars;
  }

  // Every character with three zero bytes in front of it.
  function Widened(chars: string): (w: string)
    ensures |w| == 4 * |chars|
  {
    seq(4 * |chars|, i requires 0 <= i < 4 * |chars| => if i % 4 == 3 then chars[i / 4] else '\0')
  }
}
