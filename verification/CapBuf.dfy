// The growing text buffer that collects an engine's capabilities.
module CapBuf {
  import CString

  const EXPAND: nat := 256

  // ------------------------------------------------------ the specification

  // Texts joined by a comma and a blank.
  function Join(items: seq<string>): string {
    if items == [] then ""
    else if |items| == 1 then items[0]
    else Join(items[..|items| - 1]) + ", " + items[|items| - 1]
  }

  // The items from the first one on that is not empty.
  function FromNonEmpty(items: seq<string>): seq<string> {
    if items != [] && items[0] == "" then FromNonEmpty(items[1..]) else items
  }

  // One call: no separator while the content is still empty.
  function Appended(content: string, s: string): string {
    if content == "" then s else content + ", " + s
  }

  function AllAppended(items: seq<string>): string {
    if items == [] then ""
    else Appended(AllAppended(items[..|items| - 1]), items[|items| - 1])
  }

  function RoundUp(len: nat): (n: nat)
    ensures n >= len && n % EXPAND == 0 && n < len + EXPAND
  {
    ((len + EXPAND - 1) / EXPAND) * EXPAND
  }

  // -------------------------------------------------------------- the state

  // A buffer pointer and its recorded size, as the caller keeps them.
  class Buf {
    var buf: array?<char>
    var size: nat
    ghost var content: string

    ghost predicate Valid()
      reads this, buf
    {
      if buf == null then content == ""
      else buf.Length == size > 0 && size % EXPAND == 0 && CString.Holds(buf[..], content)
    }

    constructor ()
      ensures Valid() && buf == null && content == ""
    {
      buf, size, content := null, 0, "";
    }

    // append_buf. A failed reallocation frees the buffer; the text is lost.
    method Append(s: string, reallocates: bool) returns (ok: bool)
      requires Valid() && CString.NulFree(s)
      modifies this, buf
      ensures Valid()
      ensures ok ==> content == Appended(old(content), s) && buf != null
      ensures !ok ==> buf == null && content == "" && !reallocates
      ensures ok && old(buf) != null ==> size >= old(size)
      ensures ok && old(buf) != null && |content| < old(size) ==> buf == old(buf)
      ensures buf != old(buf) ==> buf == null || fresh(buf)
    {
      var len := |s| + 1;
      if buf == null {
        size := RoundUp(len);
        var p := new char[size];
        var _ := CString.Strlcpy(p, s);
        buf, content := p, s;
        return true;
      }
      var p: array<char> := buf;
      var blen := CString.Strlen(p, content);
      if blen > 0 { len := len + 2 + blen; }
      if len > size {
        size := RoundUp(len);
        if !reallocates {
          buf, content := null, "";
          return false;
        }
        p := CString.Grown(p, size, content);
        buf := p;
      }
      ghost var text := content;
      if blen > 0 {
        CString.Strcpy(p, blen, ", ", text);
        text := text[..blen] + ", ";
        blen := blen + 2;
      }
      CString.Strcpy(p, blen, s, text);
      assert text[..blen] + s == Appended(content, s);
      content := Appended(content, s);
      ok := true;
    }
  }

  // engine_main: append item after item while that succeeds.
  method AppendAll(items: seq<string>, reallocates: seq<bool>) returns (b: Buf, ok: bool)
    requires |reallocates| == |items|
    requires forall i :: 0 <= i < |items| ==> CString.NulFree(items[i])
    ensures fresh(b) && b.Valid()
    ensures ok ==> b.content == AllAppended(items)
    ensures (forall i :: 0 <= i < |reallocates| ==> reallocates[i]) ==> ok
  {
    b := new Buf();
    var i := 0;
    while i < |items|
      invariant 0 <= i <= |items| && b.Valid() && fresh(b) && (b.buf != null ==> fresh(b.buf))
      invariant b.content == AllAppended(items[..i])
    {
      assert items[..i + 1][..i] == items[..i];
      ok := b.Append(items[i], reallocates[i]);
      if !ok { return; }
      i := i + 1;
    }
    assert items[..i] == items;
    ok := true;
  }

  // ------------------------------------------------------------------ facts

  // After any sequence of calls the buffer holds the comma-blank join of the
  // items, leading empty items aside: an empty item adds a separator once
  // there is content, and nothing before.
  lemma {:induction false} AppendedIsJoin(items: seq<string>)
    ensures AllAppended(items) == Join(FromNonEmpty(items))
  {
    if items != [] {
      var init, last := items[..|items| - 1], items[|items| - 1];
      AppendedIsJoin(init);
      FromNonEmptySnoc(init, last);
      assert items == init + [last];
      JoinSnoc(FromNonEmpty(init), last);
    }
  }

  lemma JoinSnoc(f: seq<string>, last: string)
    requires f != [] ==> f[0] != ""
    ensures f != [] ==> Join(f) != "" && Join(f + [last]) == Join(f) + ", " + last
  {
    if f != [] {
      JoinNonEmpty(f);
      assert (f + [last])[..|f|] == f;
    }
  }

  lemma {:induction false} FromNonEmptySnoc(init: seq<string>, last: string)
    ensures FromNonEmpty(init + [last]) ==
      if FromNonEmpty(init) == [] then (if last == "" then [] else [last]) else FromNonEmpty(init) + [last]
    ensures FromNonEmpty(init) != [] ==> FromNonEmpty(init)[0] != ""
  {
    if init != [] && init[0] == "" {
      FromNonEmptySnoc(init[1..], last);
      assert (init + [last])[1..] == init[1..] + [last];
    } else if init == [] {
      assert init + [last] == [last] && [last][1..] == [];
    }
  }

  lemma {:induction false} JoinNonEmpty(items: seq<string>)
    requires items != [] && items[0] != ""
    ensures Join(items) != ""
  {
    if |items| > 1 { JoinNonEmpty(items[..|items| - 1]); }
  }

  // A short list is joined so, and a buffer for it has 256 characters.
  lemma JoinedPair()
    ensures Join(["RSA", "DSA"]) == "RSA, DSA"
    ensures RoundUp(|"RSA, DSA"| + 1) == 256 && RoundUp(256) == 256 && RoundUp(257) == 512
  {
    assert ["RSA", "DSA"][..1] == ["RSA"];
  }
}
