// The text form of the certificate database: one line per row, fields parted
// by tabs, a tab inside a field escaped by a backslash. A backslash itself is
// not escaped, so not every row survives being written and read again.
module TxtDb {
  import opened Text

  const FIELDS: nat := 6

  // The fields of one row.
  type Fields = f: seq<string> | |f| == FIELDS witness ["", "", "", "", "", ""]

  predicate EndsInBackslash(s: string) { s != "" && s[|s| - 1] == '\\' }

  // ---------------------------------------------------------------- writing

  function Escaped(f: string): string {
    if f == "" then "" else (if f[0] == '\t' then "\\\t" else [f[0]]) + Escaped(f[1..])
  }

  // A row without its line end.
  function RowText(fields: seq<string>): string
    requires |fields| > 0
  {
    if |fields| == 1 then Escaped(fields[0])
    else Escaped(fields[0]) + ("\t" + RowText(fields[1..]))
  }

  function WriteDb(rows: seq<Fields>): string {
    if rows == [] then "" else RowText(rows[0]) + ("\n" + WriteDb(rows[1..]))
  }

  // ---------------------------------------------------------------- reading

  // Split a line at its tabs. cur is the field being read and esc tells
  // whether the last character copied into it was a backslash, in which case a
  // tab overwrites that backslash instead of ending the field.
  function Scan(line: string, cur: string, esc: bool): (fields: seq<string>)
    requires esc ==> cur != ""
    ensures |fields| >= 1
    decreases |line|
  {
    if line == "" then [cur]
    else if line[0] == '\t' then
      if esc then Scan(line[1..], cur[..|cur| - 1] + "\t", false)
      else [cur] + Scan(line[1..], "", false)
    else Scan(line[1..], cur + [line[0]], line[0] == '\\')
  }

  // A line must have FIELDS fields; one further tab at its very end is forgiven.
  function ReadRow(line: string): (r: Option<Fields>)
  {
    var fs := Scan(line, "", false);
    if |fs| == FIELDS then Some(fs)
    else if |fs| == FIELDS + 1 && fs[FIELDS] == "" then Some(fs[..FIELDS])
    else None
  }

  function Line(text: string): (l: string)
    ensures |l| <= |text| && l == text[..|l|] && '\n' !in l
    ensures |l| < |text| ==> text[|l|] == '\n'
  {
    if text == "" || text[0] == '\n' then "" else [text[0]] + Line(text[1..])
  }

  // Comment lines are skipped, and so is a last line without a line end.
  function ReadDb(text: string): (r: Option<seq<Fields>>)
    decreases |text|
  {
    var line := Line(text);
    if |line| == |text| then Some([])
    else
      var more := ReadDb(text[|line| + 1..]);
      if line != "" && line[0] == '#' then more
      else
        var row := ReadRow(line);
        if row.None? || more.None? then None else Some([row.value] + more.value)
  }

  // ------------------------------------------------------------------ facts

  // No field but the last ends in a backslash.
  predicate Separable(fields: seq<string>) {
    forall i :: 0 <= i < |fields| - 1 ==> !EndsInBackslash(fields[i])
  }

  // A row that the file format can carry.
  predicate Writable(fields: Fields) {
    && Separable(fields)
    && (forall i :: 0 <= i < |fields| ==> '\n' !in fields[i])
    && !(fields[0] != "" && fields[0][0] == '#')
  }

  // What comes back from a written row: a field that ends in a backslash
  // swallows the tab behind it and the field after that.
  function Merged(cur: string, fields: seq<string>): (m: seq<string>)
    requires |fields| > 0
    ensures 1 <= |m| <= |fields|
    ensures |m| == |fields| <==> Separable(fields)
    ensures cur == "" && Separable(fields) ==> m == fields
    decreases |fields|
  {
    var g := cur + fields[0];
    if |fields| == 1 then
      assert cur == "" ==> g == fields[0];
      [g]
    else
      assert fields == [fields[0]] + fields[1..];
      assert cur == "" ==> g == fields[0];
      assert forall i :: 0 <= i < |fields| - 2 ==> fields[1..][i] == fields[i + 1];
      if EndsInBackslash(fields[0]) then Merged(g[..|g| - 1] + "\t", fields[1..])
      else
        var rest := Merged("", fields[1..]);
        assert Separable(fields[1..]) ==> Separable(fields) by {
          if Separable(fields[1..]) {
            forall i | 0 <= i < |fields| - 1 ensures !EndsInBackslash(fields[i]) {
              if i > 0 { assert fields[i] == fields[1..][i - 1]; }
            }
          }
        }
        [g] + rest
  }

  lemma {:induction false} ScanField(f: string, rest: string, cur: string, esc: bool)
    requires esc ==> cur != ""
    ensures Scan(Escaped(f) + rest, cur, esc) ==
      Scan(rest, cur + f, if f == "" then esc else EndsInBackslash(f))
  {
    if f == "" {
      assert Escaped(f) + rest == rest && cur + f == cur;
    } else {
      var tail := Escaped(f[1..]) + rest;
      var cur' := cur + [f[0]];
      ScanField(f[1..], rest, cur', f[0] == '\\');
      assert cur + f == cur' + f[1..];
      if f[0] == '\t' {
        assert Escaped(f) + rest == "\\\t" + tail;
        ScanTab(tail, cur, esc);
      } else {
        assert Escaped(f) + rest == [f[0]] + tail;
        ScanPlain(f[0], tail, cur, esc);
      }
    }
  }

  lemma ScanTab(tail: string, cur: string, esc: bool)
    requires esc ==> cur != ""
    ensures Scan("\\\t" + tail, cur, esc) == Scan(tail, cur + "\t", false)
  {
    var s := "\\\t" + tail;
    assert s[1..] == "\t" + tail && s[1..][1..] == tail;
    assert (cur + "\\")[..|cur|] == cur;
  }

  lemma ScanPlain(c: char, tail: string, cur: string, esc: bool)
    requires c != '\t' && (esc ==> cur != "")
    ensures Scan([c] + tail, cur, esc) == Scan(tail, cur + [c], c == '\\')
  {
    assert ([c] + tail)[1..] == tail;
  }

  lemma {:induction false} ScanRow(fields: seq<string>, cur: string)
    requires |fields| > 0
    ensures Scan(RowText(fields), cur, false) == Merged(cur, fields)
  {
    var f := fields[0];
    if |fields| == 1 {
      ScanField(f, "", cur, false);
      assert Escaped(f) + "" == Escaped(f);
    } else {
      var rest := "\t" + RowText(fields[1..]);
      ScanField(f, rest, cur, false);
      assert rest[1..] == RowText(fields[1..]);
      ScanRow(fields[1..], if EndsInBackslash(f) then (cur + f)[..|cur + f| - 1] + "\t" else "");
    }
  }

  // Exactly which rows a line carries unchanged.
  lemma RowRoundTrip(fields: Fields)
    ensures ReadRow(RowText(fields)) == Some(fields) <==> Separable(fields)
    ensures !Separable(fields) ==> ReadRow(RowText(fields)) == None
  {
    ScanRow(fields, "");
  }

  lemma {:induction false} EscapedChars(f: string)
    ensures '\n' !in f ==> '\n' !in Escaped(f)
    ensures f != "" && f[0] != '#' ==> Escaped(f) != "" && Escaped(f)[0] != '#'
    ensures f == "" ==> Escaped(f) == ""
  {
    if f != "" {
      EscapedChars(f[1..]);
      assert '\n' !in f ==> '\n' !in f[1..];
    }
  }

  lemma {:induction false} RowTextChars(fields: seq<string>)
    requires |fields| > 0 && forall i :: 0 <= i < |fields| ==> '\n' !in fields[i]
    ensures '\n' !in RowText(fields)
  {
    EscapedChars(fields[0]);
    if |fields| > 1 { RowTextChars(fields[1..]); }
  }

  lemma LineIs(l: string, rest: string)
    requires '\n' !in l
    ensures Line(l + ("\n" + rest)) == l && (l + ("\n" + rest))[|l| + 1..] == rest
  {
    LineUpTo(l, "\n" + rest);
  }

  lemma {:induction false} LineUpTo(l: string, rest: string)
    requires '\n' !in l && rest != "" && rest[0] == '\n'
    ensures Line(l + rest) == l
  {
    if l == "" {
      assert l + rest == rest;
    } else {
      LineUpTo(l[1..], rest);
      assert (l + rest)[1..] == l[1..] + rest && (l + rest)[0] == l[0];
    }
  }

  lemma RowTextStart(row: Fields)
    requires Writable(row)
    ensures RowText(row) != "" && RowText(row)[0] != '#'
  {
    EscapedChars(row[0]);
    assert RowText(row) == Escaped(row[0]) + ("\t" + RowText(row[1..]));
  }

  lemma ReadOneLine(l: string, more: string)
    requires '\n' !in l && !(l != "" && l[0] == '#') && ReadRow(l).Some?
    ensures ReadDb(l + ("\n" + more)) ==
      match ReadDb(more) { case None => None case Some(rows) => Some([ReadRow(l).value] + rows) }
  {
    LineIs(l, more);
  }

  lemma ReadWrittenRow(row: Fields, more: string)
    requires Writable(row)
    ensures ReadDb(RowText(row) + ("\n" + more)) ==
      match ReadDb(more) { case None => None case Some(rows) => Some([row] + rows) }
  {
    RowTextChars(row);
    RowTextStart(row);
    RowRoundTrip(row);
    ReadOneLine(RowText(row), more);
  }

  // Saving writable rows and loading them again gives the same rows.
  lemma {:induction false} DbRoundTrip(rows: seq<Fields>)
    requires forall r :: r in rows ==> Writable(r)
    ensures ReadDb(WriteDb(rows)) == Some(rows)
  {
    if rows != [] {
      DbRoundTrip(rows[1..]);
      ReadWrittenRow(rows[0], WriteDb(rows[1..]));
      assert rows == [rows[0]] + rows[1..];
    }
  }

  lemma {:induction false} ScanSeparable(line: string, cur: string, esc: bool)
    requires esc <==> EndsInBackslash(cur)
    ensures Separable(Scan(line, cur, esc))
    decreases |line|
  {
    if line != "" {
      if line[0] == '\t' {
        ScanSeparable(line[1..], if esc then cur[..|cur| - 1] + "\t" else "", false);
      } else {
        ScanSeparable(line[1..], cur + [line[0]], line[0] == '\\');
      }
    }
  }

  lemma {:induction false} ScanChars(line: string, cur: string, esc: bool)
    requires (esc ==> cur != "") && '\n' !in line && '\n' !in cur
    ensures forall i :: 0 <= i < |Scan(line, cur, esc)| ==> '\n' !in Scan(line, cur, esc)[i]
    decreases |line|
  {
    if line != "" {
      if line[0] == '\t' {
        ScanChars(line[1..], if esc then cur[..|cur| - 1] + "\t" else "", false);
      } else {
        ScanChars(line[1..], cur + [line[0]], line[0] == '\\');
      }
    }
  }

  lemma {:induction false} ScanFirst(line: string, cur: string, esc: bool)
    requires (esc ==> cur != "") && (cur != "" ==> cur[0] != '#')
    requires cur == "" && line != "" ==> line[0] != '#'
    ensures var f := Scan(line, cur, esc)[0]; f != "" ==> f[0] != '#'
    decreases |line|
  {
    if line != "" {
      if line[0] == '\t' {
        if esc { ScanFirst(line[1..], cur[..|cur| - 1] + "\t", false); }
      } else {
        ScanFirst(line[1..], cur + [line[0]], line[0] == '\\');
      }
    }
  }

  // Whatever a database file holds, the rows loaded from it can be written.
  lemma {:induction false} LoadedIsWritable(text: string)
    requires ReadDb(text).Some?
    ensures forall r :: r in ReadDb(text).value ==> Writable(r)
    decreases |text|
  {
    var line := Line(text);
    if |line| < |text| {
      LoadedIsWritable(text[|line| + 1..]);
      if !(line != "" && line[0] == '#') {
        ScanSeparable(line, "", false);
        ScanChars(line, "", false);
        ScanFirst(line, "", false);
        var row := ReadRow(line).value;
        assert Writable(row);
      }
    }
  }

  // Hence loading, saving and loading again is the identity on every file that loads.
  lemma ReloadStable(text: string)
    requires ReadDb(text).Some?
    ensures ReadDb(WriteDb(ReadDb(text).value)) == ReadDb(text)
  {
    LoadedIsWritable(text);
    DbRoundTrip(ReadDb(text).value);
  }

  // The rows whose lines lie in the first c characters, line ends included.
  function Whole(rows: seq<Fields>, c: nat): (n: nat)
    ensures n <= |rows|
  {
    if rows == [] then 0
    else
      var l := |RowText(rows[0])| + 1;
      if c < l then 0 else 1 + Whole(rows[1..], c - l)
  }

  // A file cut short anywhere reads as if it were whole, without the rows that
  // the cut has hit or cut off.
  lemma {:induction false} TornReads(rows: seq<Fields>, c: nat)
    requires (forall i :: 0 <= i < |rows| ==> Writable(rows[i])) && c <= |WriteDb(rows)|
    ensures ReadDb(WriteDb(rows)[..c]) == Some(rows[..Whole(rows, c)])
  {
    if rows != [] {
      var l := |RowText(rows[0])|;
      TornRow(rows[0], WriteDb(rows[1..]), c);
      if c <= l {
        assert Whole(rows, c) == 0;
      } else {
        var m := Whole(rows[1..], c - l - 1);
        TornReads(rows[1..], c - l - 1);
        assert ReadDb(WriteDb(rows)[..c]) == Some([rows[0]] + rows[1..][..m]);
        Front(rows, m);
      }
    }
  }

  // A cut in the first row, or behind it.
  lemma TornRow(row: Fields, rest: string, c: nat)
    requires Writable(row) && c <= |RowText(row)| + 1 + |rest|
    ensures ReadDb((RowText(row) + ("\n" + rest))[..c]) ==
      if c <= |RowText(row)| then Some([])
      else
        match ReadDb(rest[..c - |RowText(row)| - 1]) { case None => None case Some(rows) => Some([row] + rows) }
  {
    var line := RowText(row);
    CutLine(line, rest, c);
    if c <= |line| {
      RowTextChars(row);
      NoLineEnd(line[..c]);
    } else {
      ReadWrittenRow(row, rest[..c - |line| - 1]);
    }
  }

  lemma CutLine(line: string, rest: string, c: nat)
    requires c <= |line| + 1 + |rest|
    ensures (line + ("\n" + rest))[..c] ==
      if c <= |line| then line[..c] else line + ("\n" + rest[..c - |line| - 1])
  {
  }

  // Unless it is cut at its very end, a row is missing.
  lemma {:induction false} TornMisses(rows: seq<Fields>, c: nat)
    requires c <= |WriteDb(rows)|
    ensures Whole(rows, c) == |rows| <==> c == |WriteDb(rows)|
  {
    if rows != [] && c > |RowText(rows[0])| { TornMisses(rows[1..], c - |RowText(rows[0])| - 1); }
  }

  lemma Front(rows: seq<Fields>, n: nat)
    requires rows != [] && n <= |rows[1..]|
    ensures [rows[0]] + rows[1..][..n] == rows[..1 + n]
  {
  }

  lemma NoLineEnd(l: string)
    requires '\n' !in l
    ensures ReadDb(l) == Some([])
  {
  }

  // What is read from a text without terminators has none in its fields.
  lemma {:induction false} ScanNulFree(line: string, cur: string, esc: bool)
    requires '\0' !in line && '\0' !in cur && (esc ==> cur != "")
    ensures forall f :: f in Scan(line, cur, esc) ==> '\0' !in f
    decreases |line|
  {
    if line != "" {
      if line[0] != '\t' {
        ScanNulFree(line[1..], cur + [line[0]], line[0] == '\\');
      } else if esc {
        ScanNulFree(line[1..], cur[..|cur| - 1] + "\t", false);
      } else {
        ScanNulFree(line[1..], "", false);
      }
    }
  }

  lemma {:induction false} ReadNulFree(text: string)
    requires '\0' !in text && ReadDb(text).Some?
    ensures forall i, j :: 0 <= i < |ReadDb(text).value| && 0 <= j < FIELDS ==> '\0' !in ReadDb(text).value[i][j]
    decreases |text|
  {
    var line := Line(text);
    if |line| < |text| {
      ReadNulFree(text[|line| + 1..]);
      ScanNulFree(line, "", false);
    }
  }

  // ----------------------------------------------------- the format, spelled out

  // Every tab gets a backslash in front of it, and nothing else changes.
  lemma {:induction false} EscapedParts(a: string, b: string)
    ensures Escaped(a + b) == Escaped(a) + Escaped(b)
  {
    if a == "" {
      assert a + b == b;
    } else {
      EscapedParts(a[1..], b);
      assert (a + b)[1..] == a[1..] + b;
      var first := if a[0] == '\t' then "\\\t" else [a[0]];
      assert Escaped(a + b) == first + (Escaped(a[1..]) + Escaped(b));
      ConcatAssociates(first, Escaped(a[1..]), Escaped(b));
    }
  }

  lemma EscapedTab()
    ensures Escaped("\t") == "\\\t"
  {
    assert "\t"[1..] == "";
  }

  lemma {:induction false} EscapedPlain(a: string)
    requires '\t' !in a
    ensures Escaped(a) == a
  {
    if a != "" { EscapedPlain(a[1..]); }
  }

  // A row of plain fields is the six of them with tabs between.
  lemma RowSpelled(a: string, b: string, c: string, d: string, e: string, f: string)
    requires '\t' !in a && '\t' !in b && '\t' !in c && '\t' !in d && '\t' !in e && '\t' !in f
    ensures RowText([a, b, c, d, e, f]) ==
      a + ("\t" + (b + ("\t" + (c + ("\t" + (d + ("\t" + (e + ("\t" + f)))))))))
  {
    RowTextStep(a, [b, c, d, e, f]);
    RowTextStep(b, [c, d, e, f]);
    RowTextStep(c, [d, e, f]);
    RowTextStep(d, [e, f]);
    RowTextStep(e, [f]);
    EscapedPlain(f);
  }

  lemma RowTextStep(a: string, fields: seq<string>)
    requires |fields| > 0 && '\t' !in a
    ensures RowText([a] + fields) == a + ("\t" + RowText(fields))
  {
    EscapedPlain(a);
    assert ([a] + fields)[1..] == fields;
  }

  // Lines of five tabs are rows, and so are those of six if nothing follows the
  // last one; no others are.
  lemma ColumnsCounted(fields: seq<string>)
    requires |fields| > 0 && Separable(fields)
    ensures ReadRow(RowText(fields)) ==
      if |fields| == 6 then Some(fields)
      else if |fields| == 7 && fields[6] == "" then Some(fields[..6])
      else None
  {
    ScanRow(fields, "");
  }

  // Lines with a hash mark in front, and what follows the last line end, are skipped.
  lemma LinesSkipped(line: string, more: string)
    requires '\n' !in line
    ensures ReadDb("#" + line + "\n" + more) == ReadDb(more)
    ensures ReadDb(line) == Some([])
  {
    NoLineEnd(line);
    var l := "#" + line;
    assert l[0] == '#' && l + "\n" + more == l + ("\n" + more);
    LineIs(l, more);
    assert (l + ("\n" + more))[|l| + 1..] == more;
  }
}
