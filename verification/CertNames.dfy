// The names of the files new certificates are written to.
module CertNames {
  import opened Text
  import opened Table
  import opened Lifecycle
  import CString

  const PATH_MAX: nat := 4096

  type Byte = b: nat | b < 256

  // The contents of the ASN.1 integer for n: its bytes, a single zero for zero.
  function Magnitude(n: nat): (m: seq<Byte>)
    ensures m != []
  {
    if n < 256 then [n] else Magnitude(n / 256) + [n % 256]
  }

  function HexOf(bytes: seq<Byte>): (s: string)
    ensures |s| == 2 * |bytes| && AllUpperHex(s)
  {
    if bytes == [] then ""
    else
      var last := bytes[|bytes| - 1];
      HexOf(bytes[..|bytes| - 1]) + [HexDigit(last / 16), HexDigit(last % 16)]
  }

  // dir ends in a slash.
  function FileName(dir: string, bytes: seq<Byte>): string {
    dir + SerialHex(bytes) + ".pem"
  }

  function SerialHex(bytes: seq<Byte>): (s: string)
    ensures |s| == 2 * (if |bytes| > 0 then |bytes| else 1) && CString.NulFree(s)
  {
    if bytes == [] then "00" else HexOf(bytes)
  }

  // The sign of a serial is kept apart from its bytes.
  function Bytes(c: Cert): seq<Byte> {
    Magnitude(if c.serial < 0 then -c.serial else c.serial)
  }

  function CertName(outdir: string, c: Cert): string {
    FileName(outdir + "/", Bytes(c))
  }

  // Every name, with its terminator, fits into a path buffer.
  predicate NamesFit(outdir: string, certs: seq<Cert>) {
    forall i :: 0 <= i < |certs| ==> |CertName(outdir, certs[i])| < PATH_MAX
  }

  // ---------------------------------------------------------------- methods

  // The buffer starts with the directory, if that fits; len is its length, cut
  // to the size of the buffer.
  predicate StartsWith(b: seq<char>, dir: string, len: nat) {
    if |dir| < PATH_MAX then len == |dir| && dir <= b else len == PATH_MAX
  }

  // One pass of the loop: the name is put behind the directory that new_cert
  // starts with, unless that would overrun the buffer.
  method NameCert(new_cert: array<char>, outdirlen: nat, psn: seq<Byte>, ghost dir: string) returns (ok: bool)
    requires new_cert.Length == PATH_MAX && CString.NulFree(dir)
    requires StartsWith(new_cert[..], dir, outdirlen)
    modifies new_cert
    ensures ok <==> |FileName(dir, psn)| < PATH_MAX
    ensures ok ==> CString.Holds(new_cert[..], FileName(dir, psn))
    ensures StartsWith(new_cert[..], dir, outdirlen)
  {
    var snl := |psn|;
    var filen_len := 2 * (if snl > 0 then snl else 1) + 5;
    if outdirlen + filen_len > PATH_MAX { return false; }
    assert new_cert[..outdirlen] == dir;
    var n := PutHex(new_cert, outdirlen, psn);
    PutSuffix(new_cert, n);
    ghost var stem := dir + SerialHex(psn);
    assert new_cert[..][..n] == stem;
    HoldsName(new_cert[..], stem);
    ok := true;
  }

  lemma HoldsName(b: seq<char>, stem: string)
    requires |stem| + 4 < |b| && CString.NulFree(stem)
    requires b[..|stem| + 4] == b[..|stem|] + ".pem" && b[..|stem|] == stem && b[|stem| + 4] == '\0'
    ensures CString.Holds(b, stem + ".pem")
  {
  }

  method PutHex(new_cert: array<char>, o: nat, psn: seq<Byte>) returns (n: nat)
    requires o + |SerialHex(psn)| <= new_cert.Length
    modifies new_cert
    ensures n == o + |SerialHex(psn)| && new_cert[..n] == old(new_cert[..o]) + SerialHex(psn)
  {
    n := o;
    if |psn| > 0 {
      var j := 0;
      while j < |psn|
        invariant 0 <= j <= |psn| && n == o + 2 * j
        invariant new_cert[..n] == old(new_cert[..o]) + HexOf(psn[..j])
      {
        PutByte(new_cert, n, psn[j]);
        OneMore(old(new_cert[..o]), psn, j);
        n, j := n + 2, j + 1;
      }
      assert psn[..j] == psn;
    } else {
      new_cert[n], new_cert[n + 1] := '0', '0';
      n := n + 2;
    }
  }

  method PutByte(new_cert: array<char>, n: nat, b: Byte)
    requires n + 2 <= new_cert.Length
    modifies new_cert
    ensures new_cert[..n + 2] == old(new_cert[..n]) + [HexDigit(b / 16), HexDigit(b % 16)]
  {
    new_cert[n] := HexDigit(b / 16);
    new_cert[n + 1] := HexDigit(b % 16);
  }

  lemma OneMore(front: string, psn: seq<Byte>, j: nat)
    requires j < |psn|
    ensures front + HexOf(psn[..j]) + [HexDigit(psn[j] / 16), HexDigit(psn[j] % 16)] == front + HexOf(psn[..j + 1])
  {
    assert psn[..j + 1] == psn[..j] + [psn[j]];
    HexOfSnoc(psn[..j], psn[j]);
  }

  method PutSuffix(new_cert: array<char>, n: nat)
    requires n + 5 <= new_cert.Length
    modifies new_cert
    ensures new_cert[..n] == old(new_cert[..n])
    ensures new_cert[..n + 4] == old(new_cert[..n]) + ".pem" && new_cert[n + 4] == '\0'
  {
    new_cert[n], new_cert[n + 1], new_cert[n + 2], new_cert[n + 3] := '.', 'p', 'e', 'm';
    new_cert[n + 4] := '\0';
  }

  // The whole loop: the names in the order of the certificates, or a failure
  // when one of them is too long.
  method NameCerts(outdir: string, certs: seq<Cert>) returns (ok: bool, names: seq<string>)
    requires CString.NulFree(outdir)
    ensures ok <==> NamesFit(outdir, certs)
    ensures ok ==> |names| == |certs| && forall i :: 0 <= i < |certs| ==> names[i] == CertName(outdir, certs[i])
  {
    var new_cert := new char[PATH_MAX];
    ghost var dir := outdir + "/";
    var outdirlen := CString.Strlcpy(new_cert, outdir);
    outdirlen := CString.Strlcat(new_cert, "/", CString.Cut(outdir, PATH_MAX - 1));
    assert |dir| < PATH_MAX ==> new_cert[..][..|dir|] == dir;
    names := [];
    var i := 0;
    while i < |certs|
      invariant 0 <= i <= |certs| && |names| == i
      invariant StartsWith(new_cert[..], dir, outdirlen)
      invariant forall j :: 0 <= j < i ==> |CertName(outdir, certs[j])| < PATH_MAX
      invariant forall j :: 0 <= j < i ==> names[j] == CertName(outdir, certs[j])
    {
      var name;
      ok, name := NextName(new_cert, outdirlen, certs[i], outdir);
      if !ok { return; }
      names := names + [name];
      i := i + 1;
    }
    ok := true;
  }

  method NextName(new_cert: array<char>, outdirlen: nat, c: Cert, ghost outdir: string) returns (ok: bool, name: string)
    requires new_cert.Length == PATH_MAX && CString.NulFree(outdir)
    requires StartsWith(new_cert[..], outdir + "/", outdirlen)
    modifies new_cert
    ensures ok <==> |CertName(outdir, c)| < PATH_MAX
    ensures ok ==> name == CertName(outdir, c)
    ensures StartsWith(new_cert[..], outdir + "/", outdirlen)
  {
    name := "";
    ok := NameCert(new_cert, outdirlen, Bytes(c), outdir + "/");
    if ok {
      assert new_cert[..][0..] == new_cert[..];
      name := CString.TextAt(new_cert, 0, CertName(outdir, c));
    }
  }

  // ------------------------------------------------------------------ facts

  // The file is named after the serial text in the database.
  lemma {:induction false} HexOfMagnitude(n: nat)
    ensures HexOf(Magnitude(n)) == SerialText(n)
  {
    LastDigits(n);
    if n >= 256 {
      HexOfMagnitude(n / 256);
      HexOfSnoc(Magnitude(n / 256), n % 256);
    } else {
      HexOfSnoc([], n);
      assert [] + [n] == [n];
      assert n > 0 ==> ByteHex(n / 256) == "";
    }
  }

  lemma LastDigits(n: nat)
    ensures n % 256 / 16 == n / 16 % 16 && n % 256 % 16 == n % 16
    ensures n < 256 ==> n / 256 == 0 && n % 256 == n
  {
    BytesOf(n);
    assert n % 256 == 16 * (n / 16 % 16) + n % 16;
  }

  lemma HexOfSnoc(bytes: seq<Byte>, b: Byte)
    ensures HexOf(bytes + [b]) == HexOf(bytes) + [HexDigit(b / 16), HexDigit(b % 16)]
  {
    assert (bytes + [b])[..|bytes|] == bytes;
  }

  lemma NameOfRow(outdir: string, c: Cert)
    requires c.serial >= 0
    ensures CertName(outdir, c) == outdir + "/" + RowFor(c).serial + ".pem"
  {
    HexOfMagnitude(c.serial);
  }

  lemma NamesDiffer(outdir: string, a: Cert, b: Cert)
    requires a.serial >= 0 && b.serial >= 0 && CertName(outdir, a) == CertName(outdir, b)
    ensures a.serial == b.serial
  {
    NameOfRow(outdir, a);
    NameOfRow(outdir, b);
    var dir, s, t := outdir + "/", SerialText(a.serial), SerialText(b.serial);
    var x := CertName(outdir, a);
    assert x == dir + s + ".pem" && x == dir + t + ".pem";
    assert s == x[|dir|..|x| - 4] && t == x[|dir|..|x| - 4];
    SerialKeysDistinct(a.serial, b.serial);
  }

  // The certificates of a batch go to different files, each named after the
  // serial field of its row.
  lemma BatchFileNames(t: Table, n: nat, qs: seq<Request>, outdir: string)
    ensures var certs, rows := Batch(t, n, qs).certs, Batch(t, n, qs).table.rows;
      && |rows| == |t.rows| + |certs|
      && (forall i :: 0 <= i < |certs| ==>
            CertName(outdir, certs[i]) == outdir + "/" + rows[|t.rows| + i].serial + ".pem")
      && (forall i, j :: 0 <= i < j < |certs| ==> CertName(outdir, certs[i]) != CertName(outdir, certs[j]))
  {
    var certs := Batch(t, n, qs).certs;
    BatchNumbers(t, n, qs);
    BatchRows(t, n, qs);
    NamesOfRows(outdir, certs);
    NumberedNamesDiffer(outdir, certs, n);
  }

  lemma NamesOfRows(outdir: string, certs: seq<Cert>)
    requires forall i :: 0 <= i < |certs| ==> certs[i].serial >= 0
    ensures forall i :: 0 <= i < |certs| ==>
      CertName(outdir, certs[i]) == outdir + "/" + RowsFor(certs)[i].serial + ".pem"
  {
    forall i | 0 <= i < |certs| { NameOfRow(outdir, certs[i]); }
  }

  lemma NumberedNamesDiffer(outdir: string, certs: seq<Cert>, n: nat)
    requires forall i :: 0 <= i < |certs| ==> certs[i].serial == n + i
    ensures forall i, j :: 0 <= i < j < |certs| ==> CertName(outdir, certs[i]) != CertName(outdir, certs[j])
  {
    forall i, j | 0 <= i < j < |certs| ensures CertName(outdir, certs[i]) != CertName(outdir, certs[j]) {
      if CertName(outdir, certs[i]) == CertName(outdir, certs[j]) { NamesDiffer(outdir, certs[i], certs[j]); }
    }
  }

  // The names fit when, for every certificate, directory, slash, digits and suffix
  // have at most 4095 characters. The sign of a number is not part of a name.
  lemma FitByLength(outdir: string, certs: seq<Cert>)
    ensures NamesFit(outdir, certs) <==>
      forall i :: 0 <= i < |certs| ==>
        |outdir| + 1 + |SerialText(if certs[i].serial < 0 then -certs[i].serial else certs[i].serial)| + 4 <= 4095
  {
    forall i | 0 <= i < |certs|
      ensures CertName(outdir, certs[i]) ==
        outdir + "/" + SerialText(if certs[i].serial < 0 then -certs[i].serial else certs[i].serial) + ".pem"
    {
      HexOfMagnitude(if certs[i].serial < 0 then -certs[i].serial else certs[i].serial);
    }
  }
}
