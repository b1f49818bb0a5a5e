// Keys, salts and initial vectors given in hexadecimal, and the loops that
// print them.
module HexKey {
  import opened Text

  // ------------------------------------------------------ the specification

  // OPENSSL_hexchar2int.
  function Nibble(c: char): bv8
    requires IsHex(c)
  {
    match c
    case '0' => 0
    case '1' => 1
    case '2' => 2
    case '3' => 3
    case '4' => 4
    case '5' => 5
    case '6' => 6
    case '7' => 7
    case '8' => 8
    case '9' => 9
    case 'a' => 0xA
    case 'A' => 0xA
    case 'b' => 0xB
    case 'B' => 0xB
    case 'c' => 0xC
    case 'C' => 0xC
    case 'd' => 0xD
    case 'D' => 0xD
    case 'e' => 0xE
    case 'E' => 0xE
    case _ => 0xF
  }

  // The upper-case digit for half a byte.
  function Digit(v: bv8): char
    requires v < 16
  {
    match v
    case 0 => '0'
    case 1 => '1'
    case 2 => '2'
    case 3 => '3'
    case 4 => '4'
    case 5 => '5'
    case 6 => '6'
    case 7 => '7'
    case 8 => '8'
    case 9 => '9'
    case 0xA => 'A'
    case 0xB => 'B'
    case 0xC => 'C'
    case 0xD => 'D'
    case 0xE => 'E'
    case _ => 'F'
  }

  // The bytes that a text of hex digits denotes, two digits a byte; a last odd
  // digit fills the upper half of its byte.
  function Decode(s: string): (b: seq<bv8>)
    requires AllHex(s)
    ensures |b| == (|s| + 1) / 2
  {
    if s == "" then []
    else if |s| == 1 then [Nibble(s[0]) << 4]
    else [(Nibble(s[0]) << 4) | Nibble(s[1])] + Decode(s[2..])
  }

  // A byte of the decoding padded with zeros on the right.
  function ByteAt(s: string, k: nat): bv8
    requires AllHex(s)
  {
    if k < |Decode(s)| then Decode(s)[k] else 0
  }

  // The first character that is no digit is at position i, and b holds the
  // digits in front of it.
  predicate StoppedAt(s: string, i: nat, b: seq<bv8>) {
    i < |s| && AllHex(s[..i]) && !IsHex(s[i]) && forall k :: 0 <= k < |b| ==> b[k] == ByteAt(s[..i], k)
  }

  // The first digits, at most as many as fit.
  function Used(s: string, size: nat): (u: string)
    ensures u <= s && |u| == if |s| > 2 * size then 2 * size else |s|
  {
    if |s| > 2 * size then s[..2 * size] else s
  }

  function HexText(b: seq<bv8>): (t: string)
    ensures |t| == 2 * |b| && AllUpperHex(t)
  {
    if b == [] then "" else ByteText(b[0]) + HexText(b[1..])
  }

  // The %02X conversion of one byte.
  function ByteText(v: bv8): (t: string)
    ensures |t| == 2 && AllUpperHex(t)
  {
    [Digit(v >> 4), Digit(v & 15)]
  }

  // ---------------------------------------------------------- the programs

  // set_hex: 0 at the first character that is no hex digit, among those that
  // fit, with the digits in front of it stored; 1 otherwise. Bytes of out behind size are left alone.
  method SetHex(input: string, out: array<bv8>, size: nat) returns (ok: bool)
    requires size <= out.Length
    modifies out
    ensures ok <==> AllHex(Used(input, size))
    ensures ok ==> forall k :: 0 <= k < size ==> out[k] == ByteAt(Used(input, size), k)
    ensures !ok ==> exists i: nat :: StoppedAt(Used(input, size), i, out[..size])
    ensures forall k :: size <= k < out.Length ==> out[k] == old(out[k])
  {
    var n := |input|;
    if n > size * 2 { n := size * 2; }
    ghost var u := Used(input, size);
    Clear(out, size);
    var i := 0;
    while i < n
      invariant 0 <= i <= n && AllHex(u[..i])
      invariant forall k :: 0 <= k < size ==> out[k] == ByteAt(u[..i], k)
      invariant forall k :: size <= k < out.Length ==> out[k] == old(out[k])
    {
      var c := input[i];
      if !IsHex(c) {
        assert StoppedAt(u, i, out[..size]);
        return false;
      }
      assert u[..i + 1] == u[..i] + [c];
      ByteAtSnoc(u[..i], c);
      var j := Nibble(c);
      if i % 2 == 1 {
        out[i / 2] := out[i / 2] | j;
      } else {
        out[i / 2] := j << 4;
      }
      i := i + 1;
    }
    assert u[..i] == u;
    ok := true;
  }

  method Clear(out: array<bv8>, size: nat)
    requires size <= out.Length
    modifies out
    ensures forall k :: 0 <= k < size ==> out[k] == 0
    ensures forall k :: size <= k < out.Length ==> out[k] == old(out[k])
  {
    for i := 0 to size
      invariant forall k :: 0 <= k < i ==> out[k] == 0
      invariant forall k :: size <= k < out.Length ==> out[k] == old(out[k])
    {
      out[i] := 0;
    }
  }

  // The salt, key and iv loops: two upper-case digits a byte.
  method PrintHex(b: array<bv8>, n: nat) returns (text: string)
    requires n <= b.Length
    ensures text == HexText(b[..n])
  {
    text := "";
    for i := 0 to n
      invariant text == HexText(b[..i])
    {
      HexTextSnoc(b[..i], b[i]);
      assert b[..i + 1] == b[..i] + [b[i]];
      text := text + ByteText(b[i]);
    }
  }

  // ------------------------------------------------------------------ facts

  // One more digit: an even position opens a byte, an odd one completes it.
  lemma ByteAtSnoc(s: string, c: char)
    requires AllHex(s) && IsHex(c)
    ensures AllHex(s + [c])
    ensures forall k: nat :: ByteAt(s + [c], k) == WithDigit(s, c, k)
  {
    forall k: nat ensures ByteAt(s + [c], k) == WithDigit(s, c, k) {
      ByteAtSnocOne(s, c, k);
    }
  }

  // Byte k after the digit c has been added to s.
  function WithDigit(s: string, c: char, k: nat): bv8
    requires AllHex(s) && IsHex(c)
  {
    if k != |s| / 2 then ByteAt(s, k)
    else if |s| % 2 == 0 then Nibble(c) << 4
    else ByteAt(s, k) | Nibble(c)
  }

  lemma ByteAtSnocOne(s: string, c: char, k: nat)
    requires AllHex(s) && IsHex(c)
    ensures ByteAt(s + [c], k) == WithDigit(s, c, k)
  {
    if k < |Decode(s)| { DecodeAt(s, k); }
    if k < |Decode(s + [c])| { DecodeAt(s + [c], k); }
  }

  lemma {:induction false} DecodeAt(s: string, k: nat)
    requires AllHex(s) && k < |Decode(s)|
    ensures Decode(s)[k] ==
      if 2 * k + 1 < |s| then (Nibble(s[2 * k]) << 4) | Nibble(s[2 * k + 1]) else Nibble(s[2 * k]) << 4
  {
    if k > 0 { DecodeAt(s[2..], k - 1); }
  }

  lemma {:induction false} HexTextSnoc(b: seq<bv8>, v: bv8)
    ensures HexText(b + [v]) == HexText(b) + ByteText(v)
  {
    if b == [] {
      assert [] + [v] == [v] && [v][1..] == [];
      assert ByteText(v) + "" == ByteText(v) && "" + ByteText(v) == ByteText(v);
    } else {
      HexTextSnoc(b[1..], v);
      assert (b + [v])[1..] == b[1..] + [v];
      assert ByteText(b[0]) + (HexText(b[1..]) + ByteText(v)) == ByteText(b[0]) + HexText(b[1..]) + ByteText(v);
    }
  }

  lemma HalvesJoin(v: bv8)
    ensures ((v >> 4) << 4) | (v & 15) == v
  {
  }

  lemma NibbleOfDigit(v: bv8)
    requires v < 16
    ensures IsHex(Digit(v)) && Nibble(Digit(v)) == v
  {
  }

  lemma DigitOfNibble(c: char)
    requires IsHex(c)
    ensures Nibble(c) < 16 && Digit(Nibble(c)) == ToUpper(c)
  {
  }

  // Reading what was printed gives the bytes back.
  lemma {:induction false} DecodePrinted(b: seq<bv8>)
    ensures Decode(HexText(b)) == b
  {
    if b != [] {
      var t := HexText(b);
      DecodePrinted(b[1..]);
      assert t[2..] == HexText(b[1..]);
      NibbleOfDigit(b[0] >> 4);
      NibbleOfDigit(b[0] & 15);
      HalvesJoin(b[0]);
    }
  }

  // So set_hex inverts the print loops for every byte string of the right length.
  lemma PrintedRoundTrip(b: seq<bv8>)
    ensures Used(HexText(b), |b|) == HexText(b) && AllHex(HexText(b))
    ensures forall k :: 0 <= k < |b| ==> ByteAt(HexText(b), k) == b[k]
  {
    DecodePrinted(b);
  }

  // And printing what was read gives the digits back, in upper case.
  lemma {:induction false} PrintDecoded(s: string)
    requires AllHex(s) && |s| % 2 == 0
    ensures HexText(Decode(s)) == Upper(s)
  {
    if s != "" {
      PrintDecoded(s[2..]);
      BytePrinted(s[0], s[1]);
      assert Upper(s) == Upper(s)[..2] + Upper(s)[2..];
      assert Upper(s)[2..] == Upper(s[2..]);
      assert Upper(s)[..2] == [ToUpper(s[0]), ToUpper(s[1])];
      assert Decode(s)[1..] == Decode(s[2..]);
    }
  }

  lemma BytePrinted(h: char, l: char)
    requires IsHex(h) && IsHex(l)
    ensures ByteText((Nibble(h) << 4) | Nibble(l)) == [ToUpper(h), ToUpper(l)]
  {
    DigitOfNibble(h);
    DigitOfNibble(l);
    NibblesPart(Nibble(h), Nibble(l));
  }

  lemma NibblesPart(a: bv8, b: bv8)
    requires a < 16 && b < 16
    ensures ((a << 4) | b) >> 4 == a && ((a << 4) | b) & 15 == b
  {
  }

  // What a byte of the decoding is worth: sixteen times its first digit, plus its
  // second one if there is one.
  lemma DecodedValue(s: string, k: nat)
    requires AllHex(s) && 2 * k < |s|
    ensures Decode(s)[k] as int == 16 * HexVal(s[2 * k]) + (if 2 * k + 1 < |s| then HexVal(s[2 * k + 1]) else 0)
  {
    DecodeAt(s, k);
    NibbleValue(s[2 * k]);
    if 2 * k + 1 < |s| {
      NibbleValue(s[2 * k + 1]);
      HalvesValue(Nibble(s[2 * k]), Nibble(s[2 * k + 1]));
    } else {
      HalvesValue(Nibble(s[2 * k]), 0);
    }
  }

  lemma NibbleValue(c: char)
    requires IsHex(c)
    ensures Nibble(c) as int == HexVal(c)
  {
  }

  lemma HalvesValue(a: bv8, b: bv8)
    requires a < 16 && b < 16
    ensures (((a << 4) | b) as int) == 16 * (a as int) + b as int
    ensures ((a << 4) as int) == 16 * (a as int)
  {
  }
}
