// Text primitives shared by the applications: hexadecimal digits, letter
// case, and the serial-number text kept in the certificate database.
module Text {

  datatype Option<+T> = None | Some(value: T)

  lemma ConcatAssociates(a: string, b: string, c: string)
    ensures a + b + c == a + (b + c)
  {
  }

  // ---------------------------------------------------------------- letters

  function ToUpper(c: char): (u: char) {
    if 'a' <= c <= 'z' then ((c as int) - 32) as char else c
  }

  function Upper(s: string): (u: string)
    ensures |u| == |s|
    ensures forall i :: 0 <= i < |s| ==> u[i] == ToUpper(s[i])
  {
    seq(|s|, i requires 0 <= i < |s| => ToUpper(s[i]))
  }

  // strcasecmp(a, b) == 0
  predicate SameIgnoringCase(a: string, b: string) {
    Upper(a) == Upper(b)
  }

  // ------------------------------------------------------------- hex digits

  predicate IsDigit(c: char) { '0' <= c <= '9' }

  predicate IsHex(c: char) {
    '0' <= c <= '9' || 'A' <= c <= 'F' || 'a' <= c <= 'f'
  }

  predicate IsUpperHex(c: char) {
    '0' <= c <= '9' || 'A' <= c <= 'F'
  }

  function HexVal(c: char): (v: nat)
    requires IsHex(c)
    ensures v < 16
  {
    if '0' <= c <= '9' then c as int - '0' as int
    else if 'A' <= c <= 'F' then c as int - 'A' as int + 10
    else c as int - 'a' as int + 10
  }

  function HexDigit(v: nat): (c: char)
    requires v < 16
    ensures IsUpperHex(c) && HexVal(c) == v
  {
    if v < 10 then ('0' as int + v) as char else ('A' as int + v - 10) as char
  }

  predicate AllHex(s: string) { forall i :: 0 <= i < |s| ==> IsHex(s[i]) }

  predicate AllUpperHex(s: string) { forall i :: 0 <= i < |s| ==> IsUpperHex(s[i]) }

  // The number a string of hex digits denotes, most significant digit first.
  function HexNumber(s: string): (n: nat)
    requires AllHex(s)
  {
    if s == "" then 0 else 16 * HexNumber(s[..|s| - 1]) + HexVal(s[|s| - 1])
  }

  // The shortest upper-case hex text of n; nothing at all for zero.
  function Digits(n: nat): (s: string)
    ensures AllUpperHex(s)
    ensures n == 0 <==> s == ""
  {
    if n == 0 then "" else Digits(n / 16) + [HexDigit(n % 16)]
  }

  // ------------------------------------------------------------ serial text

  // BN_bn2hex on a positive number: whole bytes, leading zero bytes dropped.
  function ByteHex(n: nat): (s: string)
    ensures AllUpperHex(s)
    ensures |s| % 2 == 0
    ensures n == 0 <==> s == ""
  {
    if n == 0 then ""
    else ByteHex(n / 256) + [HexDigit(n / 16 % 16), HexDigit(n % 16)]
  }

  // The text put in the serial field: zero is special-cased by the callers,
  // and BN_bn2hex writes a minus sign in front of a negative number.
  function SerialText(n: int): (s: string) {
    if n == 0 then "00" else if n < 0 then "-" + ByteHex(-n) else ByteHex(n)
  }

  // Both index functions skip leading zero characters before they hash or
  // compare, so this is the key under which a serial is filed.
  function Key(s: string): (k: string)
    ensures k == "" || k[0] != '0'
  {
    if s != "" && s[0] == '0' then Key(s[1..]) else s
  }

  // What the loader accepts as a serial number: an optional minus sign, then
  // an even number, at least two, of hex digits.
  predicate SerialOk(s: string) {
    var d := if s != "" && s[0] == '-' then s[1..] else s;
    |d| % 2 == 0 && |d| >= 2 && AllHex(d)
  }

  // BN_hex2bn on a serial text the loader accepts.
  function SerialNumber(s: string): (n: int)
    requires SerialOk(s)
  {
    if s[0] == '-' then -(HexNumber(s[1..]) as int) else HexNumber(s)
  }

  // A stored serial that the programs can find again: every look-up builds its
  // text with SerialText, so the stored text must be spelled in upper case and,
  // after a minus sign, must not start with a zero byte.
  predicate Addressable(s: string) {
    SerialOk(s) &&
    if s[0] == '-' then AllUpperHex(s[1..]) && !(s[1] == '0' && s[2] == '0')
    else AllUpperHex(s)
  }

  // ------------------------------------------------------------------ facts

  lemma {:induction false} HexNumberZero(s: string)
    requires AllHex(s)
    ensures s != "" && s[0] == '0' ==> HexNumber(s) == HexNumber(s[1..])
  {
    if s != "" && s[0] == '0' && |s| > 1 {
      HexNumberZero(s[..|s| - 1]);
      assert s[..|s| - 1][1..] == s[1..][..|s| - 2];
    }
  }

  lemma {:induction false} DigitsOfSnoc(n: nat, v: nat)
    requires v < 16 && (n > 0 || v > 0)
    ensures Digits(16 * n + v) == Digits(n) + [HexDigit(v)]
  {
    assert (16 * n + v) / 16 == n && (16 * n + v) % 16 == v;
  }

  // Dropping the leading zeros of upper-case hex text leaves the digits of the
  // number it denotes: the key of a non-negative serial is a function of its value.
  lemma {:induction false} KeyIsDigits(s: string)
    requires AllUpperHex(s)
    ensures Key(s) == Digits(HexNumber(s))
  {
    if s == "" {
    } else {
      var p, c := s[..|s| - 1], s[|s| - 1];
      KeyIsDigits(p);
      KeySnoc(p, c);
      UpperHexIsDigit(c);
      if HexNumber(p) > 0 || HexVal(c) > 0 {
        DigitsOfSnoc(HexNumber(p), HexVal(c));
      }
      assert s == p + [c];
    }
  }

  lemma UpperHexIsDigit(c: char)
    requires IsUpperHex(c)
    ensures HexDigit(HexVal(c)) == c
  {
  }

  lemma {:induction false} KeySnoc(p: string, c: char)
    ensures Key(p + [c]) == if Key(p) == "" then Key([c]) else Key(p) + [c]
  {
    if p != "" && p[0] == '0' {
      KeySnoc(p[1..], c);
      assert (p + [c])[1..] == p[1..] + [c];
    } else if p == "" {
      assert p + [c] == [c];
    }
  }

  lemma HexNumberPair(p: string, h: char, l: char)
    requires AllHex(p) && IsHex(h) && IsHex(l)
    ensures HexNumber(p + [h, l]) == 256 * HexNumber(p) + 16 * HexVal(h) + HexVal(l)
  {
    var s := p + [h, l];
    assert s[..|s| - 1] == p + [h];
    assert (p + [h])[..|p|] == p;
  }

  lemma BytesOf(n: nat)
    ensures n == 256 * (n / 256) + 16 * (n / 16 % 16) + n % 16
  {
    assert n / 16 / 16 == n / 256;
  }

  lemma BytesTo(q: nat, h: nat, l: nat)
    requires h < 16 && l < 16
    ensures var n := 256 * q + 16 * h + l; n / 256 == q && n / 16 % 16 == h && n % 16 == l
  {
    var n := 256 * q + 16 * h + l;
    assert n / 16 == 16 * q + h;
  }

  lemma {:induction false} ByteHexNumber(n: nat)
    ensures HexNumber(ByteHex(n)) == n
  {
    if n > 0 {
      ByteHexNumber(n / 256);
      HexNumberPair(ByteHex(n / 256), HexDigit(n / 16 % 16), HexDigit(n % 16));
      BytesOf(n);
    }
  }

  lemma {:induction false} ByteHexLeading(n: nat)
    requires n > 0
    ensures |ByteHex(n)| >= 2 && !(ByteHex(n)[0] == '0' && ByteHex(n)[1] == '0')
  {
    if n / 256 > 0 {
      ByteHexLeading(n / 256);
      assert ByteHex(n)[..2] == ByteHex(n / 256)[..2];
    } else {
      assert ByteHex(n / 256) == "";
    }
  }

  lemma ZeroReadsBack()
    ensures SerialOk("00") && Addressable("00") && SerialNumber("00") == 0
  {
    assert "00" == "" + ['0', '0'] && "00"[0] == '0' && "00"[1] == '0';
    HexNumberPair("", '0', '0');
  }

  // The serial texts the programs write are loadable, addressable, and read
  // back as the number they were made from.
  lemma SerialTextReadsBack(n: int)
    ensures SerialOk(SerialText(n)) && Addressable(SerialText(n))
    ensures SerialNumber(SerialText(n)) == n
  {
    if n == 0 {
      ZeroReadsBack();
    } else if n < 0 {
      MinusReadsBack(-n);
    } else {
      HexReadsBack(n);
    }
  }

  lemma MinusReadsBack(m: nat)
    requires m > 0
    ensures var s := "-" + ByteHex(m);
      SerialOk(s) && Addressable(s) && SerialNumber(s) == -(m as int)
  {
    HexReadsBack(m);
    var s := "-" + ByteHex(m);
    assert s[0] == '-' && s[1..] == ByteHex(m);
  }

  lemma HexReadsBack(n: nat)
    requires n > 0
    ensures var s := ByteHex(n);
      && |s| >= 2 && !(s[0] == '0' && s[1] == '0')
      && SerialOk(s) && Addressable(s) && SerialNumber(s) == n && HexNumber(s) == n
  {
    ByteHexLeading(n);
    ByteHexNumber(n);
    assert IsUpperHex(ByteHex(n)[0]);
  }

  // An addressable serial is filed exactly under the key that a look-up for its
  // number computes.
  lemma AddressableKey(s: string)
    requires Addressable(s)
    ensures Key(s) == Key(SerialText(SerialNumber(s)))
  {
    var n := SerialNumber(s);
    if s[0] == '-' {
      HexNumberPositive(s[1..]);
      ByteHexUnique(s[1..]);
      assert s == "-" + s[1..];
    } else {
      SerialTextReadsBack(n);
      KeyIsDigits(s);
      KeyIsDigits(SerialText(n));
    }
  }

  lemma {:induction false} HexNumberPositive(d: string)
    requires AllHex(d)
    requires exists i :: 0 <= i < |d| && d[i] != '0'
    ensures HexNumber(d) > 0
  {
    var i :| 0 <= i < |d| && d[i] != '0';
    if i < |d| - 1 {
      assert d[..|d| - 1][i] != '0';
      HexNumberPositive(d[..|d| - 1]);
    }
  }

  // Whole-byte upper-case hex without a leading zero byte is determined by its value.
  lemma {:induction false} ByteHexUnique(d: string)
    requires AllUpperHex(d) && |d| % 2 == 0
    requires |d| > 0 ==> !(d[0] == '0' && d[1] == '0')
    ensures ByteHex(HexNumber(d)) == d
  {
    if |d| > 0 {
      var p, h, l := d[..|d| - 2], d[|d| - 2], d[|d| - 1];
      assert d == p + [h, l];
      ByteHexUnique(p);
      LeadingPositive(d);
      HexNumberPair(p, h, l);
      LastByte(HexNumber(p), p, h, l);
    }
  }

  lemma LeadingPositive(d: string)
    requires AllUpperHex(d) && |d| >= 2 && !(d[0] == '0' && d[1] == '0')
    ensures HexNumber(d) > 0
  {
    assert d[if d[0] == '0' then 1 else 0] != '0';
    HexNumberPositive(d);
  }

  lemma LastByte(q: nat, p: string, h: char, l: char)
    requires IsUpperHex(h) && IsUpperHex(l) && ByteHex(q) == p && q + HexVal(h) + HexVal(l) > 0
    ensures ByteHex(256 * q + 16 * HexVal(h) + HexVal(l)) == p + [h, l]
  {
    ByteHexPair(q, HexVal(h), HexVal(l));
    UpperHexIsDigit(h);
    UpperHexIsDigit(l);
  }

  lemma ByteHexPair(q: nat, h: nat, l: nat)
    requires h < 16 && l < 16 && q + h + l > 0
    ensures ByteHex(256 * q + 16 * h + l) == ByteHex(q) + [HexDigit(h), HexDigit(l)]
  {
    BytesTo(q, h, l);
  }

  // Two numbers share a key only when they are equal: the serial index never
  // confuses two certificates.
  lemma SerialKeysDistinct(a: int, b: int)
    requires Key(SerialText(a)) == Key(SerialText(b))
    ensures a == b
  {
    KeyRecoversNumber(SerialText(a), a);
    KeyRecoversNumber(SerialText(b), b);
  }

  ghost predicate Denotes(k: string, n: int) {
    if k != "" && k[0] == '-' then AllHex(k[1..]) && n == -(HexNumber(k[1..]) as int)
    else AllHex(k) && n == HexNumber(k)
  }

  lemma KeyRecoversNumber(s: string, n: int)
    requires s == SerialText(n)
    ensures Denotes(Key(s), n)
  {
    SerialTextReadsBack(n);
    if n >= 0 {
      KeyKeepsNumber(s);
    }
  }

  lemma {:induction false} KeyKeepsNumber(s: string)
    requires AllHex(s)
    ensures AllHex(Key(s)) && HexNumber(Key(s)) == HexNumber(s)
  {
    if s != "" && s[0] == '0' {
      KeyKeepsNumber(s[1..]);
      HexNumberZero(s);
    }
  }

  // The other direction of addressability: a stored serial that a look-up for
  // some number finds is addressable, or differs from it only in being unloadable.
  lemma KeyFoundIsAddressable(s: string, n: int)
    requires SerialOk(s) && Key(s) == Key(SerialText(n))
    ensures Addressable(s) && SerialNumber(s) == n
  {
    SerialTextReadsBack(n);
    if s[0] == '-' {
      assert Key(s) == s;
      if n >= 0 {
        KeyKeepsNumber(SerialText(n));
        assert false;
      } else {
        assert Key(SerialText(n)) == SerialText(n);
      }
    } else {
      KeyKeepsNumber(s);
      if n < 0 {
        assert false;
      } else {
        KeyKeepsNumber(SerialText(n));
        KeyUpper(s, SerialText(n));
      }
    }
  }

  lemma {:induction false} KeyUpper(s: string, t: string)
    requires AllHex(s) && AllUpperHex(t) && Key(s) == Key(t)
    ensures AllUpperHex(s)
  {
    if s != "" && s[0] == '0' {
      KeyUpper(s[1..], t);
      assert s == ['0'] + s[1..];
    } else {
      KeyStaysUpper(t);
    }
  }

  lemma {:induction false} KeyStaysUpper(t: string)
    requires AllUpperHex(t)
    ensures AllUpperHex(Key(t))
  {
    if t != "" && t[0] == '0' { KeyStaysUpper(t[1..]); }
  }

  // The digits themselves.
  lemma HexDigits(c: char, v: nat)
    ensures v < 16 ==> HexDigit(v) == "0123456789ABCDEF"[v]
    ensures IsHex(c) <==> c in "0123456789ABCDEF" || c in "0123456789abcdef"
    ensures IsHex(c) ==> c == "0123456789ABCDEF"[HexVal(c)] || c == "0123456789abcdef"[HexVal(c)]
  {
    assert forall i: nat :: i < 10 ==> "0123456789ABCDEF"[i] == "0123456789abcdef"[i] == ('0' as int + i) as char;
  }
}
