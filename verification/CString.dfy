// NUL-terminated character buffers and the handful of C string routines the
// applications call on them.
module CString {

  // A text that can be passed as a C string.
  predicate NulFree(s: string) { '\0' !in s }

  // The buffer contents b hold the text s and its terminator.
  ghost predicate Holds(b: seq<char>, s: string) {
    NulFree(s) && |s| < |b| && b[..|s|] == s && b[|s|] == '\0'
  }

  // The text starting at position o of buffer contents b is s.
  ghost predicate HoldsAt(b: seq<char>, o: nat, s: string) {
    o <= |b| && Holds(b[o..], s)
  }

  function Cut(s: string, room: nat): (t: string)
    ensures |t| <= room && t <= s
    ensures |s| <= room ==> t == s
  {
    if |s| <= room then s else s[..room]
  }

  method Strlen(b: array<char>, ghost s: string) returns (n: nat)
    requires Holds(b[..], s)
    ensures n == |s|
  {
    assert forall i :: 0 <= i < |s| ==> b[i] == b[..][..|s|][i] == s[i] != '\0';
    assert b[|s|] == b[..][|s|] == '\0';
    n := 0;
    while b[n] != '\0'
      invariant n <= |s|
      decreases |s| - n
    {
      n := n + 1;
    }
  }

  // The text at position o, read up to its terminator.
  method TextAt(b: array<char>, o: nat, ghost s: string) returns (t: string)
    requires HoldsAt(b[..], o, s)
    ensures t == s
  {
    t := "";
    assert forall i :: 0 <= i < |s| ==> b[o + i] == b[..][o..][..|s|][i] == s[i] != '\0';
    assert b[o + |s|] == b[..][o..][|s|] == '\0';
    while b[o + |t|] != '\0'
      invariant |t| <= |s| && t == s[..|t|]
      decreases |s| - |t|
    {
      t := t + [b[o + |t|]];
    }
  }

  // Position of the first c at or after o, or the position of the terminator
  // when there is none (the caller tells the two apart by looking).
  method Strchr(b: array<char>, o: nat, c: char, ghost s: string) returns (p: nat)
    requires HoldsAt(b[..], o, s) && c != '\0'
    ensures o <= p <= o + |s| && c !in s[..p - o]
    ensures p < b.Length && (p < o + |s| ==> b[p] == c) && (p == o + |s| ==> b[p] == '\0')
  {
    p := o;
    assert forall i :: 0 <= i < |s| ==> b[o + i] == b[..][o..][..|s|][i] == s[i] != '\0';
    assert b[o + |s|] == b[..][o..][|s|] == '\0';
    while b[p] != c && b[p] != '\0'
      invariant o <= p <= o + |s| && c !in s[..p - o]
      decreases o + |s| - p
    {
      assert s[..p + 1 - o] == s[..p - o] + [s[p - o]];
      p := p + 1;
    }
  }

  // Copy src and a terminator to position o.
  method Write(b: array<char>, o: nat, src: string)
    requires o + |src| < b.Length
    modifies b
    ensures b[..] == old(b[..])[..o] + src + ['\0'] + old(b[..])[o + |src| + 1..]
  {
    for i := 0 to |src|
      invariant forall j :: 0 <= j < i ==> b[o + j] == src[j]
      invariant forall j :: 0 <= j < o || o + i <= j < b.Length ==> b[j] == old(b[j])
    {
      b[o + i] := src[i];
    }
    b[o + |src|] := '\0';
  }

  // Like strlcat below, this returns the length it tried to make.
  method Strlcpy(b: array<char>, src: string) returns (len: nat)
    requires b.Length > 0 && NulFree(src)
    modifies b
    ensures Holds(b[..], Cut(src, b.Length - 1)) && len == |src|
  {
    len := |src|;
    var t := Cut(src, b.Length - 1);
    Write(b, 0, t);
    assert b[..][..|t|] == t;
  }

  method Strlcat(b: array<char>, src: string, ghost s: string) returns (len: nat)
    requires Holds(b[..], s) && NulFree(src)
    modifies b
    ensures Holds(b[..], Cut(s + src, b.Length - 1)) && len == |s| + |src|
  {
    var n := Strlen(b, s);
    len := n + |src|;
    var t := Cut(src, b.Length - 1 - n);
    Write(b, n, t);
    assert b[..][..n + |t|] == s + t;
    assert Cut(s + src, b.Length - 1) == s + t;
  }

  // strcpy to a place inside, or right behind, the text.
  method Strcpy(b: array<char>, o: nat, src: string, ghost s: string)
    requires Holds(b[..], s) && o <= |s| && o + |src| < b.Length && NulFree(src)
    modifies b
    ensures Holds(b[..], s[..o] + src)
  {
    ghost var t := s[..o] + src;
    Write(b, o, src);
    assert old(b[..])[..o] == s[..o];
    assert b[..][..|t|] == t;
  }

  // A larger block with the same text.
  method Grown(b: array<char>, size: nat, ghost s: string) returns (bigger: array<char>)
    requires Holds(b[..], s) && b.Length <= size
    ensures fresh(bigger) && bigger.Length == size && Holds(bigger[..], s)
  {
    bigger := new char[size];
    for i := 0 to b.Length
      invariant bigger[..i] == b[..i]
    {
      bigger[i] := b[i];
    }
    assert bigger[..][..b.Length] == b[..];
    assert bigger[..][..|s|] == b[..][..|s|];
  }
}
