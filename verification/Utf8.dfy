/** UTF-8 as section 4 of RFC 3629 spells it, and the lossy decoding the SSE decoder applies. */
module Utf8 {
  import opened Wrappers

  predicate Continuation(b: Byte) {
    0x80 <= b <= 0xBF
  }

  /** Which second bytes may follow a lead byte of a three- or four-byte character. */
  predicate SecondAllowed(lead: Byte, second: Byte) {
    && Continuation(second)
    && (lead == 0xE0 ==> 0xA0 <= second)
    && (lead == 0xED ==> second <= 0x9F)
    && (lead == 0xF0 ==> 0x90 <= second)
    && (lead == 0xF4 ==> second <= 0x8F)
  }

  /** The length of the well-formed character `s` begins with, 0 when there is none. */
  function CharLen(s: Bytes): (n: nat)
    ensures n <= |s|
  {
    if s == [] then 0
    else if s[0] < 0x80 then 1
    else if 0xC2 <= s[0] <= 0xDF then
      if |s| > 1 && Continuation(s[1]) then 2 else 0
    else if 0xE0 <= s[0] <= 0xEF then
      if |s| > 2 && SecondAllowed(s[0], s[1]) && Continuation(s[2]) then 3 else 0
    else if 0xF0 <= s[0] <= 0xF4 then
      if |s| > 3 && SecondAllowed(s[0], s[1]) && Continuation(s[2]) && Continuation(s[3]) then 4 else 0
    else 0
  }

  predicate Valid(s: Bytes) {
    s == [] || (CharLen(s) > 0 && Valid(s[CharLen(s)..]))
  }

  /** The length of the maximal ill-formed run replaced by one replacement character. */
  function BadLen(s: Bytes): (n: nat)
    requires s != [] && CharLen(s) == 0
    ensures 0 < n <= |s|
  {
    if 0xE0 <= s[0] <= 0xF4 && |s| > 1 && SecondAllowed(s[0], s[1]) then
      if 0xF0 <= s[0] && |s| > 2 && Continuation(s[2]) then 3 else 2
    else 1
  }

  const REPLACEMENT: Bytes := [0xEF, 0xBF, 0xBD]

  function Lossy(s: Bytes): Bytes
    decreases |s|
  {
    if s == [] then []
    else if CharLen(s) > 0 then s[..CharLen(s)] + Lossy(s[CharLen(s)..])
    else REPLACEMENT + Lossy(s[BadLen(s)..])
  }

  lemma {:induction false} ValidIsKept(s: Bytes)
    requires Valid(s)
    ensures Lossy(s) == s
    decreases |s|
  {
    if s != [] {
      ValidIsKept(s[CharLen(s)..]);
    }
  }

  lemma {:induction false} ValidAppend(a: Bytes, b: Bytes)
    requires Valid(a) && Valid(b)
    ensures Valid(a + b)
    decreases |a|
  {
    if a == [] {
      assert a + b == b;
    } else {
      var n := CharLen(a);
      ValidAppend(a[n..], b);
      assert CharLen(a + b) == n && (a + b)[n..] == a[n..] + b;
    }
  }

  lemma {:induction false} LossyIsValid(s: Bytes)
    ensures Valid(Lossy(s))
    decreases |s|
  {
    if s != [] {
      var n := CharLen(s);
      if n > 0 {
        LossyIsValid(s[n..]);
        assert CharLen(s[..n]) == n && s[..n][n..] == [];
        ValidAppend(s[..n], Lossy(s[n..]));
      } else {
        LossyIsValid(s[BadLen(s)..]);
        assert CharLen(REPLACEMENT) == 3 && REPLACEMENT[3..] == [];
        ValidAppend(REPLACEMENT, Lossy(s[BadLen(s)..]));
      }
    }
  }

  lemma {:induction false} LossyAddsNoAscii(s: Bytes, b: Byte)
    requires b < 0x80 && b in Lossy(s)
    ensures b in s
    decreases |s|
  {
    if s != [] {
      if CharLen(s) > 0 {
        if b !in s[..CharLen(s)] {
          LossyAddsNoAscii(s[CharLen(s)..], b);
        }
      } else {
        LossyAddsNoAscii(s[BadLen(s)..], b);
      }
    }
  }

  lemma CharLenOfPrefix(s: Bytes, i: nat)
    requires 0 < i < |s| && s[i] < 0x80 && CharLen(s) > 0
    ensures CharLen(s) <= i && CharLen(s[..i]) == CharLen(s)
  {
  }

  /** A valid text may be cut on either side of any ASCII byte. */
  lemma {:induction false} ValidAroundAscii(s: Bytes, i: nat)
    requires Valid(s) && i < |s| && s[i] < 0x80
    ensures Valid(s[..i]) && Valid(s[i..]) && Valid(s[i + 1..])
    decreases |s|
  {
    if i == 0 {
      assert s[0..] == s;
    } else {
      var n := CharLen(s);
      CharLenOfPrefix(s, i);
      ValidAroundAscii(s[n..], i - n);
      assert s[n..][..i - n] == s[..i][n..] && s[n..][i - n..] == s[i..] && s[n..][i - n + 1..] == s[i + 1..];
    }
  }

  // ----- the characters themselves

  /** The code points a text may hold: no surrogates, and none past the last plane. */
  predicate Scalar(cp: int) {
    0 <= cp < 0xD800 || 0xE000 <= cp <= 0x10_FFFF
  }

  /** Section 3 of RFC 3629. */
  function Encode(cp: int): Bytes
    requires Scalar(cp)
  {
    if cp < 0x80 then [cp as Byte]
    else if cp < 0x800 then [(0xC0 + cp / 64) as Byte, (0x80 + cp % 64) as Byte]
    else if cp < 0x1_0000 then
      [(0xE0 + cp / 4096) as Byte, (0x80 + cp / 64 % 64) as Byte, (0x80 + cp % 64) as Byte]
    else
      [(0xF0 + cp / 262144) as Byte, (0x80 + cp / 4096 % 64) as Byte, (0x80 + cp / 64 % 64) as Byte,
       (0x80 + cp % 64) as Byte]
  }

  /** What stands at the front of a text is a character exactly if it encodes a code point. */
  lemma CharIsEncoded(s: Bytes) returns (cp: int)
    requires CharLen(s) > 0
    ensures Scalar(cp) && Encode(cp) == s[..CharLen(s)]
  {
    var n := CharLen(s);
    if n == 1 {
      cp := s[0] as int;
    } else if n == 2 {
      cp := TwoBytes(s[0], s[1]);
    } else if n == 3 {
      cp := ThreeBytes(s[0], s[1], s[2]);
    } else {
      cp := FourBytes(s[0], s[1], s[2], s[3]);
    }
  }

  lemma TwoBytes(a: Byte, b: Byte) returns (cp: int)
    requires 0xC2 <= a <= 0xDF && Continuation(b)
    ensures 0x80 <= cp < 0x800 && Encode(cp) == [a, b]
  {
    cp := (a as int - 0xC0) * 64 + (b as int - 0x80);
  }

  lemma ThreeBytes(a: Byte, b: Byte, c: Byte) returns (cp: int)
    requires 0xE0 <= a <= 0xEF && SecondAllowed(a, b) && Continuation(c)
    ensures 0x800 <= cp < 0x1_0000 && Scalar(cp) && Encode(cp) == [a, b, c]
  {
    var x, y, z := a as int - 0xE0, b as int - 0x80, c as int - 0x80;
    cp := x * 4096 + y * 64 + z;
    SixBitGroups(0, x, y, z);
  }

  lemma FourBytes(a: Byte, b: Byte, c: Byte, d: Byte) returns (cp: int)
    requires 0xF0 <= a <= 0xF4 && SecondAllowed(a, b) && Continuation(c) && Continuation(d)
    ensures 0x1_0000 <= cp && Scalar(cp) && Encode(cp) == [a, b, c, d]
  {
    var x, y, z, w := a as int - 0xF0, b as int - 0x80, c as int - 0x80, d as int - 0x80;
    cp := x * 262144 + y * 4096 + z * 64 + w;
    SixBitGroups(x, y, z, w);
  }

  lemma SixBitGroups(x: int, y: int, z: int, w: int)
    requires 0 <= x && 0 <= y < 64 && 0 <= z < 64 && 0 <= w < 64
    ensures var n := x * 262144 + y * 4096 + z * 64 + w;
            && n / 262144 == x && n / 4096 % 64 == y && n / 64 % 64 == z && n % 64 == w
            && n / 4096 == x * 64 + y
  {
    var n := x * 262144 + y * 4096 + z * 64 + w;
    assert n / 64 == x * 4096 + y * 64 + z;
    assert n / 4096 == x * 64 + y;
  }

  lemma EncodedIsChar(cp: int, rest: Bytes)
    requires Scalar(cp)
    ensures CharLen(Encode(cp) + rest) == |Encode(cp)|
  {
    var s := Encode(cp) + rest;
    EncodedBytes(cp);
    assert forall i :: 0 <= i < |Encode(cp)| ==> s[i] == Encode(cp)[i];
  }

  /** The bytes of a character, by its length. */
  lemma EncodedBytes(cp: int)
    requires Scalar(cp)
    ensures var e := Encode(cp);
            && 1 <= |e| <= 4 && (|e| == 1 <==> e[0] < 0x80)
            && (|e| == 2 ==> 0xC2 <= e[0] <= 0xDF && Continuation(e[1]))
            && (|e| == 3 ==> 0xE0 <= e[0] <= 0xEF && SecondAllowed(e[0], e[1]) && Continuation(e[2]))
            && (|e| == 4 ==>
                  0xF0 <= e[0] <= 0xF4 && SecondAllowed(e[0], e[1]) && Continuation(e[2]) && Continuation(e[3]))
  {
  }

  /** What is replaced at once where no character stands: one byte, or as many as begin some
      character, and not one more. */
  lemma BadIsMaximal(s: Bytes) returns (cp: int)
    requires s != [] && CharLen(s) == 0
    ensures BadLen(s) > 1 ==> Scalar(cp) && s[..BadLen(s)] < Encode(cp)
    ensures forall m, c :: BadLen(s) < m <= |s| && Scalar(c) ==> !(s[..m] <= Encode(c))
  {
    cp := 0;
    var n := BadLen(s);
    if n == 3 {
      cp := FourBytes(s[0], s[1], s[2], 0x80);
    } else if n == 2 && s[0] >= 0xF0 {
      cp := FourBytes(s[0], s[1], 0x80, 0x80);
    } else if n == 2 {
      cp := ThreeBytes(s[0], s[1], 0x80);
    }
    forall m, c | n < m <= |s| && Scalar(c)
      ensures !(s[..m] <= Encode(c))
    {
      NotLonger(s, m, c);
    }
  }

  lemma NotLonger(s: Bytes, m: nat, c: int)
    requires s != [] && CharLen(s) == 0 && BadLen(s) < m <= |s| && Scalar(c)
    ensures !(s[..m] <= Encode(c))
  {
    EncodedBytes(c);
  }

  /** Lossy decoding keeps each character and puts U+FFFD for each bad run. */
  lemma LossyUnfolds(cp: int, rest: Bytes, bad: Bytes)
    requires Scalar(cp) && bad != [] && CharLen(bad) == 0
    ensures Lossy(Encode(cp) + rest) == Encode(cp) + Lossy(rest)
    ensures Lossy(bad) == Encode(0xFFFD) + Lossy(bad[BadLen(bad)..])
    ensures Lossy([]) == []
  {
    hide Encode, CharLen, BadLen;
    EncodedIsChar(cp, rest);
    var s, n := Encode(cp) + rest, |Encode(cp)|;
    assert n > 0 by { EncodedBytes(cp); }
    assert s[..n] == Encode(cp) && s[n..] == rest;
    ReplacementIs();
  }

  lemma ReplacementIs()
    ensures REPLACEMENT == Encode(0xFFFD)
  {
  }
}
