/** Well-formed UTF-8 as `std::str::from_utf8` accepts it (Table 3-7 of the Unicode Standard). */
module Utf8 {
  import opened Text

  predicate InRange(s: Bytes, i: nat, low: int, high: int) {
    i < |s| && low <= s[i] as int <= high
  }

  predicate Continuation(s: Bytes, i: nat) {
    InRange(s, i, 0x80, 0xBF)
  }

  /** The length of the scalar value encoded at the front of `s`; 0 when there is none. */
  function ScalarLength(s: Bytes): (n: nat)
    ensures n <= |s| && n <= 4
    ensures forall i | 1 <= i < n :: s[i] as int >= 0x80
    ensures n >= 2 ==> s[0] as int >= 0x80
  {
    if InRange(s, 0, 0x00, 0x7F) then 1
    else if InRange(s, 0, 0xC2, 0xDF) && Continuation(s, 1) then 2
    else if
      && ((InRange(s, 0, 0xE0, 0xE0) && InRange(s, 1, 0xA0, 0xBF))
          || (InRange(s, 0, 0xE1, 0xEC) && Continuation(s, 1))
          || (InRange(s, 0, 0xED, 0xED) && InRange(s, 1, 0x80, 0x9F))
          || (InRange(s, 0, 0xEE, 0xEF) && Continuation(s, 1)))
      && Continuation(s, 2)
    then 3
    else if
      && ((InRange(s, 0, 0xF0, 0xF0) && InRange(s, 1, 0x90, 0xBF))
          || (InRange(s, 0, 0xF1, 0xF3) && Continuation(s, 1))
          || (InRange(s, 0, 0xF4, 0xF4) && InRange(s, 1, 0x80, 0x8F)))
      && Continuation(s, 2)
      && Continuation(s, 3)
    then 4
    else 0
  }

  predicate ValidUtf8(s: Bytes)
    decreases |s|
  {
    s == [] || (ScalarLength(s) > 0 && ValidUtf8(s[ScalarLength(s)..]))
  }

  lemma ScalarOfPrefix(a: Bytes, b: Bytes)
    requires ScalarLength(a) > 0
    ensures ScalarLength(a + b) == ScalarLength(a)
  {
  }

  lemma {:induction false} Utf8Concat(a: Bytes, b: Bytes)
    requires ValidUtf8(a) && ValidUtf8(b)
    ensures ValidUtf8(a + b)
    decreases |a|
  {
    if a == [] {
      assert a + b == b;
    } else {
      var n := ScalarLength(a);
      ScalarOfPrefix(a, b);
      hide ScalarLength;
      assert (a + b)[n..] == a[n..] + b;
      Utf8Concat(a[n..], b);
    }
  }

  lemma ScalarOfCut(s: Bytes, i: nat)
    requires 0 < ScalarLength(s) <= i <= |s|
    ensures ScalarLength(s[..i]) == ScalarLength(s)
  {
  }

  /** An ASCII byte is always a scalar of its own, so valid text may be cut in front of it. */
  lemma {:induction false} Utf8Cut(s: Bytes, i: nat)
    requires ValidUtf8(s) && i < |s| && s[i] as int < 0x80
    ensures ValidUtf8(s[..i]) && ValidUtf8(s[i..])
    decreases |s|
  {
    hide ScalarLength;
    if i == 0 {
      assert s[0..] == s;
    } else {
      var n := ScalarLength(s);
      assert n <= i;
      ScalarOfCut(s, i);
      var rest := s[n..];
      assert rest[i - n..] == s[i..] && rest[..i - n] == s[..i][n..];
      Utf8Cut(rest, i - n);
    }
  }

  /** ... and behind it. */
  lemma Utf8CutAfter(s: Bytes, i: nat)
    requires ValidUtf8(s) && i < |s| && s[i] as int < 0x80
    ensures ValidUtf8(s[i + 1..])
  {
    Utf8Cut(s, i);
    assert ScalarLength(s[i..]) == 1;
    assert s[i..][1..] == s[i + 1..];
  }

  predicate Ascii(s: Bytes) {
    forall c | c in s :: c as int < 0x80
  }

  lemma {:induction false} AsciiIsValid(s: Bytes)
    requires Ascii(s)
    ensures ValidUtf8(s)
  {
    if s != [] {
      assert s[0] in s;
      assert forall c | c in s[1..] :: c in s;
      AsciiIsValid(s[1..]);
    }
  }

  lemma {:induction false} Utf8Lines(s: Bytes)
    requires ValidUtf8(s)
    ensures forall l | l in SplitCrlf(s) :: ValidUtf8(l)
    decreases |s|
  {
    hide ValidUtf8, FindCrlf;
    match FindCrlf(s, 0)
    case None =>
    case Some(i) =>
      Utf8Cut(s, i);
      Utf8CutAfter(s, i + 1);
      Utf8Lines(s[i + 2..]);
  }

  lemma {:induction false} Utf8Join(lines: seq<Bytes>)
    requires forall l | l in lines :: ValidUtf8(l)
    ensures ValidUtf8(JoinCrlf(lines))
  {
    hide ValidUtf8;
    if lines == [] {
      AsciiIsValid([]);
    } else if |lines| == 1 {
      assert lines[0] in lines;
    } else {
      assert lines[0] in lines;
      Utf8Join(lines[1..]);
      AsciiIsValid(CRLF);
      Utf8Concat(lines[0], CRLF);
      Utf8Concat(lines[0] + CRLF, JoinCrlf(lines[1..]));
    }
  }

  // ---------------------------------------------------------------- the encoding of scalar values

  /** A Unicode scalar value: a code point that is not a surrogate. */
  predicate Scalar(c: nat) {
    c < 0xD800 || 0xE000 <= c < 0x110000
  }

  function Byte(n: nat): char
    requires n < 256
  {
    n as char
  }

  /** The bytes of a scalar value (Table 3-6 of the Unicode Standard). */
  function EncodeScalar(c: nat): Bytes
    requires Scalar(c)
  {
    if c < 0x80 then [Byte(c)]
    else if c < 0x800 then [Byte(0xC0 + c / 64), Byte(0x80 + c % 64)]
    else if c < 0x10000 then [Byte(0xE0 + c / 4096), Byte(0x80 + c / 64 % 64), Byte(0x80 + c % 64)]
    else [Byte(0xF0 + c / 262144), Byte(0x80 + c / 4096 % 64), Byte(0x80 + c / 64 % 64), Byte(0x80 + c % 64)]
  }

  function EncodeAll(cs: seq<nat>): Bytes
    requires forall c | c in cs :: Scalar(c)
  {
    if cs == [] then [] else EncodeScalar(cs[0]) + EncodeAll(cs[1..])
  }

  /** An encoded scalar value is recognised, whatever follows, */
  lemma ScalarRecognised(c: nat, rest: Bytes)
    requires Scalar(c)
    ensures ScalarLength(EncodeScalar(c) + rest) == |EncodeScalar(c)|
  {
    var s := EncodeScalar(c) + rest;
    assert forall i | 0 <= i < |EncodeScalar(c)| :: s[i] == EncodeScalar(c)[i];
  }

  /** and whatever is recognised is one. */
  lemma RecognisedScalar(s: Bytes) returns (c: nat)
    requires ScalarLength(s) > 0
    ensures Scalar(c) && EncodeScalar(c) == s[..ScalarLength(s)]
  {
    var n := ScalarLength(s);
    if n == 1 {
      c := s[0] as int;
    } else if n == 2 {
      c := Two(s);
    } else if n == 3 {
      c := Three(s);
    } else {
      c := Four(s);
    }
  }

  lemma Two(s: Bytes) returns (c: nat)
    requires ScalarLength(s) == 2
    ensures Scalar(c) && EncodeScalar(c) == s[..2]
  {
    c := (s[0] as int - 0xC0) * 64 + (s[1] as int - 0x80);
    assert c / 64 == s[0] as int - 0xC0 && c % 64 == s[1] as int - 0x80;
  }

  lemma Three(s: Bytes) returns (c: nat)
    requires ScalarLength(s) == 3
    ensures Scalar(c) && EncodeScalar(c) == s[..3]
  {
    var x, y, z := s[0] as int - 0xE0, s[1] as int - 0x80, s[2] as int - 0x80;
    c := x * 4096 + y * 64 + z;
    assert c / 64 == x * 64 + y && c % 64 == z;
    assert c / 4096 == x && c / 64 % 64 == y;
  }

  lemma Four(s: Bytes) returns (c: nat)
    requires ScalarLength(s) == 4
    ensures Scalar(c) && EncodeScalar(c) == s[..4]
  {
    var w, x, y, z := s[0] as int - 0xF0, s[1] as int - 0x80, s[2] as int - 0x80, s[3] as int - 0x80;
    c := w * 262144 + x * 4096 + y * 64 + z;
    assert c / 64 == w * 4096 + x * 64 + y && c % 64 == z;
    assert c / 4096 == w * 64 + x && c / 64 % 64 == y;
    assert c / 262144 == w && c / 4096 % 64 == x;
  }

  lemma {:induction false} EncodedIsValid(cs: seq<nat>)
    requires forall c | c in cs :: Scalar(c)
    ensures ValidUtf8(EncodeAll(cs))
  {
    hide ScalarLength, EncodeScalar, Scalar;
    if cs != [] {
      assert cs[0] in cs && forall c | c in cs[1..] :: c in cs;
      EncodedIsValid(cs[1..]);
      ScalarRecognised(cs[0], EncodeAll(cs[1..]));
      SomeBytes(cs[0]);
      var s, n := EncodeAll(cs), |EncodeScalar(cs[0])|;
      assert s[n..] == EncodeAll(cs[1..]);
    }
  }

  lemma SomeBytes(c: nat)
    requires Scalar(c)
    ensures EncodeScalar(c) != []
  {
  }

  lemma {:induction false} ValidIsEncoded(s: Bytes) returns (cs: seq<nat>)
    requires ValidUtf8(s)
    ensures (forall c | c in cs :: Scalar(c)) && EncodeAll(cs) == s
    decreases |s|
  {
    hide ScalarLength, EncodeScalar, Scalar;
    if s == [] {
      cs := [];
    } else {
      var n := ScalarLength(s);
      var c := RecognisedScalar(s);
      var rest := ValidIsEncoded(s[n..]);
      cs := [c] + rest;
      assert cs[1..] == rest;
      assert s == s[..n] + s[n..];
    }
  }

  /** Exactly the encodings of scalar values are valid. */
  lemma ValidIffEncoded(s: Bytes)
    ensures ValidUtf8(s) <==> exists cs: seq<nat> :: (forall c | c in cs :: Scalar(c)) && EncodeAll(cs) == s
  {
    hide ValidUtf8, EncodeAll, Scalar;
    if ValidUtf8(s) {
      var cs := ValidIsEncoded(s);
    }
    if exists cs: seq<nat> :: (forall c | c in cs :: Scalar(c)) && EncodeAll(cs) == s {
      var cs: seq<nat> :| (forall c | c in cs :: Scalar(c)) && EncodeAll(cs) == s;
      EncodedIsValid(cs);
    }
  }
}
