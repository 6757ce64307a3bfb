/** UTF-8 as sections 3 and 4 of RFC 3629 define it, and what the converters make of any text. */
module Utf8Spec {
  import opened Wrappers

  type byte = x: int | 0 <= x < 256

  predicate CodePoint(c: int) {
    0 <= c <= 0x10FFFF
  }

  /** A code point that is not a surrogate. */
  predicate Scalar(c: int) {
    CodePoint(c) && !(0xD800 <= c <= 0xDFFF)
  }

  /** The low six bits of `x`, marked as a continuation byte. */
  function Tail(x: int): byte {
    0x80 + x % 64
  }

  function Low6(b: byte): int {
    b as int % 64
  }

  /** Six more bits after `bits`. */
  function Combine(bits: int, b: byte): int {
    bits * 64 + Low6(b)
  }

  lemma CombineTail(x: int)
    ensures IsTail(Tail(x)) && Low6(Tail(x)) == x % 64 && Combine(x / 64, Tail(x)) == x
  {
  }

  lemma CombineParts(bits: int, b: byte)
    requires IsTail(b)
    ensures Combine(bits, b) / 64 == bits && Tail(Combine(bits, b)) == b
  {
  }

  lemma Shifts(c: int)
    ensures c / 4096 == c / 64 / 64 && c / 262144 == c / 4096 / 64
  {
  }

  /** The bytes of one character. What is too large becomes a question mark, and of a negative value
      the lowest byte is left. */
  function Encode(c: int): seq<byte> {
    if c <= 0x7F then [c % 256]
    else if c <= 0x7FF then [0xC0 + c / 64, Tail(c)]
    else if c <= 0xFFFF then [0xE0 + c / 4096, Tail(c / 64), Tail(c)]
    else if c <= 0x10FFFF then [0xF0 + c / 262144, Tail(c / 4096), Tail(c / 64), Tail(c)]
    else ['?' as int]
  }

  function EncodeAll(w: seq<int>): seq<byte> {
    if w == [] then [] else Encode(w[0]) + EncodeAll(w[1..])
  }

  predicate All(w: seq<int>, p: int -> bool) {
    forall k :: 0 <= k < |w| ==> p(w[k])
  }

  /** Some text of scalar values has exactly these bytes. */
  ghost predicate WellFormed(s: seq<byte>) {
    exists w :: All(w, Scalar) && s == EncodeAll(w)
  }

  lemma {:induction false} EncodeAllConcat(v: seq<int>, w: seq<int>)
    ensures EncodeAll(v + w) == EncodeAll(v) + EncodeAll(w)
  {
    if v == [] {
      assert v + w == w;
    } else {
      assert (v + w)[1..] == v[1..] + w;
      EncodeAllConcat(v[1..], w);
    }
  }

  // ---------------------------------------------------------------- the recogniser

  predicate IsTail(b: int) {
    b / 64 == 2
  }

  /** The length of the character at the start of the bytes, or 0 if there is none. */
  function StrictLength(s: seq<byte>): nat
    requires s != []
  {
    var b: int := s[0];
    if b <= 0x7F then 1
    else
      var n := if 0xC2 <= b <= 0xDF then 2 else if 0xE0 <= b <= 0xEF then 3 else if 0xF0 <= b <= 0xF4 then 4 else 0;
      if n == 0 || |s| < n || !Tails(s, n) then 0
      else if n == 2 then 2
      else if n == 3 then
        var c := Combine(Combine(b % 16, s[1]), s[2]);
        if c < 0x800 || c / 2048 == 0x1B then 0 else 3
      else
        var c := Combine(Combine(Combine(b % 8, s[1]), s[2]), s[3]);
        if c < 0x10000 || c > 0x10FFFF then 0 else 4
  }

  predicate Tails(s: seq<byte>, n: nat)
    requires n <= |s|
  {
    forall k :: 1 <= k < n ==> IsTail(s[k])
  }

  lemma TwoBytes(s: seq<byte>) returns (c: int)
    requires |s| >= 2 && 0xC2 <= s[0] <= 0xDF && IsTail(s[1])
    ensures Scalar(c) && s[..2] == Encode(c)
  {
    c := Combine(s[0] - 0xC0, s[1]);
    CombineParts(s[0] - 0xC0, s[1]);
  }

  lemma SurrogatesAre(c: int)
    ensures c / 2048 == 0x1B <==> 0xD800 <= c <= 0xDFFF
  {
  }

  /** The bytes of a character of three bytes, given its parts. */
  lemma EncodeThree(c: int, x: int, h: int)
    requires 0x800 <= c <= 0xFFFF && x == c / 64 && h == x / 64
    ensures 0 <= h < 16 && Encode(c) == [0xE0 + h, Tail(x), Tail(c)]
  {
    Shifts(c);
  }

  lemma EncodeFour(c: int, y: int, x: int, h: int)
    requires 0x10000 <= c <= 0x10FFFF && y == c / 64 && x == y / 64 && h == x / 64
    ensures 0 <= h <= 4 && Encode(c) == [0xF0 + h, Tail(x), Tail(y), Tail(c)]
  {
    Shifts(c);
  }

  lemma ThreeBytes(s: seq<byte>) returns (c: int)
    requires |s| >= 3 && 0xE0 <= s[0] <= 0xEF && IsTail(s[1]) && IsTail(s[2])
    requires var x := Combine(Combine(s[0] - 0xE0, s[1]), s[2]); x >= 0x800 && x / 2048 != 0x1B
    ensures Scalar(c) && s[..3] == Encode(c)
  {
    var x := Combine(s[0] - 0xE0, s[1]);
    c := Combine(x, s[2]);
    CombineParts(s[0] - 0xE0, s[1]);
    CombineParts(x, s[2]);
    SurrogatesAre(c);
    EncodeThree(c, x, s[0] - 0xE0);
  }

  lemma FourBytes(s: seq<byte>) returns (c: int)
    requires |s| >= 4 && 0xF0 <= s[0] <= 0xF4 && IsTail(s[1]) && IsTail(s[2]) && IsTail(s[3])
    requires 0x10000 <= Combine(Combine(Combine(s[0] - 0xF0, s[1]), s[2]), s[3]) <= 0x10FFFF
    ensures Scalar(c) && s[..4] == Encode(c)
  {
    var x := Combine(s[0] - 0xF0, s[1]);
    var y := Combine(x, s[2]);
    c := Combine(y, s[3]);
    CombineParts(s[0] - 0xF0, s[1]);
    CombineParts(x, s[2]);
    CombineParts(y, s[3]);
    EncodeFour(c, y, x, s[0] - 0xF0);
  }

  /** A character is recognised exactly where the bytes of a scalar value stand. */
  lemma RecognisesScalar(s: seq<byte>) returns (c: int)
    requires s != [] && StrictLength(s) > 0
    ensures Scalar(c) && StrictLength(s) <= |s| && s[..StrictLength(s)] == Encode(c)
  {
    if StrictLength(s) == 1 {
      c := s[0];
      assert s[..1] == Encode(c);
    } else if StrictLength(s) == 2 {
      c := TwoBytes(s);
    } else if StrictLength(s) == 3 {
      c := ThreeBytes(s);
    } else {
      c := FourBytes(s);
    }
  }

  lemma ScalarIsRecognised(c: int, rest: seq<byte>)
    requires Scalar(c)
    ensures StrictLength(Encode(c) + rest) == |Encode(c)|
  {
    if 0x7F < c <= 0x7FF {
      TwoRecognised(c, rest);
    } else if 0x7FF < c <= 0xFFFF {
      ThreeRecognised(c, rest);
    } else if 0xFFFF < c {
      FourRecognised(c, rest);
    }
  }

  lemma TwoRecognised(c: int, rest: seq<byte>)
    requires Scalar(c) && 0x7F < c <= 0x7FF
    ensures StrictLength(Encode(c) + rest) == 2
  {
    CombineTail(c);
    var s := Encode(c) + rest;
    assert s[0] == 0xC0 + c / 64 && s[1] == Tail(c);
  }

  lemma ThreeRecognised(c: int, rest: seq<byte>)
    requires Scalar(c) && 0x7FF < c <= 0xFFFF
    ensures StrictLength(Encode(c) + rest) == 3
  {
    var b1, b2, h := ThreeParts(c);
    SurrogatesAre(c);
    StrictThree(Encode(c) + rest, h, c);
  }

  lemma StrictThree(s: seq<byte>, h: int, c: int)
    requires |s| >= 3 && s[0] == 0xE0 + h && 0 <= h < 16 && IsTail(s[1]) && IsTail(s[2])
    requires c == Combine(Combine(h, s[1]), s[2]) && c >= 0x800 && c / 2048 != 0x1B
    ensures StrictLength(s) == 3
  {
    assert s[0] as int % 16 == h;
  }

  lemma FourRecognised(c: int, rest: seq<byte>)
    requires Scalar(c) && 0xFFFF < c
    ensures StrictLength(Encode(c) + rest) == 4
  {
    var b1, b2, b3, h := FourParts(c);
    StrictFour(Encode(c) + rest, h, c);
  }

  lemma StrictFour(s: seq<byte>, h: int, c: int)
    requires |s| >= 4 && s[0] == 0xF0 + h && 0 <= h <= 4 && IsTail(s[1]) && IsTail(s[2]) && IsTail(s[3])
    requires c == Combine(Combine(Combine(h, s[1]), s[2]), s[3]) && 0x10000 <= c <= 0x10FFFF
    ensures StrictLength(s) == 4
  {
    assert s[0] as int % 8 == h;
  }

  lemma WellFormedTail(s: seq<byte>)
    requires s != [] && WellFormed(s)
    ensures 0 < StrictLength(s) <= |s| && WellFormed(s[StrictLength(s)..])
  {
    var w :| All(w, Scalar) && s == EncodeAll(w);
    var rest := EncodeAll(w[1..]);
    AllOfRest(w, Scalar);
    ScalarIsRecognised(w[0], rest);
    assert s == Encode(w[0]) + rest;
    assert s[|Encode(w[0])|..] == rest;
  }

  lemma WellFormedWith(c: int, s: seq<byte>)
    requires Scalar(c) && WellFormed(s)
    ensures WellFormed(Encode(c) + s)
  {
    var w :| All(w, Scalar) && s == EncodeAll(w);
    assert ([c] + w)[1..] == w;
    assert Encode(c) + s == EncodeAll([c] + w);
    assert All([c] + w, Scalar);
  }

  lemma WellFormedBehind(s: seq<byte>)
    requires s != [] && 0 < StrictLength(s) <= |s| && WellFormed(s[StrictLength(s)..])
    ensures WellFormed(s)
  {
    var c := RecognisesScalar(s);
    WellFormedFrom(c, s, StrictLength(s));
  }

  lemma WellFormedFrom(c: int, s: seq<byte>, n: nat)
    requires Scalar(c) && n <= |s| && s[..n] == Encode(c) && WellFormed(s[n..])
    ensures WellFormed(s)
  {
    WellFormedWith(c, s[n..]);
    assert s[..n] + s[n..] == s;
  }

  /** Bytes are well-formed exactly when they start with a character and the rest is well-formed. */
  lemma WellFormedStep(s: seq<byte>)
    requires s != []
    ensures WellFormed(s) <==> 0 < StrictLength(s) <= |s| && WellFormed(s[StrictLength(s)..])
  {
    if WellFormed(s) {
      WellFormedTail(s);
    } else if 0 < StrictLength(s) <= |s| && WellFormed(s[StrictLength(s)..]) {
      WellFormedBehind(s);
    }
  }

  // ---------------------------------------------------------------- the decoder

  const Error := '?' as int

  /** What the decoder produces from the bytes when it is `more` bytes short of a character whose bits
      so far are `w`. */
  function Decode(s: seq<byte>, w: int, more: nat): seq<int> {
    if s == [] then (if more > 0 then [Error] else [])
    else
      var b: int, rest := s[0], s[1..];
      if b <= 0x7F then (if more > 0 then [Error] else []) + [b] + Decode(rest, w, 0)
      else if b <= 0xBF then
        if more == 0 then [Error] + Decode(rest, w, 0)
        else
          var v := Combine(w, s[0]);
          if more == 1 then [v] + Decode(rest, v, 0) else Decode(rest, v, more - 1)
      else if b <= 0xDF then Decode(rest, b % 32, 1)
      else if b <= 0xEF then Decode(rest, b % 16, 2)
      else if b <= 0xF7 then Decode(rest, b % 8, 3)
      else [Error] + Decode(rest, w, 0)
  }

  /** Pending bits do not matter when nothing is missing. */
  lemma {:induction false} NothingPending(s: seq<byte>, v: int, w: int)
    ensures Decode(s, v, 0) == Decode(s, w, 0)
  {
    if s != [] && (s[0] <= 0xBF || s[0] > 0xF7) {
      NothingPending(s[1..], v, w);
    }
  }

  lemma DecodesOne(c: int, rest: seq<byte>, w: int)
    requires CodePoint(c)
    ensures Decode(Encode(c) + rest, w, 0) == [c] + Decode(rest, 0, 0)
  {
    if c <= 0x7F {
      assert (Encode(c) + rest)[1..] == rest;
      NothingPending(rest, w, 0);
    } else if c <= 0x7FF {
      TwoDecode(c, rest, w);
    } else if c <= 0xFFFF {
      ThreeDecode(c, rest, w);
    } else {
      FourDecode(c, rest, w);
    }
  }

  lemma TwoDecode(c: int, rest: seq<byte>, w: int)
    requires 0x7F < c <= 0x7FF
    ensures Decode(Encode(c) + rest, w, 0) == [c] + Decode(rest, 0, 0)
  {
    var b1, h := TwoParts(c);
    TwoBytesDecode(Encode(c), b1, h, rest, w);
  }

  lemma TwoBytesDecode(e: seq<byte>, b1: byte, h: nat, rest: seq<byte>, w: int)
    requires h < 32 && e == [0xC0 + h, b1] && IsTail(b1)
    ensures Decode(e + rest, w, 0) == [Combine(h, b1)] + Decode(rest, 0, 0)
  {
    var s := e + rest;
    assert s[0] == 0xC0 + h && s[1..] == [b1] + rest;
    DecodeBehind(s, 2, h, w);
    TailContinues(b1, 1, rest, h);
  }

  lemma TwoContinue(b1: byte, b2: byte, h: nat, rest: seq<byte>)
    requires IsTail(b1) && IsTail(b2)
    ensures Decode([b1] + ([b2] + rest), h, 2) == [Combine(Combine(h, b1), b2)] + Decode(rest, 0, 0)
  {
    TailContinues(b1, 2, [b2] + rest, h);
    TailContinues(b2, 1, rest, Combine(h, b1));
  }

  lemma ThreeContinue(b1: byte, b2: byte, b3: byte, h: nat, rest: seq<byte>)
    requires IsTail(b1) && IsTail(b2) && IsTail(b3)
    ensures Decode([b1] + ([b2] + ([b3] + rest)), h, 3)
         == [Combine(Combine(Combine(h, b1), b2), b3)] + Decode(rest, 0, 0)
  {
    TailContinues(b1, 3, [b2] + ([b3] + rest), h);
    TwoContinue(b2, b3, Combine(h, b1), rest);
  }

  lemma ThreeDecode(c: int, rest: seq<byte>, w: int)
    requires 0x7FF < c <= 0xFFFF
    ensures Decode(Encode(c) + rest, w, 0) == [c] + Decode(rest, 0, 0)
  {
    var b1, b2, h := ThreeParts(c);
    ThreeBytesDecode(Encode(c), b1, b2, h, rest, w);
  }

  lemma ThreeBytesDecode(e: seq<byte>, b1: byte, b2: byte, h: nat, rest: seq<byte>, w: int)
    requires h < 16 && e == [0xE0 + h, b1, b2] && IsTail(b1) && IsTail(b2)
    ensures Decode(e + rest, w, 0) == [Combine(Combine(h, b1), b2)] + Decode(rest, 0, 0)
  {
    var s := e + rest;
    assert s[0] == 0xE0 + h && s[1..] == [b1] + ([b2] + rest);
    DecodeBehind(s, 3, h, w);
    TwoContinue(b1, b2, h, rest);
  }

  lemma FourDecode(c: int, rest: seq<byte>, w: int)
    requires 0xFFFF < c <= 0x10FFFF
    ensures Decode(Encode(c) + rest, w, 0) == [c] + Decode(rest, 0, 0)
  {
    var b1, b2, b3, h := FourParts(c);
    FourBytesDecode(Encode(c), b1, b2, b3, h, rest, w);
  }

  lemma FourBytesDecode(e: seq<byte>, b1: byte, b2: byte, b3: byte, h: nat, rest: seq<byte>, w: int)
    requires h < 8 && e == [0xF0 + h, b1, b2, b3] && IsTail(b1) && IsTail(b2) && IsTail(b3)
    ensures Decode(e + rest, w, 0) == [Combine(Combine(Combine(h, b1), b2), b3)] + Decode(rest, 0, 0)
  {
    var s := e + rest;
    assert s[0] == 0xF0 + h && s[1..] == [b1] + ([b2] + ([b3] + rest));
    DecodeBehind(s, 4, h, w);
    ThreeContinue(b1, b2, b3, h, rest);
  }

  /** The bytes of a character of two bytes, and what they are put together to. */
  lemma TwoParts(c: int) returns (b1: byte, h: nat)
    requires 0x7F < c <= 0x7FF
    ensures h < 32 && IsTail(b1) && Combine(h, b1) == c && Encode(c) == [0xC0 + h, b1]
  {
    CombineTail(c);
    b1, h := Tail(c), c / 64;
  }

  /** The bytes of a character of three bytes, and what they are put together to. */
  lemma ThreeParts(c: int) returns (b1: byte, b2: byte, h: nat)
    requires 0x7FF < c <= 0xFFFF
    ensures h < 16 && IsTail(b1) && IsTail(b2) && Combine(Combine(h, b1), b2) == c
    ensures Encode(c) == [0xE0 + h, b1, b2]
  {
    EncodeThree(c, c / 64, c / 64 / 64);
    CombineTail(c);
    CombineTail(c / 64);
    b1, b2, h := Tail(c / 64), Tail(c), c / 64 / 64;
  }

  lemma FourParts(c: int) returns (b1: byte, b2: byte, b3: byte, h: nat)
    requires 0xFFFF < c <= 0x10FFFF
    ensures h <= 4 && IsTail(b1) && IsTail(b2) && IsTail(b3) && Combine(Combine(Combine(h, b1), b2), b3) == c
    ensures Encode(c) == [0xF0 + h, b1, b2, b3]
  {
    EncodeFour(c, c / 64, c / 64 / 64, c / 64 / 64 / 64);
    CombineTail(c);
    CombineTail(c / 64);
    CombineTail(c / 64 / 64);
    b1, b2, b3, h := Tail(c / 64 / 64), Tail(c / 64), Tail(c), c / 64 / 64 / 64;
  }

  lemma DecodeBehind(s: seq<byte>, n: nat, h: nat, w: int)
    requires s != []
    requires Leads(s[0], n, h)
    ensures Decode(s, w, 0) == Decode(s[1..], h, n - 1)
  {
    FirstByte(s[0], n, h);
  }

  /** A first byte that announces `n` bytes and holds the bits `h`. */
  predicate Leads(b: byte, n: nat, h: nat) {
    || (n == 2 && b == 0xC0 + h && h < 32)
    || (n == 3 && b == 0xE0 + h && h < 16)
    || (n == 4 && b == 0xF0 + h && h < 8)
  }

  lemma FirstByte(b: byte, n: nat, h: nat)
    requires Leads(b, n, h)
    ensures b as int % (if n == 2 then 32 else if n == 3 then 16 else 8) == h
    ensures Wanted(b) == n - 1 && FirstBits(b) == h
  {
  }

  lemma TailContinues(b: byte, more: nat, rest: seq<byte>, w: int)
    requires more >= 1 && IsTail(b)
    ensures Decode([b] + rest, w, more)
         == if more == 1 then [Combine(w, b)] + Decode(rest, 0, 0) else Decode(rest, Combine(w, b), more - 1)
  {
    assert ([b] + rest)[1..] == rest;
    NothingPending(rest, Combine(w, b), 0);
  }

  /** The decoder inverts the encoder on all code points, surrogates included. */
  lemma {:induction false} DecodeInvertsEncode(w: seq<int>)
    requires All(w, CodePoint)
    ensures Decode(EncodeAll(w), 0, 0) == w
  {
    if w != [] {
      DecodesOne(w[0], EncodeAll(w[1..]), 0);
      DecodeInvertsEncode(w[1..]);
    }
  }

  /** Whatever is missing when a character of several bytes starts is forgotten. */
  lemma StartForgets(c: int, rest: seq<byte>, w: int, more: nat)
    requires CodePoint(c) && c > 0x7F
    ensures Decode(Encode(c) + rest, w, more) == Decode(Encode(c) + rest, w, 0)
  {
    if c > 0xFFFF {
      var b1, b2, b3, h := FourParts(c);
    } else if c > 0x7FF {
      var b1, b2, h := ThreeParts(c);
    }
  }

  /** The mark for a character that breaks off, where one is made. */
  function Mark(broken: bool): seq<int> {
    if broken then [Error] else []
  }

  lemma DecodesNext(c: int, rest: seq<byte>, w: int, more: nat)
    requires CodePoint(c)
    ensures Decode(Encode(c) + rest, w, more) == Mark(more > 0 && c <= 0x7F) + [c] + Decode(rest, 0, 0)
  {
    if c > 0x7F {
      StartForgets(c, rest, w, more);
      DecodesOne(c, rest, w);
    } else {
      assert (Encode(c) + rest)[1..] == rest;
      NothingPending(rest, w, 0);
    }
  }

  lemma DecodesText(v: seq<int>, w: int, more: nat)
    requires All(v, CodePoint)
    ensures Decode(EncodeAll(v), w, more) == Mark(more > 0 && (v == [] || v[0] <= 0x7F)) + v
  {
    if v != [] {
      var rest := EncodeAll(v[1..]);
      AllOfRest(v, CodePoint);
      DecodeInvertsEncode(v[1..]);
      DecodesNext(v[0], rest, w, more);
      FirstAndRest(Mark(more > 0 && v[0] <= 0x7F), v);
    }
  }

  lemma FirstAndRest(mark: seq<int>, v: seq<int>)
    requires v != []
    ensures mark + [v[0]] + v[1..] == mark + v
  {
  }

  /** Two different texts of code points have different bytes. */
  lemma EncodeIsInjective(v: seq<int>, w: seq<int>)
    requires All(v, CodePoint) && All(w, CodePoint) && EncodeAll(v) == EncodeAll(w)
    ensures v == w
  {
    DecodeInvertsEncode(v);
    DecodeInvertsEncode(w);
  }

  // ---------------------------------------------------------------- ISO-8859-1

  /** The bytes before the first zero, which is where a C string ends. */
  function CString(s: seq<byte>): seq<byte> {
    if s == [] || s[0] == 0 then [] else [s[0]] + CString(s[1..])
  }

  function AsText(s: seq<byte>): (w: seq<int>)
    ensures |w| == |s| && forall k :: 0 <= k < |s| ==> w[k] == s[k]
  {
    seq(|s|, k requires 0 <= k < |s| => s[k] as int)
  }

  /** The number of bytes that a first byte announces. */
  function Announced(b: byte): nat {
    if b < 0x80 then 1 else if b < 0xC0 then 0 else if b < 0xE0 then 2 else if b < 0xF0 then 3
    else if b < 0xF8 then 4 else if b < 0xFC then 5 else 6
  }

  /** What a first byte holds behind the bits that tell the length. */
  function FirstBits(b: byte): nat {
    match Announced(b)
    case 0 => b - 0x80
    case 1 => b
    case 2 => b - 0xC0
    case 3 => b - 0xE0
    case 4 => b - 0xF0
    case 5 => b - 0xF8
    case _ => b % 2
  }

  /** Continuation bytes, up to `more` of them, are added to the bits; the rest is left. */
  function Gather(s: seq<byte>, more: nat, u: nat): (r: (nat, seq<byte>))
    ensures |r.1| <= |s| && s[|s| - |r.1|..] == r.1
    decreases more
  {
    if more == 0 || s == [] || !IsTail(s[0]) then (u, s) else Gather(s[1..], more - 1, Combine(u, s[0]))
  }

  /** How many continuation bytes the reader looks for: four after a byte that cannot start a character. */
  function Wanted(b: byte): nat {
    if Announced(b) == 0 then 4 else Announced(b) - 1
  }

  /** The first character, and what is left behind it. */
  function Gathered(s: seq<byte>): (r: (nat, seq<byte>))
    requires s != []
    ensures |r.1| < |s|
  {
    Gather(s[1..], Wanted(s[0]), FirstBits(s[0]))
  }

  /** Every character in the printable range of ISO-8859-1, or nothing. */
  function ToLatin1(s: seq<byte>): Option<seq<int>>
    decreases |s|
  {
    if s == [] || s[0] == 0 then Some([])
    else
      var (u, rest) := Gathered(s);
      if Printable(u) then Before(u, ToLatin1(rest)) else None
  }

  function Before(c: int, w: Option<seq<int>>): Option<seq<int>> {
    if w.Some? then Some([c] + w.value) else None
  }

  function Latin1Result(s: seq<byte>): seq<int> {
    match ToLatin1(s)
    case None => []
    case Some(w) => w
  }

  predicate Printable(c: int) {
    0x20 <= c <= 0xFF
  }

  predicate StartsNoTail(s: seq<byte>) {
    s == [] || !IsTail(s[0])
  }

  lemma GatherTail(b: byte, more: nat, rest: seq<byte>, u: nat)
    requires more >= 1 && IsTail(b)
    ensures Gather([b] + rest, more, u) == Gather(rest, more - 1, Combine(u, b))
  {
    assert ([b] + rest)[1..] == rest;
  }

  lemma GathersOne(c: int, rest: seq<byte>)
    requires CodePoint(c) && StartsNoTail(rest)
    ensures Gathered(Encode(c) + rest) == (c, rest)
  {
    if c <= 0x7F {
      assert (Encode(c) + rest)[1..] == rest;
    } else if c <= 0x7FF {
      GathersTwo(c, rest);
    } else if c <= 0xFFFF {
      GathersThree(c, rest);
    } else {
      GathersFour(c, rest);
    }
  }

  /** The first byte tells how many continuation bytes to gather, and which bits come before theirs. */
  lemma GathersBehind(s: seq<byte>, n: nat, h: nat, tails: seq<byte>)
    requires s != [] && s[1..] == tails
    requires Leads(s[0], n, h)
    ensures Gathered(s) == Gather(tails, n - 1, h)
  {
    FirstByte(s[0], n, h);
  }

  lemma GathersTwo(c: int, rest: seq<byte>)
    requires 0x7F < c <= 0x7FF
    ensures Gathered(Encode(c) + rest) == (c, rest)
  {
    var b1, h := TwoParts(c);
    TwoBytesGather(Encode(c), b1, h, rest);
  }

  lemma TwoBytesGather(e: seq<byte>, b1: byte, h: nat, rest: seq<byte>)
    requires h < 32 && e == [0xC0 + h, b1] && IsTail(b1)
    ensures Gathered(e + rest) == (Combine(h, b1), rest)
  {
    var s := e + rest;
    assert s[0] == 0xC0 + h && s[1..] == [b1] + rest;
    GathersBehind(s, 2, h, [b1] + rest);
    GatherTail(b1, 1, rest, h);
  }

  lemma TwoTails(b1: byte, b2: byte, h: nat, rest: seq<byte>)
    requires IsTail(b1) && IsTail(b2)
    ensures Gather([b1] + ([b2] + rest), 2, h) == (Combine(Combine(h, b1), b2), rest)
  {
    GatherTail(b1, 2, [b2] + rest, h);
    GatherTail(b2, 1, rest, Combine(h, b1));
  }

  lemma GathersThree(c: int, rest: seq<byte>)
    requires 0x7FF < c <= 0xFFFF
    ensures Gathered(Encode(c) + rest) == (c, rest)
  {
    var b1, b2, h := ThreeParts(c);
    ThreeBytesGather(Encode(c), b1, b2, h, rest);
  }

  lemma ThreeBytesGather(e: seq<byte>, b1: byte, b2: byte, h: nat, rest: seq<byte>)
    requires h < 16 && e == [0xE0 + h, b1, b2] && IsTail(b1) && IsTail(b2)
    ensures Gathered(e + rest) == (Combine(Combine(h, b1), b2), rest)
  {
    var s, tails := e + rest, [b1] + ([b2] + rest);
    assert s[0] == 0xE0 + h && s[1..] == tails;
    GathersBehind(s, 3, h, tails);
    TwoTails(b1, b2, h, rest);
  }

  lemma ThreeTails(b1: byte, b2: byte, b3: byte, h: nat, rest: seq<byte>)
    requires IsTail(b1) && IsTail(b2) && IsTail(b3)
    ensures Gather([b1] + ([b2] + ([b3] + rest)), 3, h) == (Combine(Combine(Combine(h, b1), b2), b3), rest)
  {
    GatherTail(b1, 3, [b2] + ([b3] + rest), h);
    GatherTail(b2, 2, [b3] + rest, Combine(h, b1));
    GatherTail(b3, 1, rest, Combine(Combine(h, b1), b2));
  }

  lemma GathersFour(c: int, rest: seq<byte>)
    requires 0xFFFF < c <= 0x10FFFF
    ensures Gathered(Encode(c) + rest) == (c, rest)
  {
    var b1, b2, b3, h := FourParts(c);
    FourBytesGather(Encode(c), b1, b2, b3, h, rest);
  }

  lemma FourBytesGather(e: seq<byte>, b1: byte, b2: byte, b3: byte, h: nat, rest: seq<byte>)
    requires h < 8 && e == [0xF0 + h, b1, b2, b3] && IsTail(b1) && IsTail(b2) && IsTail(b3)
    ensures Gathered(e + rest) == (Combine(Combine(Combine(h, b1), b2), b3), rest)
  {
    var s, tails := e + rest, [b1] + ([b2] + ([b3] + rest));
    assert s[0] == 0xF0 + h && s[1..] == tails;
    GathersBehind(s, 4, h, tails);
    ThreeTails(b1, b2, b3, h, rest);
  }

  lemma EncodedStartsNoTail(w: seq<int>)
    requires All(w, CodePoint)
    ensures StartsNoTail(EncodeAll(w))
  {
  }

  predicate NotZero(c: int) {
    c != 0
  }

  lemma AllOfRest(w: seq<int>, p: int -> bool)
    requires w != []
    ensures All(w, p) <==> p(w[0]) && All(w[1..], p)
  {
    assert forall k :: 0 < k < |w| ==> w[k] == w[1..][k - 1];
    assert forall k :: 0 <= k < |w| - 1 ==> w[1..][k] == w[k + 1];
  }

  lemma ToLatin1OfOne(c: int, rest: seq<byte>)
    requires CodePoint(c) && c != 0 && StartsNoTail(rest)
    ensures ToLatin1(Encode(c) + rest)
         == if Printable(c) then Before(c, ToLatin1(rest)) else None
  {
    GathersOne(c, rest);
    EncodeStart(c);
  }

  lemma EncodeStart(c: int)
    requires CodePoint(c) && c != 0
    ensures |Encode(c)| >= 1 && Encode(c)[0] != 0
  {
  }

  lemma PrintableInFront(w: seq<int>, rest: Option<seq<int>>)
    requires w != [] && rest == if All(w[1..], Printable) then Some(w[1..]) else None
    ensures (if Printable(w[0]) then Before(w[0], rest) else None) == if All(w, Printable) then Some(w) else None
  {
    AllOfRest(w, Printable);
    assert w == [w[0]] + w[1..];
  }

  /** From well-formed text comes all of it if every character is printable, and nothing otherwise. */
  lemma {:induction false} Latin1OfText(w: seq<int>)
    requires All(w, CodePoint) && All(w, NotZero)
    ensures ToLatin1(EncodeAll(w)) == if All(w, Printable) then Some(w) else None
  {
    if w != [] {
      AllOfRest(w, CodePoint);
      AllOfRest(w, NotZero);
      EncodedStartsNoTail(w[1..]);
      Latin1OfText(w[1..]);
      ToLatin1OfOne(w[0], EncodeAll(w[1..]));
      PrintableInFront(w, ToLatin1(EncodeAll(w[1..])));
    }
  }

  lemma {:induction false} CStringIs(s: seq<byte>)
    ensures All(AsText(CString(s)), CodePoint) && All(AsText(CString(s)), NotZero)
    ensures CString(s) == s <==> All(AsText(s), NotZero)
    ensures |CString(s)| <= |s| && CString(s) == s[..|CString(s)|]
  {
    if s != [] && s[0] != 0 {
      CStringIs(s[1..]);
      var t := CString(s[1..]);
      assert CString(s) == [s[0]] + t;
      assert forall k :: 0 < k <= |t| ==> CString(s)[k] == t[k - 1];
      assert forall k :: 0 < k < |s| ==> s[k] == s[1..][k - 1];
      assert s == [s[0]] + s[1..];
    }
  }

  /** Text goes to UTF-8 and back unchanged exactly when all its bytes are printable. */
  lemma Latin1RoundTripIff(s: seq<byte>)
    ensures Latin1Result(EncodeAll(AsText(CString(s)))) == AsText(s) <==> All(AsText(s), Printable)
  {
    CStringIs(s);
    if CString(s) == s {
      ReadBack(AsText(s));
    } else {
      ReadBack(AsText(CString(s)));
      ZeroIsNotPrintable(AsText(s));
      assert |AsText(CString(s))| < |AsText(s)|;
    }
  }

  lemma ReadBack(w: seq<int>)
    requires All(w, CodePoint) && All(w, NotZero)
    ensures |Latin1Result(EncodeAll(w))| <= |w|
    ensures Latin1Result(EncodeAll(w)) == w <==> All(w, Printable)
  {
    Latin1OfText(w);
    if !All(w, Printable) {
      assert w != [];
    }
  }

  lemma ZeroIsNotPrintable(w: seq<int>)
    requires !All(w, NotZero)
    ensures !All(w, Printable)
  {
    var k :| 0 <= k < |w| && !NotZero(w[k]);
    assert !Printable(w[k]);
  }
}
