/**
 The character set converters, over bytes. Masks and shifts are remainders and quotients by powers
 of two; a wide character is a signed 32-bit value.
 */
module CharsetTools {
  import opened Utf8Spec
  import opened Wrappers

  method Utf16ToUtf8(str: seq<int>) returns (out: seq<byte>)
    ensures out == EncodeAll(str)
  {
    out := [];
    for i := 0 to |str|
      invariant out == EncodeAll(str[..i])
    {
      EncodeOneMore(str, i);
      var bytes := Bytes(str[i]);
      out := out + bytes;
    }
    assert str[..|str|] == str;
  }

  /** The bytes to be appended for one wide character. */
  method Bytes(w: int) returns (out: seq<byte>)
    ensures out == Encode(w)
  {
    if w <= 0x7F {
      out := [w % 256];
    } else if w <= 0x7FF {
      out := [0xC0 + w / 64 % 32, 0x80 + w % 64];
    } else if w <= 0xFFFF {
      out := [0xE0 + w / 4096 % 16, 0x80 + w / 64 % 64, 0x80 + w % 64];
    } else if w <= 0x10FFFF {
      out := [0xF0 + w / 262144 % 8, 0x80 + w / 4096 % 64, 0x80 + w / 64 % 64, 0x80 + w % 64];
    } else {
      out := ['?' as int];
    }
  }

  lemma EncodeOneMore(w: seq<int>, i: nat)
    requires i < |w|
    ensures EncodeAll(w[..i + 1]) == EncodeAll(w[..i]) + Encode(w[i])
  {
    assert w[..i + 1] == w[..i] + [w[i]];
    assert EncodeAll([w[i]][1..]) == [];
    EncodeAllConcat(w[..i], [w[i]]);
  }

  /** One byte of input: what comes out, and the state afterwards. */
  function Step(c: byte, w: int, more: nat): (seq<int>, int, nat) {
    var b: int := c;
    if b <= 0x7F then (if more > 0 then [Error, b] else [b], w, 0)
    else if b <= 0xBF then
      if more == 0 then ([Error], w, 0)
      else if more == 1 then ([Combine(w, c)], Combine(w, c), 0)
      else ([], Combine(w, c), more - 1)
    else if b <= 0xDF then ([], b % 32, 1)
    else if b <= 0xEF then ([], b % 16, 2)
    else if b <= 0xF7 then ([], b % 8, 3)
    else ([Error], w, 0)
  }

  /** The output and the state after all the bytes of `s`. */
  function Run(s: seq<byte>): (seq<int>, int, nat) {
    if s == [] then ([], 0, 0)
    else
      var (out, w, more) := Run(s[..|s| - 1]);
      var (o, v, n) := Step(s[|s| - 1], w, more);
      (out + o, v, n)
  }

  lemma DecodeStep(s: seq<byte>, w: int, more: nat)
    requires s != []
    ensures var (o, v, n) := Step(s[0], w, more); Decode(s, w, more) == o + Decode(s[1..], v, n)
  {
    var rest := Decode(s[1..], w, 0);
    assert [Error] + [s[0] as int] + rest == [Error, s[0] as int] + rest;
  }

  lemma Regrouped<T>(a: seq<T>, b: seq<T>, c: seq<T>)
    ensures a + (b + c) == a + b + c
  {
  }

  lemma {:induction false} RunThenDecode(s: seq<byte>, t: seq<byte>)
    ensures var (out, w, more) := Run(s); out + Decode(t, w, more) == Decode(s + t, 0, 0)
    decreases |s|
  {
    if s == [] {
      assert s + t == t;
    } else {
      var before, last := s[..|s| - 1], [s[|s| - 1]];
      var (out, w, more) := Run(before);
      RunThenDecode(before, last + t);
      DecodeStep(last + t, w, more);
      assert (last + t)[1..] == t;
      assert s == before + last;
      Regrouped(before, last, t);
      var (o, v, n) := Step(s[|s| - 1], w, more);
      Regrouped(out, o, Decode(t, v, n));
    }
  }

  /** How many continuation bytes are missing at the end of the bytes. */
  function Missing(s: seq<byte>): nat {
    if s == [] then 0
    else
      var b, before := s[|s| - 1], s[..|s| - 1];
      if b <= 0x7F || b > 0xF7 then 0
      else if b <= 0xBF then (if Missing(before) == 0 then 0 else Missing(before) - 1)
      else if b <= 0xDF then 1
      else if b <= 0xEF then 2
      else 3
  }

  lemma {:induction false} MissingIs(s: seq<byte>)
    ensures Run(s).2 == Missing(s)
  {
    if s != [] {
      MissingIs(s[..|s| - 1]);
    }
  }

  /** Text behind any bytes whatever is decoded in full. A character that breaks off in front of it shows
      as a question mark if an ASCII character or nothing follows, and vanishes otherwise. */
  lemma DecodeResumes(s: seq<byte>, v: seq<int>) returns (out: seq<int>)
    requires All(v, CodePoint)
    ensures Decode(s, 0, 0) == out + Mark(Missing(s) > 0)
    ensures Decode(s + EncodeAll(v), 0, 0) == out + Mark(Missing(s) > 0 && (v == [] || v[0] <= 0x7F)) + v
  {
    var (o, w, more) := Run(s);
    out := o;
    MissingIs(s);
    RunThenDecode(s, []);
    assert s + [] == s;
    RunThenDecode(s, EncodeAll(v));
    DecodesText(v, w, more);
    Regrouped(out, Mark(more > 0 && (v == [] || v[0] <= 0x7F)), v);
  }

  method Utf8ToUtf16(str: seq<byte>) returns (out: seq<int>)
    ensures out == Decode(str, 0, 0)
  {
    out := [];
    var w, bytes := 0, 0;
    for i := 0 to |str|
      invariant 0 <= bytes && (out, w, bytes) == Run(str[..i])
    {
      assert str[..i + 1][..i] == str[..i];
      var o;
      o, w, bytes := Take(str[i], w, bytes);
      out := out + o;
    }
    assert str[..|str|] == str;
    RunThenDecode(str, []);
    assert str + [] == str;
    if bytes != 0 {
      out := out + ['?' as int];
    }
  }

  /** What one byte adds to the output, and the bits and the number of bytes awaited after it. */
  method Take(c: byte, bits: int, awaited: nat) returns (out: seq<int>, w: int, bytes: nat)
    ensures (out, w, bytes) == Step(c, bits, awaited)
  {
    out, w, bytes := [], bits, awaited;
    var err := '?' as int;
    var b: int := c;
    if b <= 0x7F {
      if bytes != 0 {
        out := [err, b];
        bytes := 0;
      } else {
        out := [b];
      }
    } else if b <= 0xBF {
      if bytes != 0 {
        w := w * 64 + b % 64;
        bytes := bytes - 1;
        if bytes == 0 {
          out := [w];
        }
      } else {
        out := [err];
      }
    } else if b <= 0xDF {
      bytes := 1;
      w := b % 32;
    } else if b <= 0xEF {
      bytes := 2;
      w := b % 16;
    } else if b <= 0xF7 {
      bytes := 3;
      w := b % 8;
    } else {
      out := [err];
      bytes := 0;
    }
  }

  /** Accepts exactly the encodings of texts of scalar values. */
  method IsUtf8(src: seq<byte>) returns (ok: bool)
    ensures ok <==> WellFormed(src)
  {
    var i := 0;
    while i != |src|
      invariant i <= |src|
      invariant WellFormed(src) <==> WellFormed(src[i..])
      decreases |src| - i
    {
      WellFormedStep(src[i..]);
      var n := CharacterLength(src, i);
      if n == 0 {
        return false;
      }
      assert src[i..][n..] == src[i + n..];
      i := i + n;
    }
    assert src[i..] == EncodeAll([]) && All([], Scalar);
    ok := true;
  }

  /** The length of the character at an index, or 0 if there is no valid one. */
  method CharacterLength(src: seq<byte>, i: nat) returns (n: nat)
    requires i < |src|
    ensures n == StrictLength(src[i..]) && n <= |src| - i
  {
    ghost var s := src[i..];
    assert forall k :: 0 <= k < |s| ==> s[k] == src[i + k];
    var b: int := src[i];
    if b <= 0x7F {
      return 1;
    }
    var length;
    if 0xC2 <= b <= 0xDF {
      length := 2;
    } else if 0xE0 <= b <= 0xEF {
      length := 3;
    } else if 0xF0 <= b <= 0xF4 {
      length := 4;
    } else {
      return 0;
    }
    if i + (length - 1) >= |src| {
      return 0;
    }
    for k := 1 to length
      invariant forall j :: 1 <= j < k ==> IsTail(s[j])
    {
      assert s[k] == src[i + k];
      if src[i + k] / 64 != 2 {
        return 0;
      }
    }
    assert Tails(s, length);
    if length == 3 {
      var c := b % 16 * 4096 + Low6(src[i + 1]) * 64 + Low6(src[i + 2]);
      if c < 0x800 || c / 2048 == 0x1B {
        return 0;
      }
    } else if length == 4 {
      var c := b % 8 * 262144 + Low6(src[i + 1]) * 4096 + Low6(src[i + 2]) * 64 + Low6(src[i + 3]);
      if c < 0x10000 || 0x10FFFF < c {
        return 0;
      }
    }
    n := length;
  }

  lemma CStringUpTo(s: seq<byte>, i: nat)
    requires i <= |s| && (i < |s| ==> s[i] == 0) && forall k :: 0 <= k < i ==> s[k] != 0
    ensures CString(s) == s[..i]
    decreases i
  {
    if i > 0 {
      CStringUpTo(s[1..], i - 1);
      assert s[..i] == [s[0]] + s[1..][..i - 1];
    }
  }

  method OneOrTwo(c: byte) returns (out: seq<byte>)
    ensures out == Encode(c)
  {
    if c < 0x80 {
      out := [c];
    } else {
      out := [0xC0 + c / 64, 0x80 + c % 64];
    }
  }

  /** Up to the first zero byte. */
  method Latin1ToUtf8(in_: seq<byte>) returns (out: seq<byte>)
    ensures out == EncodeAll(AsText(CString(in_)))
  {
    out := [];
    var i := 0;
    while i < |in_| && in_[i] != 0
      invariant i <= |in_| && forall k :: 0 <= k < i ==> in_[k] != 0
      invariant out == EncodeAll(AsText(in_)[..i])
    {
      EncodeOneMore(AsText(in_), i);
      var bytes := OneOrTwo(in_[i]);
      out := out + bytes;
      i := i + 1;
    }
    CStringUpTo(in_, i);
    assert AsText(in_[..i]) == AsText(in_)[..i];
  }

  /** Up to the first zero byte; nothing if a character lies outside the printable range. */
  method Utf8ToLatin1(in_: seq<byte>) returns (out: seq<int>)
    ensures out == Latin1Result(in_)
  {
    out := [];
    var i := 0;
    PrefixedByNothing(ToLatin1(in_));
    assert in_[0..] == in_;
    while i < |in_| && in_[i] != 0
      invariant i <= |in_|
      invariant ToLatin1(in_) == Prefixed(out, ToLatin1(in_[i..]))
      decreases |in_| - i
    {
      assert in_[i..][1..] == in_[i + 1..];
      var bits := Masked(in_[i]);
      var u, next := Collect(in_, i + 1, Wanted(in_[i]), bits);
      if u > 0xFF || u < 0x20 {
        return [];
      }
      PrefixedByOne(out, u, ToLatin1(in_[next..]));
      out := out + [u];
      i := next;
    }
    assert ToLatin1(in_[i..]) == Some([]);
  }

  /** A first byte under the mask for its length. */
  method Masked(b: byte) returns (bits: nat)
    ensures bits == FirstBits(b)
  {
    match Announced(b) {
      case 0 => bits := b % 0x40;
      case 1 => bits := b % 0x80;
      case 2 => bits := b % 0x20;
      case 3 => bits := b % 0x10;
      case 4 => bits := b % 0x08;
      case 5 => bits := b % 0x04;
      case _ => bits := b % 0x02;
    }
  }

  /** Adds the continuation bytes from an index on, up to the number wanted. */
  method Collect(in_: seq<byte>, start: nat, wanted: nat, bits: nat) returns (u: nat, i: nat)
    requires start <= |in_|
    ensures start <= i <= |in_| && Gather(in_[start..], wanted, bits) == (u, in_[i..])
  {
    var more := wanted;
    u, i := bits, start;
    ghost var result := Gather(in_[start..], wanted, bits);
    while more > 0 && i < |in_| && IsTail(in_[i])
      invariant start <= i <= |in_|
      invariant Gather(in_[i..], more, u) == result
      decreases more
    {
      GatherOneMore(in_, i, more, u);
      u := Combine(u, in_[i]);
      i := i + 1;
      more := more - 1;
    }
    assert i < |in_| ==> in_[i..][0] == in_[i];
  }

  lemma GatherOneMore(s: seq<byte>, i: nat, more: nat, u: nat)
    requires i < |s| && more > 0 && IsTail(s[i])
    ensures Gather(s[i..], more, u) == Gather(s[i + 1..], more - 1, Combine(u, s[i]))
  {
    var t := s[i..];
    assert t[0] == s[i] && t[1..] == s[i + 1..];
  }

  function Prefixed(v: seq<int>, w: Option<seq<int>>): Option<seq<int>> {
    if w.Some? then Some(v + w.value) else None
  }

  lemma PrefixedByNothing(w: Option<seq<int>>)
    ensures Prefixed([], w) == w
  {
    if w.Some? {
      assert [] + w.value == w.value;
    }
  }

  lemma PrefixedByOne(v: seq<int>, c: int, w: Option<seq<int>>)
    ensures Prefixed(v, Before(c, w)) == Prefixed(v + [c], w)
  {
    if w.Some? {
      assert v + ([c] + w.value) == v + [c] + w.value;
    }
  }
}
