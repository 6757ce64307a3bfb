/** Texts, the places where they stand in a string, and the numbers that digits make. */
module Text {
  import opened Wrappers

  predicate IsDigit(c: char) {
    '0' <= c <= '9'
  }

  function Digit(c: char): int {
    c as int - '0' as int
  }

  predicate Next(s: string, i: nat, c: char) {
    i < |s| && s[i] == c
  }

  /** No character of the kind stands at the index. */
  predicate Stops(s: string, i: nat, kind: char -> bool) {
    i < |s| ==> !kind(s[i])
  }

  /** The number that the digits from `i` to `j` make. */
  function ValueOf(s: string, i: nat, j: nat): int
    requires j <= |s|
  {
    if j <= i then 0 else ValueOf(s, i, j - 1) * 10 + Digit(s[j - 1])
  }

  predicate DigitsFrom(s: string, i: nat, j: nat)
    requires j <= |s|
  {
    forall k :: i <= k < j ==> IsDigit(s[k])
  }

  function Slice(s: string, i: nat, j: nat): Option<string> {
    if i <= j <= |s| then Some(s[i..j]) else None
  }

  /** The text `p` stands in `s` from `i` to `j`. */
  predicate At(s: string, i: nat, j: nat, p: string) {
    Slice(s, i, j) == Some(p)
  }

  lemma Split(s: string, i: nat, j: nat, p: string, q: string)
    requires At(s, i, j, p + q)
    ensures At(s, i, i + |p|, p) && At(s, i + |p|, j, q)
  {
    assert s[i..i + |p|] == s[i..j][..|p|];
    assert s[i + |p|..j] == s[i..j][|p|..];
  }

  lemma SplitChar(s: string, i: nat, j: nat, c: char, q: string)
    requires At(s, i, j, [c] + q)
    ensures Next(s, i, c) && At(s, i + 1, j, q)
  {
    Split(s, i, j, [c], q);
    FirstChar(s, i, i + 1, [c]);
  }

  lemma FirstChar(s: string, i: nat, j: nat, p: string)
    requires At(s, i, j, p) && p != ""
    ensures i < |s| && s[i] == p[0]
  {
    assert s[i] == s[i..j][0];
  }

  lemma AtIsSlice(s: string, i: nat, j: nat, p: string)
    requires At(s, i, j, p)
    ensures s[i..j] == p
    ensures forall k :: i <= k < j ==> s[k] == p[k - i]
  {
    forall k | i <= k < j ensures s[k] == p[k - i] {
      assert s[k] == s[i..j][k - i];
    }
  }

  /** Text whose digits make the number `n`. */
  predicate Decimal(p: string, n: int) {
    DigitsFrom(p, 0, |p|) && ValueOf(p, 0, |p|) == n
  }

  lemma {:induction false} ValueInside(s: string, i: nat, p: string, l: nat)
    requires At(s, i, i + |p|, p) && l <= |p|
    ensures ValueOf(s, i, i + l) == ValueOf(p, 0, l)
  {
    if l > 0 {
      ValueInside(s, i, p, l - 1);
      AtIsSlice(s, i, i + |p|, p);
      assert s[i + l - 1] == p[l - 1];
    }
  }

  /** A separator, an item, and what follows it. */
  lemma SplitItem(s: string, i: nat, j: nat, c: char, p: string, q: string)
    requires At(s, i, j, [c] + (p + q))
    ensures Next(s, i, c) && At(s, i + 1, i + 1 + |p|, p) && At(s, i + 1 + |p|, j, q)
  {
    SplitChar(s, i, j, c, p + q);
    Split(s, i + 1, j, p, q);
  }

  lemma {:induction false} ValueNotNegative(s: string, i: nat, j: nat)
    requires j <= |s| && DigitsFrom(s, i, j)
    ensures ValueOf(s, i, j) >= 0
    decreases j
  {
    if i < j {
      ValueNotNegative(s, i, j - 1);
    }
  }
}
