/**
 What the near tree's queries promise, as statements about the multiset of stored points, and a
 linear scan as the reference for what "nearest" and "farthest" mean.
 */
module NearTreeSpec {
  import opened Wrappers

  /** The distance functor, which the tree takes as a parameter. */
  datatype Space<!T> = Space(distance: (T, T) -> real)

  function Dist<T>(d: Space<T>, x: T, y: T): real {
    (d.distance)(x, y)
  }

  /** What the tree's documentation demands of the distance functor. */
  ghost predicate Metric<T(!new)>(d: Space<T>) {
    && (forall x, y :: Dist(d, x, y) >= 0.0)
    && (forall x, y :: Dist(d, x, y) == Dist(d, y, x))
    && (forall x, y, z :: Triangle(d, x, y, z))
  }

  ghost predicate Triangle<T>(d: Space<T>, x: T, y: T, z: T) {
    Dist(d, x, z) <= Dist(d, x, y) + Dist(d, y, z)
  }

  /** A point is eligible within `r`; a negative radius means no limit. */
  ghost predicate Eligible<T>(d: Space<T>, p: T, r: real, x: T) {
    r < 0.0 || Dist(d, p, x) <= r
  }

  ghost predicate IsNearest<T(!new)>(d: Space<T>, points: multiset<T>, p: T, x: T) {
    x in points && forall y :: y in points ==> Dist(d, p, x) <= Dist(d, p, y)
  }

  ghost predicate IsFarthest<T(!new)>(d: Space<T>, points: multiset<T>, p: T, x: T) {
    x in points && forall y :: y in points ==> Dist(d, p, y) <= Dist(d, p, x)
  }

  /** A search that arrives with (`c`, `r`) and leaves with (`c'`, `r'`) has taken account of
      every point of `points`. */
  ghost predicate Nearer<T(!new)>(d: Space<T>, points: multiset<T>, p: T,
                                  c: Option<T>, r: real, c': Option<T>, r': real) {
    if exists x :: x in points && Eligible(d, p, r, x) then
      c'.Some? && IsNearest(d, points, p, c'.value) && r' == Dist(d, p, c'.value) && Eligible(d, p, r, c'.value)
    else
      c' == c && r' == r
  }

  ghost predicate Farther<T(!new)>(d: Space<T>, points: multiset<T>, p: T,
                                   c: Option<T>, r: real, c': Option<T>, r': real) {
    if exists x :: x in points && Dist(d, p, x) >= r then
      c'.Some? && IsFarthest(d, points, p, c'.value) && r' == Dist(d, p, c'.value) && r' >= r
    else
      c' == c && r' == r
  }

  /** How often a radius query must report the pair `h`. */
  ghost function Expected<T>(d: Space<T>, points: multiset<T>, p: T, r: real, h: (real, T)): nat {
    if h.0 == Dist(d, p, h.1) && h.0 <= r then points[h.1] else 0
  }

  /** `hits` holds every point within `r` of `p` as often as it is stored, each with its distance,
      and nothing else. */
  ghost predicate Within<T(!new)>(d: Space<T>, points: multiset<T>, p: T, r: real,
                                  hits: multiset<(real, T)>) {
    forall h: (real, T) :: hits[h] == Expected(d, points, p, r, h)
  }

  // ---------------------------------------------------------------- searching in parts

  ghost predicate Combines<T(!new)>(a: multiset<T>, b: multiset<T>, ab: multiset<T>) {
    forall x :: x in ab <==> x in a || x in b
  }

  lemma SumCombines<T(!new)>(a: multiset<T>, b: multiset<T>)
    ensures Combines(a, b, a + b)
  {
  }

  lemma NearerInParts<T(!new)>(d: Space<T>, a: multiset<T>, b: multiset<T>, ab: multiset<T>, p: T,
                               c0: Option<T>, r0: real, c1: Option<T>, r1: real, c2: Option<T>, r2: real)
    requires forall x :: Dist(d, p, x) >= 0.0
    requires Combines(a, b, ab)
    requires Nearer(d, a, p, c0, r0, c1, r1) && Nearer(d, b, p, c1, r1, c2, r2)
    ensures Nearer(d, ab, p, c0, r0, c2, r2)
  {
    if y :| y in a && Eligible(d, p, r0, y) {
      assert r1 == Dist(d, p, c1.value) >= 0.0;
      if z :| z in b && Eligible(d, p, r1, z) {
        assert IsNearest(d, ab, p, c2.value);
      } else {
        forall y | y in ab ensures Dist(d, p, c2.value) <= Dist(d, p, y) {
          if y in b { assert !Eligible(d, p, r1, y); }
        }
      }
    } else if x :| x in b && Eligible(d, p, r0, x) {
      forall y | y in ab ensures Dist(d, p, c2.value) <= Dist(d, p, y) {
        if y in a { assert !Eligible(d, p, r0, y); }
      }
    }
  }

  lemma FartherInParts<T(!new)>(d: Space<T>, a: multiset<T>, b: multiset<T>, ab: multiset<T>, p: T,
                                c0: Option<T>, r0: real, c1: Option<T>, r1: real, c2: Option<T>, r2: real)
    requires Combines(a, b, ab)
    requires Farther(d, a, p, c0, r0, c1, r1) && Farther(d, b, p, c1, r1, c2, r2)
    ensures Farther(d, ab, p, c0, r0, c2, r2)
  {
    if y :| y in a && Dist(d, p, y) >= r0 {
      if z :| z in b && Dist(d, p, z) >= r1 {
        assert IsFarthest(d, ab, p, c2.value);
      } else {
        assert IsFarthest(d, ab, p, c1.value);
      }
    } else if x :| x in b && Dist(d, p, x) >= r0 {
      assert IsFarthest(d, ab, p, c2.value);
    }
  }

  /** A branch all of whose points are too far from a landmark cannot improve the search. */
  lemma NothingNearer<T(!new)>(d: Space<T>, points: multiset<T>, p: T, landmark: T, max: real,
                               c: Option<T>, r: real)
    requires Metric(d) && r >= 0.0
    requires forall x :: x in points ==> Dist(d, x, landmark) <= max
    requires r + max < Dist(d, p, landmark)
    ensures Nearer(d, points, p, c, r, c, r)
  {
    forall x | x in points ensures Dist(d, p, x) > r {
      assert Triangle(d, p, x, landmark);
    }
  }

  lemma NothingWithin<T(!new)>(d: Space<T>, points: multiset<T>, p: T, landmark: T, max: real, r: real, h: (real, T))
    requires Metric(d)
    requires forall x :: x in points ==> Dist(d, x, landmark) <= max
    requires r + max < Dist(d, p, landmark)
    ensures Expected(d, points, p, r, h) == 0
  {
    assert Triangle(d, p, h.1, landmark);
  }

  lemma NothingFarther<T(!new)>(d: Space<T>, points: multiset<T>, p: T, landmark: T, max: real,
                                c: Option<T>, r: real)
    requires Metric(d)
    requires forall x :: x in points ==> Dist(d, x, landmark) <= max
    requires r - max > Dist(d, p, landmark)
    ensures Farther(d, points, p, c, r, c, r)
  {
    forall x | x in points ensures Dist(d, p, x) < r {
      assert Triangle(d, p, landmark, x);
    }
  }

  /** A farthest search that starts from a negative radius only misses when nothing is stored. */
  lemma FartherFromScratch<T(!new)>(d: Space<T>, points: multiset<T>, p: T, c: Option<T>, r: real)
    requires (forall x :: Dist(d, p, x) >= 0.0) && Farther(d, points, p, None, -1.0, c, r)
    ensures c.None? <==> points == multiset{}
    ensures c.Some? ==> IsFarthest(d, points, p, c.value)
  {
    if x :| x in points {
      assert Dist(d, p, x) >= -1.0;
    }
  }

  // ---------------------------------------------------------------- the reference: a linear scan

  ghost function ScanNearest<T>(d: Space<T>, points: seq<T>, p: T, r: real): (Option<T>, real) {
    if points == [] then (None, r)
    else
      var (c, r') := ScanNearest(d, points[..|points| - 1], p, r);
      var x := points[|points| - 1];
      if r' < 0.0 || Dist(d, p, x) <= r' then (Some(x), Dist(d, p, x)) else (c, r')
  }

  lemma {:induction false} ScanIsNearer<T(!new)>(d: Space<T>, points: seq<T>, p: T, r: real)
    requires forall x :: Dist(d, p, x) >= 0.0
    ensures var (c, r') := ScanNearest(d, points, p, r);
            Nearer(d, multiset(points), p, None, r, c, r')
  {
    if points != [] {
      var rest, x := points[..|points| - 1], points[|points| - 1];
      ScanIsNearer(d, rest, p, r);
      assert points == rest + [x];
      assert Combines(multiset(rest), multiset{x}, multiset(points));
      var (c1, r1) := ScanNearest(d, rest, p, r);
      var (c2, r2) := ScanNearest(d, points, p, r);
      assert Nearer(d, multiset{x}, p, c1, r1, c2, r2);
      NearerInParts(d, multiset(rest), multiset{x}, multiset(points), p, None, r, c1, r1, c2, r2);
    }
  }

  /** Whatever order the points were stored in, a query result with this specification exists exactly
      when the scan finds one, and is exactly as near. */
  lemma AgreesWithScan<T(!new)>(d: Space<T>, points: seq<T>, p: T, r: real, c: Option<T>, r': real)
    requires Metric(d)
    requires Nearer(d, multiset(points), p, None, r, c, r')
    ensures c.Some? <==> ScanNearest(d, points, p, r).0.Some?
    ensures r' == ScanNearest(d, points, p, r).1
    ensures c.Some? ==> Dist(d, p, c.value) == Dist(d, p, ScanNearest(d, points, p, r).0.value)
  {
    ScanIsNearer(d, points, p, r);
  }

  /** The answer to a radius query is determined by the stored multiset alone. */
  lemma WithinUnique<T(!new)>(d: Space<T>, points: multiset<T>, p: T, r: real,
                              a: multiset<(real, T)>, b: multiset<(real, T)>)
    requires Within(d, points, p, r, a) && Within(d, points, p, r, b)
    ensures a == b
  {
    forall h: (real, T) ensures a[h] == b[h] {
    }
  }
}

/** The value of a near tree: what insertion builds, and the bounds the searches rely on. */
module NearTreeModel {
  import opened NearTreeSpec
  import opened Wrappers

  datatype Tree<T> =
    | Leaf
    | Node(left: Option<T>, right: Option<T>, maxLeft: real, maxRight: real, below: Tree<T>, beyond: Tree<T>)

  function Empty<T>(): Tree<T> {
    Node(None, None, -1.0, -1.0, Leaf, Leaf)
  }

  function Larger(a: real, b: real): real {
    if a < b then b else a
  }

  ghost function Inserted<T>(d: Space<T>, t: Tree<T>, x: T): Tree<T> {
    if t.Leaf? then Node(Some(x), None, -1.0, -1.0, Leaf, Leaf)
    else if t.left.None? then t.(left := Some(x))
    else if t.right.None? then t.(right := Some(x))
    else
      var dl, dr := Dist(d, x, t.left.value), Dist(d, x, t.right.value);
      if dl > dr then t.(maxRight := Larger(t.maxRight, dr), beyond := Inserted(d, t.beyond, x))
      else t.(maxLeft := Larger(t.maxLeft, dl), below := Inserted(d, t.below, x))
  }

  ghost function Single<T>(o: Option<T>): multiset<T> {
    if o.Some? then multiset{o.value} else multiset{}
  }

  ghost function Contents<T>(t: Tree<T>): multiset<T> {
    match t
    case Leaf => multiset{}
    case Node(l, r, _, _, below, beyond) => Single(l) + Single(r) + Contents(below) + Contents(beyond)
  }

  ghost function Size<T>(t: Tree<T>): nat {
    match t
    case Leaf => 0
    case Node(l, r, _, _, below, beyond) =>
      (if l.Some? then 1 else 0) + (if r.Some? then 1 else 0) + Size(below) + Size(beyond)
  }

  /** All the points lie within `max` of the landmark. */
  ghost predicate Covers<T(!new)>(d: Space<T>, landmark: T, max: real, points: multiset<T>) {
    forall x :: x in points ==> Dist(d, x, landmark) <= max
  }

  lemma CoversOneMore<T(!new)>(d: Space<T>, landmark: T, max: real, points: multiset<T>, x: T)
    requires Covers(d, landmark, max, points)
    ensures Covers(d, landmark, Larger(max, Dist(d, x, landmark)), points + multiset{x})
  {
  }

  /** A node fills its left object first and grows branches only when both are there; each bound
      covers the distance of every point in its branch from the node's object. */
  ghost predicate Bounded<T(!new)>(d: Space<T>, t: Tree<T>) {
    match t
    case Leaf => true
    case Node(l, r, maxLeft, maxRight, below, beyond) =>
      && (r.Some? ==> l.Some?)
      && (r.None? ==> below.Leaf? && beyond.Leaf?)
      && (l.Some? ==> Covers(d, l.value, maxLeft, Contents(below)))
      && (r.Some? ==> Covers(d, r.value, maxRight, Contents(beyond)))
      && Bounded(d, below)
      && Bounded(d, beyond)
  }

  lemma {:induction false} InsertedCount<T>(d: Space<T>, t: Tree<T>, x: T, y: T)
    ensures Contents(Inserted(d, t, x))[y] == Contents(t)[y] + if x == y then 1 else 0
  {
    if t.Node? && t.left.Some? && t.right.Some? {
      if Dist(d, x, t.left.value) > Dist(d, x, t.right.value) {
        InsertedCount(d, t.beyond, x, y);
      } else {
        InsertedCount(d, t.below, x, y);
      }
    }
  }

  lemma InsertedContents<T(!new)>(d: Space<T>, t: Tree<T>, x: T)
    ensures Contents(Inserted(d, t, x)) == Contents(t) + multiset{x}
  {
    forall y {
      InsertedCount(d, t, x, y);
    }
  }

  lemma {:induction false} InsertedSize<T>(d: Space<T>, t: Tree<T>, x: T)
    ensures Size(Inserted(d, t, x)) == Size(t) + 1
  {
    if t.Node? && t.left.Some? && t.right.Some? {
      if Dist(d, x, t.left.value) > Dist(d, x, t.right.value) {
        InsertedSize(d, t.beyond, x);
      } else {
        InsertedSize(d, t.below, x);
      }
    }
  }

  lemma {:induction false} InsertedBounded<T(!new)>(d: Space<T>, t: Tree<T>, x: T)
    requires Bounded(d, t)
    ensures Bounded(d, Inserted(d, t, x))
  {
    if t.Node? && t.left.Some? && t.right.Some? {
      if Dist(d, x, t.left.value) > Dist(d, x, t.right.value) {
        InsertedBounded(d, t.beyond, x);
        InsertedContents(d, t.beyond, x);
        CoversOneMore(d, t.right.value, t.maxRight, Contents(t.beyond), x);
      } else {
        InsertedBounded(d, t.below, x);
        InsertedContents(d, t.below, x);
        CoversOneMore(d, t.left.value, t.maxLeft, Contents(t.below), x);
      }
    }
  }

  lemma {:induction false} SizeCountsContents<T>(t: Tree<T>)
    ensures Size(t) == |Contents(t)|
  {
    if t.Node? {
      SizeCountsContents(t.below);
      SizeCountsContents(t.beyond);
    }
  }

  // ---------------------------------------------------------------- the pruned searches

  /** The search state after looking at one of the node's own objects. */
  ghost function LookNear<T>(d: Space<T>, o: Option<T>, p: T, s: (Option<T>, real)): (Option<T>, real) {
    if o.Some? && (s.1 < 0.0 || Dist(d, p, o.value) <= s.1) then (o, Dist(d, p, o.value)) else s
  }

  ghost function LookFar<T>(d: Space<T>, o: Option<T>, p: T, s: (Option<T>, real)): (Option<T>, real) {
    if o.Some? && Dist(d, p, o.value) >= s.1 then (o, Dist(d, p, o.value)) else s
  }

  /** The pruned nearest search: a branch is entered only if its bound allows an improvement. */
  ghost function PrunedNearest<T>(d: Space<T>, t: Tree<T>, p: T, s: (Option<T>, real)): (Option<T>, real)
    decreases t, 0
  {
    if t.Leaf? then s
    else
      var s1 := LookNear(d, t.right, p, LookNear(d, t.left, p, s));
      if s1.1 < 0.0 then s1
      else NearBranch(d, t.beyond, t.right, t.maxRight, p, NearBranch(d, t.below, t.left, t.maxLeft, p, s1))
  }

  ghost function NearBranch<T>(d: Space<T>, b: Tree<T>, o: Option<T>, max: real, p: T, s: (Option<T>, real))
    : (Option<T>, real)
    decreases b, 1
  {
    if b.Node? && o.Some? && s.1 + max >= Dist(d, p, o.value) then PrunedNearest(d, b, p, s) else s
  }

  ghost function PrunedFarthest<T>(d: Space<T>, t: Tree<T>, p: T, s: (Option<T>, real)): (Option<T>, real)
    decreases t, 0
  {
    if t.Leaf? then s
    else
      var s1 := LookFar(d, t.right, p, LookFar(d, t.left, p, s));
      FarBranch(d, t.beyond, t.right, t.maxRight, p, FarBranch(d, t.below, t.left, t.maxLeft, p, s1))
  }

  ghost function FarBranch<T>(d: Space<T>, b: Tree<T>, o: Option<T>, max: real, p: T, s: (Option<T>, real))
    : (Option<T>, real)
    decreases b, 1
  {
    if b.Node? && o.Some? && s.1 - max <= Dist(d, p, o.value) then PrunedFarthest(d, b, p, s) else s
  }

  ghost function HitCount<T>(d: Space<T>, o: Option<T>, p: T, r: real, h: (real, T)): nat {
    if o.Some? && h == (Dist(d, p, o.value), o.value) && h.0 <= r then 1 else 0
  }

  /** How often the pruned radius search reports the pair `h`. */
  ghost function PrunedCount<T>(d: Space<T>, t: Tree<T>, p: T, r: real, h: (real, T)): nat
    decreases t, 0
  {
    if t.Leaf? then 0
    else
      HitCount(d, t.left, p, r, h) + HitCount(d, t.right, p, r, h)
      + BranchCount(d, t.below, t.left, t.maxLeft, p, r, h)
      + BranchCount(d, t.beyond, t.right, t.maxRight, p, r, h)
  }

  ghost function BranchCount<T>(d: Space<T>, b: Tree<T>, o: Option<T>, max: real, p: T, r: real, h: (real, T)): nat
    decreases b, 1
  {
    if b.Node? && o.Some? && r + max >= Dist(d, p, o.value) then PrunedCount(d, b, p, r, h) else 0
  }

  lemma OwnNearest<T(!new)>(d: Space<T>, l: Option<T>, r: Option<T>, p: T, s: (Option<T>, real))
    requires forall x :: Dist(d, p, x) >= 0.0
    ensures var s1 := LookNear(d, r, p, LookNear(d, l, p, s));
            Nearer(d, Single(l) + Single(r), p, s.0, s.1, s1.0, s1.1)
  {
    var s0 := LookNear(d, l, p, s);
    var s1 := LookNear(d, r, p, s0);
    assert Nearer(d, Single(l), p, s.0, s.1, s0.0, s0.1);
    assert Nearer(d, Single(r), p, s0.0, s0.1, s1.0, s1.1);
    NearerInParts(d, Single(l), Single(r), Single(l) + Single(r), p, s.0, s.1, s0.0, s0.1, s1.0, s1.1);
  }

  lemma OwnFarthest<T(!new)>(d: Space<T>, l: Option<T>, r: Option<T>, p: T, s: (Option<T>, real))
    ensures var s1 := LookFar(d, r, p, LookFar(d, l, p, s));
            Farther(d, Single(l) + Single(r), p, s.0, s.1, s1.0, s1.1)
  {
    var s0 := LookFar(d, l, p, s);
    var s1 := LookFar(d, r, p, s0);
    assert Farther(d, Single(l), p, s.0, s.1, s0.0, s0.1);
    assert Farther(d, Single(r), p, s0.0, s0.1, s1.0, s1.1);
    FartherInParts(d, Single(l), Single(r), Single(l) + Single(r), p, s.0, s.1, s0.0, s0.1, s1.0, s1.1);
  }

  lemma NearestOfNode<T(!new)>(d: Space<T>, t: Tree<T>, p: T, s: (Option<T>, real), s1: (Option<T>, real),
                               s2: (Option<T>, real), s3: (Option<T>, real))
    requires t.Node? && forall x :: Dist(d, p, x) >= 0.0
    requires Nearer(d, Single(t.left) + Single(t.right), p, s.0, s.1, s1.0, s1.1)
    requires Nearer(d, Contents(t.below), p, s1.0, s1.1, s2.0, s2.1)
    requires Nearer(d, Contents(t.beyond), p, s2.0, s2.1, s3.0, s3.1)
    ensures Nearer(d, Contents(t), p, s.0, s.1, s3.0, s3.1)
  {
    var own, below := Single(t.left) + Single(t.right), Contents(t.below);
    SumCombines(own, below);
    SumCombines(own + below, Contents(t.beyond));
    NearerInParts(d, own, below, own + below, p, s.0, s.1, s1.0, s1.1, s2.0, s2.1);
    NearerInParts(d, own + below, Contents(t.beyond), Contents(t), p, s.0, s.1, s2.0, s2.1, s3.0, s3.1);
  }

  lemma FarthestOfNode<T(!new)>(d: Space<T>, t: Tree<T>, p: T, s: (Option<T>, real), s1: (Option<T>, real),
                                s2: (Option<T>, real), s3: (Option<T>, real))
    requires t.Node?
    requires Farther(d, Single(t.left) + Single(t.right), p, s.0, s.1, s1.0, s1.1)
    requires Farther(d, Contents(t.below), p, s1.0, s1.1, s2.0, s2.1)
    requires Farther(d, Contents(t.beyond), p, s2.0, s2.1, s3.0, s3.1)
    ensures Farther(d, Contents(t), p, s.0, s.1, s3.0, s3.1)
  {
    var own, below := Single(t.left) + Single(t.right), Contents(t.below);
    SumCombines(own, below);
    SumCombines(own + below, Contents(t.beyond));
    FartherInParts(d, own, below, own + below, p, s.0, s.1, s1.0, s1.1, s2.0, s2.1);
    FartherInParts(d, own + below, Contents(t.beyond), Contents(t), p, s.0, s.1, s2.0, s2.1, s3.0, s3.1);
  }

  /** The results that a search over these points may give when it starts from `s`. */
  ghost function NearAnswers<T(!new)>(d: Space<T>, points: multiset<T>, p: T, s: (Option<T>, real))
    : iset<(Option<T>, real)>
  {
    iset a: (Option<T>, real) | Nearer(d, points, p, s.0, s.1, a.0, a.1)
  }

  ghost function FarAnswers<T(!new)>(d: Space<T>, points: multiset<T>, p: T, s: (Option<T>, real))
    : iset<(Option<T>, real)>
  {
    iset a: (Option<T>, real) | Farther(d, points, p, s.0, s.1, a.0, a.1)
  }

  lemma NothingToFind<T(!new)>(d: Space<T>, t: Tree<T>, p: T, s: (Option<T>, real))
    requires Contents(t) == multiset{}
    ensures s in NearAnswers(d, Contents(t), p, s) && s in FarAnswers(d, Contents(t), p, s)
  {
  }

  lemma EmptyNode<T(!new)>(d: Space<T>, t: Tree<T>)
    requires Bounded(d, t) && (t.Node? ==> t.left.None?)
    ensures Contents(t) == multiset{}
  {
  }

  lemma NotNegative<T(!new)>(d: Space<T>, points: multiset<T>, p: T, s: (Option<T>, real), a: (Option<T>, real))
    requires a in NearAnswers(d, points, p, s) && s.1 >= 0.0 && forall x :: Dist(d, p, x) >= 0.0
    ensures a.1 >= 0.0
  {
  }

  lemma NearSkips<T(!new)>(d: Space<T>, points: multiset<T>, p: T, landmark: T, max: real, s: (Option<T>, real))
    requires Metric(d) && s.1 >= 0.0 && Covers(d, landmark, max, points) && s.1 + max < Dist(d, p, landmark)
    ensures s in NearAnswers(d, points, p, s)
  {
    NothingNearer(d, points, p, landmark, max, s.0, s.1);
  }

  lemma FarSkips<T(!new)>(d: Space<T>, points: multiset<T>, p: T, landmark: T, max: real, s: (Option<T>, real))
    requires Metric(d) && Covers(d, landmark, max, points) && s.1 - max > Dist(d, p, landmark)
    ensures s in FarAnswers(d, points, p, s)
  {
    NothingFarther(d, points, p, landmark, max, s.0, s.1);
  }

  lemma NearCombines<T(!new)>(d: Space<T>, t: Tree<T>, p: T, s: (Option<T>, real), s1: (Option<T>, real),
                              s2: (Option<T>, real), s3: (Option<T>, real))
    requires t.Node? && (forall x :: Dist(d, p, x) >= 0.0) && s1 == LookNear(d, t.right, p, LookNear(d, t.left, p, s))
    requires s2 in NearAnswers(d, Contents(t.below), p, s1) && s3 in NearAnswers(d, Contents(t.beyond), p, s2)
    ensures s3 in NearAnswers(d, Contents(t), p, s)
  {
    OwnNearest(d, t.left, t.right, p, s);
    NearestOfNode(d, t, p, s, s1, s2, s3);
  }

  lemma FarCombines<T(!new)>(d: Space<T>, t: Tree<T>, p: T, s: (Option<T>, real), s1: (Option<T>, real),
                             s2: (Option<T>, real), s3: (Option<T>, real))
    requires t.Node? && s1 == LookFar(d, t.right, p, LookFar(d, t.left, p, s))
    requires s2 in FarAnswers(d, Contents(t.below), p, s1) && s3 in FarAnswers(d, Contents(t.beyond), p, s2)
    ensures s3 in FarAnswers(d, Contents(t), p, s)
  {
    OwnFarthest(d, t.left, t.right, p, s);
    FarthestOfNode(d, t, p, s, s1, s2, s3);
  }

  lemma {:induction false} NearTreeSearched<T(!new)>(d: Space<T>, t: Tree<T>, p: T, s: (Option<T>, real))
    requires Metric(d) && Bounded(d, t)
    ensures PrunedNearest(d, t, p, s) in NearAnswers(d, Contents(t), p, s)
    decreases t, 0
  {
    if t.Leaf? || t.left.None? {
      EmptyNode(d, t);
      NothingToFind(d, t, p, s);
    } else {
      var s1 := LookNear(d, t.right, p, LookNear(d, t.left, p, s));
      var s2 := NearBranch(d, t.below, t.left, t.maxLeft, p, s1);
      NearBranchSearched(d, t.below, t.left, t.maxLeft, p, s1);
      NotNegative(d, Contents(t.below), p, s1, s2);
      NearBranchSearched(d, t.beyond, t.right, t.maxRight, p, s2);
      NearCombines(d, t, p, s, s1, s2, NearBranch(d, t.beyond, t.right, t.maxRight, p, s2));
    }
  }

  lemma NearBranchIs<T(!new)>(d: Space<T>, b: Tree<T>, o: Option<T>, max: real, p: T, s: (Option<T>, real),
                              a: iset<(Option<T>, real)>)
    requires b.Node? && o.Some? && s.1 + max >= Dist(d, p, o.value) ==> PrunedNearest(d, b, p, s) in a
    requires !(b.Node? && o.Some? && s.1 + max >= Dist(d, p, o.value)) ==> s in a
    ensures NearBranch(d, b, o, max, p, s) in a
  {
  }

  lemma {:induction false} NearBranchSearched<T(!new)>(d: Space<T>, b: Tree<T>, o: Option<T>, max: real, p: T,
                                                       s: (Option<T>, real))
    requires Metric(d) && Bounded(d, b) && s.1 >= 0.0
    requires (o.None? ==> b.Leaf?) && (o.Some? ==> Covers(d, o.value, max, Contents(b)))
    ensures NearBranch(d, b, o, max, p, s) in NearAnswers(d, Contents(b), p, s)
    decreases b, 1
  {
    if b.Leaf? {
      NothingToFind(d, b, p, s);
    } else if s.1 + max >= Dist(d, p, o.value) {
      NearTreeSearched(d, b, p, s);
    } else {
      NearSkips(d, Contents(b), p, o.value, max, s);
    }
    NearBranchIs(d, b, o, max, p, s, NearAnswers(d, Contents(b), p, s));
  }

  lemma {:induction false} FarTreeSearched<T(!new)>(d: Space<T>, t: Tree<T>, p: T, s: (Option<T>, real))
    requires Metric(d) && Bounded(d, t)
    ensures PrunedFarthest(d, t, p, s) in FarAnswers(d, Contents(t), p, s)
    decreases t, 0
  {
    if t.Leaf? {
      NothingToFind(d, t, p, s);
    } else {
      var s1 := LookFar(d, t.right, p, LookFar(d, t.left, p, s));
      var s2 := FarBranch(d, t.below, t.left, t.maxLeft, p, s1);
      FarBranchSearched(d, t.below, t.left, t.maxLeft, p, s1);
      FarBranchSearched(d, t.beyond, t.right, t.maxRight, p, s2);
      FarCombines(d, t, p, s, s1, s2, FarBranch(d, t.beyond, t.right, t.maxRight, p, s2));
    }
  }

  lemma FarBranchIs<T(!new)>(d: Space<T>, b: Tree<T>, o: Option<T>, max: real, p: T, s: (Option<T>, real),
                             a: iset<(Option<T>, real)>)
    requires b.Node? && o.Some? && s.1 - max <= Dist(d, p, o.value) ==> PrunedFarthest(d, b, p, s) in a
    requires !(b.Node? && o.Some? && s.1 - max <= Dist(d, p, o.value)) ==> s in a
    ensures FarBranch(d, b, o, max, p, s) in a
  {
  }

  lemma {:induction false} FarBranchSearched<T(!new)>(d: Space<T>, b: Tree<T>, o: Option<T>, max: real, p: T,
                                                      s: (Option<T>, real))
    requires Metric(d) && Bounded(d, b)
    requires (o.None? ==> b.Leaf?) && (o.Some? ==> Covers(d, o.value, max, Contents(b)))
    ensures FarBranch(d, b, o, max, p, s) in FarAnswers(d, Contents(b), p, s)
    decreases b, 1
  {
    if b.Leaf? {
      NothingToFind(d, b, p, s);
    } else if s.1 - max <= Dist(d, p, o.value) {
      FarTreeSearched(d, b, p, s);
    } else {
      FarSkips(d, Contents(b), p, o.value, max, s);
    }
    FarBranchIs(d, b, o, max, p, s, FarAnswers(d, Contents(b), p, s));
  }

  /** The pruned search is exhaustive: it takes account of every point of the tree. */
  lemma PrunedNearestIsExact<T(!new)>(d: Space<T>, t: Tree<T>, p: T, s: (Option<T>, real))
    requires Metric(d) && Bounded(d, t)
    ensures var s' := PrunedNearest(d, t, p, s);
            Nearer(d, Contents(t), p, s.0, s.1, s'.0, s'.1)
  {
    NearTreeSearched(d, t, p, s);
  }

  lemma PrunedFarthestIsExact<T(!new)>(d: Space<T>, t: Tree<T>, p: T, s: (Option<T>, real))
    requires Metric(d) && Bounded(d, t)
    ensures var s' := PrunedFarthest(d, t, p, s);
            Farther(d, Contents(t), p, s.0, s.1, s'.0, s'.1)
  {
    FarTreeSearched(d, t, p, s);
  }

  lemma {:induction false} BranchCountIsExact<T(!new)>(d: Space<T>, b: Tree<T>, o: Option<T>, max: real, p: T,
                                                       r: real, h: (real, T))
    requires Metric(d) && Bounded(d, b)
    requires (o.None? ==> b.Leaf?) && (o.Some? ==> Covers(d, o.value, max, Contents(b)))
    ensures BranchCount(d, b, o, max, p, r, h) == Expected(d, Contents(b), p, r, h)
    decreases b, 1
  {
    if b.Node? {
      if r + max >= Dist(d, p, o.value) {
        PrunedCountIsExact(d, b, p, r, h);
      } else {
        NothingWithin(d, Contents(b), p, o.value, max, r, h);
      }
    }
  }

  lemma HitIsExact<T>(d: Space<T>, o: Option<T>, p: T, r: real, h: (real, T))
    ensures HitCount(d, o, p, r, h) == Expected(d, Single(o), p, r, h)
  {
  }

  lemma ExpectedOfNode<T>(d: Space<T>, t: Tree<T>, p: T, r: real, h: (real, T))
    requires t.Node?
    ensures Expected(d, Contents(t), p, r, h)
         == Expected(d, Single(t.left), p, r, h) + Expected(d, Single(t.right), p, r, h)
            + Expected(d, Contents(t.below), p, r, h) + Expected(d, Contents(t.beyond), p, r, h)
  {
  }

  /** The radius search finds every eligible point exactly as often as it is stored, and nothing else. */
  lemma {:induction false} PrunedCountIsExact<T(!new)>(d: Space<T>, t: Tree<T>, p: T, r: real, h: (real, T))
    requires Metric(d) && Bounded(d, t)
    ensures PrunedCount(d, t, p, r, h) == Expected(d, Contents(t), p, r, h)
    decreases t, 0
  {
    if t.Node? {
      BranchCountIsExact(d, t.below, t.left, t.maxLeft, p, r, h);
      BranchCountIsExact(d, t.beyond, t.right, t.maxRight, p, r, h);
      CountsAddUp(d, t, p, r, h);
    }
  }

  lemma CountsAddUp<T>(d: Space<T>, t: Tree<T>, p: T, r: real, h: (real, T))
    requires t.Node?
    requires BranchCount(d, t.below, t.left, t.maxLeft, p, r, h) == Expected(d, Contents(t.below), p, r, h)
    requires BranchCount(d, t.beyond, t.right, t.maxRight, p, r, h) == Expected(d, Contents(t.beyond), p, r, h)
    ensures PrunedCount(d, t, p, r, h) == Expected(d, Contents(t), p, r, h)
  {
    HitIsExact(d, t.left, p, r, h);
    HitIsExact(d, t.right, p, r, h);
    ExpectedOfNode(d, t, p, r, h);
  }

  // ---------------------------------------------------------------- the answers of the public queries

  /** How often the tree stores the point `y`. */
  ghost function Multiplicity<T>(t: Tree<T>, y: T): nat {
    if t.Leaf? then 0
    else
      (if t.left == Some(y) then 1 else 0) + (if t.right == Some(y) then 1 else 0)
      + Multiplicity(t.below, y) + Multiplicity(t.beyond, y)
  }

  /** The tree is sound, and stores exactly these points. */
  ghost predicate Describes<T(!new)>(d: Space<T>, t: Tree<T>, points: multiset<T>) {
    Bounded(d, t) && forall y :: points[y] == Multiplicity(t, y)
  }

  lemma SingleCount<T>(o: Option<T>, y: T)
    ensures Single(o)[y] == if o == Some(y) then 1 else 0
  {
  }

  lemma ContentsCount<T>(t: Tree<T>, y: T)
    requires t.Node?
    ensures Contents(t)[y] == Single(t.left)[y] + Single(t.right)[y] + Contents(t.below)[y] + Contents(t.beyond)[y]
  {
  }

  lemma {:induction false} MultiplicityInContents<T>(t: Tree<T>, y: T)
    ensures Contents(t)[y] == Multiplicity(t, y)
  {
    if t.Node? {
      ContentsCount(t, y);
      SingleCount(t.left, y);
      SingleCount(t.right, y);
      MultiplicityInContents(t.below, y);
      MultiplicityInContents(t.beyond, y);
    }
  }

  lemma DescribedContents<T(!new)>(d: Space<T>, t: Tree<T>, points: multiset<T>)
    requires Describes(d, t, points)
    ensures Contents(t) == points
  {
    forall y ensures Contents(t)[y] == points[y] {
      MultiplicityInContents(t, y);
    }
  }

  lemma ContentsDescribed<T(!new)>(d: Space<T>, t: Tree<T>, points: multiset<T>)
    requires Bounded(d, t) && Contents(t) == points
    ensures Describes(d, t, points)
  {
    forall y ensures points[y] == Multiplicity(t, y) {
      MultiplicityInContents(t, y);
    }
  }

  lemma EmptyDescribed<T(!new)>(d: Space<T>)
    ensures Describes(d, Empty(), multiset{})
  {
    assert forall y: T :: Multiplicity(Empty(), y) == 0;
  }

  lemma InsertedDescribed<T(!new)>(d: Space<T>, t: Tree<T>, points: multiset<T>, x: T)
    requires Describes(d, t, points)
    ensures Describes(d, Inserted(d, t, x), points + multiset{x})
  {
    DescribedContents(d, t, points);
    InsertedBounded(d, t, x);
    InsertedContents(d, t, x);
    ContentsDescribed(d, Inserted(d, t, x), points + multiset{x});
  }

  lemma SizeOfDescribed<T(!new)>(d: Space<T>, t: Tree<T>, points: multiset<T>)
    requires Describes(d, t, points)
    ensures Size(t) == |points|
  {
    DescribedContents(d, t, points);
    SizeCountsContents(t);
  }

  /** A nearest point within the radius, or the certainty that no point qualifies. */
  lemma NearestAnswer<T(!new)>(d: Space<T>, t: Tree<T>, points: multiset<T>, p: T, r: real)
    requires Metric(d) && Describes(d, t, points)
    ensures var c := PrunedNearest(d, t, p, (None, r)).0;
            && (c.Some? ==> IsNearest(d, points, p, c.value) && Eligible(d, p, r, c.value))
            && (c.None? ==> forall x :: x in points ==> !Eligible(d, p, r, x))
  {
    DescribedContents(d, t, points);
    PrunedNearestIsExact(d, t, p, (None, r));
  }

  lemma FarthestAnswer<T(!new)>(d: Space<T>, t: Tree<T>, points: multiset<T>, p: T)
    requires Metric(d) && Describes(d, t, points)
    ensures var c := PrunedFarthest(d, t, p, (None, -1.0)).0;
            && (c.Some? ==> IsFarthest(d, points, p, c.value))
            && (c.None? <==> points == multiset{})
  {
    DescribedContents(d, t, points);
    PrunedFarthestIsExact(d, t, p, (None, -1.0));
    var (c, r) := PrunedFarthest(d, t, p, (None, -1.0));
    FartherFromScratch(d, Contents(t), p, c, r);
  }

  lemma WithinAnswer<T(!new)>(d: Space<T>, t: Tree<T>, points: multiset<T>, p: T, r: real, hits: multiset<(real, T)>)
    requires Metric(d) && Describes(d, t, points)
    requires forall h :: hits[h] == PrunedCount(d, t, p, r, h)
    ensures Within(d, points, p, r, hits)
  {
    DescribedContents(d, t, points);
    forall h {
      PrunedCountIsExact(d, t, p, r, h);
    }
  }

  /** The order of insertion does not show: two trees that store the same points answer every query
      with the same distances, and a radius query with the same points. */
  lemma OrderIsIrrelevant<T(!new)>(d: Space<T>, t: Tree<T>, u: Tree<T>, points: multiset<T>, p: T, r: real)
    requires Metric(d) && Describes(d, t, points) && Describes(d, u, points)
    ensures PrunedNearest(d, t, p, (None, r)).1 == PrunedNearest(d, u, p, (None, r)).1
    ensures PrunedFarthest(d, t, p, (None, -1.0)).1 == PrunedFarthest(d, u, p, (None, -1.0)).1
    ensures forall h :: PrunedCount(d, t, p, r, h) == PrunedCount(d, u, p, r, h)
  {
    DescribedContents(d, t, points);
    DescribedContents(d, u, points);
    SameNearest(d, t, u, p, r);
    SameFarthest(d, t, u, p);
    forall h ensures PrunedCount(d, t, p, r, h) == PrunedCount(d, u, p, r, h) {
      PrunedCountIsExact(d, t, p, r, h);
      PrunedCountIsExact(d, u, p, r, h);
    }
  }

  lemma SameNearest<T(!new)>(d: Space<T>, t: Tree<T>, u: Tree<T>, p: T, r: real)
    requires Metric(d) && Bounded(d, t) && Bounded(d, u) && Contents(t) == Contents(u)
    ensures PrunedNearest(d, t, p, (None, r)).1 == PrunedNearest(d, u, p, (None, r)).1
  {
    PrunedNearestIsExact(d, t, p, (None, r));
    PrunedNearestIsExact(d, u, p, (None, r));
  }

  lemma SameFarthest<T(!new)>(d: Space<T>, t: Tree<T>, u: Tree<T>, p: T)
    requires Metric(d) && Bounded(d, t) && Bounded(d, u) && Contents(t) == Contents(u)
    ensures PrunedFarthest(d, t, p, (None, -1.0)).1 == PrunedFarthest(d, u, p, (None, -1.0)).1
  {
    PrunedFarthestIsExact(d, t, p, (None, -1.0));
    PrunedFarthestIsExact(d, u, p, (None, -1.0));
  }

  lemma MoveOne<T>(c: multiset<T>, s: seq<T>, i: nat)
    requires i < |s|
    ensures c + multiset{s[i]} + multiset(s[i + 1..]) == c + multiset(s[i..])
  {
    assert s[i..] == [s[i]] + s[i + 1..];
  }
}
