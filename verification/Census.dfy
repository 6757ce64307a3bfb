/** Counting the threads of a monitor by the position they are in. */
module Census {

  ghost function Where<P>(m: map<nat, P>, p: P): set<nat> {
    set w | w in m && m[w] == p
  }

  ghost function Count<P>(m: map<nat, P>, p: P): nat {
    |Where(m, p)|
  }

  /** One thread moving to position `q`, or appearing there, changes each count accordingly. */
  lemma Moved<P>(m: map<nat, P>, w: nat, q: P, p: P)
    ensures Count(m[w := q], p)
         == Count(m, p) - (if w in m && m[w] == p then 1 else 0) + (if q == p then 1 else 0)
  {
    var rest := Where(m, p) - {w};
    assert Where(m, p) == if w in m && m[w] == p then rest + {w} else rest;
    assert Where(m[w := q], p) == if q == p then rest + {w} else rest;
  }

  /** One thread leaving changes only the count of its own position. */
  lemma Left<P>(m: map<nat, P>, w: nat, p: P)
    requires w in m
    ensures Count(m - {w}, p) == Count(m, p) - (if m[w] == p then 1 else 0)
  {
    assert Where(m - {w}, p) == Where(m, p) - {w};
  }

  /** A position with a positive count is occupied, and the other way round. */
  lemma Occupied<P>(m: map<nat, P>, p: P)
    ensures Count(m, p) > 0 <==> exists w :: w in m && m[w] == p
  {
    if w :| w in m && m[w] == p {
      assert w in Where(m, p);
    }
    if Count(m, p) > 0 {
      var w :| w in Where(m, p);
    }
  }

  /** The numbers below `n`. */
  ghost function UpTo(n: nat): (r: set<nat>)
    ensures |r| == n && forall k: nat :: k in r <==> k < n
  {
    if n == 0 then {} else UpTo(n - 1) + {n - 1}
  }

  lemma SubsetSize(a: set<nat>, b: set<nat>)
    requires a <= b
    ensures |a| <= |b|
  {
    assert b == a + (b - a);
  }
}
