/** Small functions that several models need. */
module Common {

  const SecondsPerDay := 86400

  function Abs(x: int): nat {
    if x < 0 then -x else x
  }

  /** The last `n` elements, or all of them if there are not that many. */
  function LastOnes<T>(s: seq<T>, n: nat): seq<T> {
    if |s| <= n then s else s[|s| - n..]
  }

  ghost predicate Distinct<T>(s: seq<T>) {
    forall i, j :: 0 <= i < j < |s| ==> s[i] != s[j]
  }
}
