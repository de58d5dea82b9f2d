/** Ranking of positions by a numeric key: the index order that a stable
    ascending sort of the keys produces (`argsort` of a weight vector, the
    ordering behind `nlargest`), and the first position of a largest key
    (`argmax`, `idxmax`). Keys are reals; integer counts are converted. */
module Ranking {

  /** Position `a` comes before position `b`: a smaller key, or an equal key
      and a smaller position. */
  predicate Before(keys: seq<real>, a: nat, b: nat)
    requires a < |keys| && b < |keys|
  {
    keys[a] < keys[b] || (keys[a] == keys[b] && a < b)
  }

  /** `r` lists positions of `keys`, each strictly before the next ones. */
  predicate RankedBy(keys: seq<real>, r: seq<nat>)
  {
    && (forall i :: 0 <= i < |r| ==> r[i] < |keys|)
    && (forall i, j :: 0 <= i < j < |r| ==> Before(keys, r[i], r[j]))
  }

  function Insert(keys: seq<real>, x: nat, s: seq<nat>): (r: seq<nat>)
    requires x < |keys| && RankedBy(keys, s) && x !in s
    ensures |r| == |s| + 1
    ensures forall y :: y in r <==> y == x || y in s
    ensures RankedBy(keys, r)
  {
    if s == [] || Before(keys, x, s[0]) then
      [x] + s
    else
      var rest := Insert(keys, x, s[1..]);
      forall j | 0 <= j < |rest| ensures Before(keys, s[0], rest[j]) {
        if rest[j] != x {
          assert rest[j] in s[1..];
          var k :| 0 <= k < |s[1..]| && s[1..][k] == rest[j];
          assert s[k + 1] == rest[j];
        }
      }
      [s[0]] + rest
  }

  /** The positions `0 .. n-1`, ranked. */
  function RankPrefix(keys: seq<real>, n: nat): (r: seq<nat>)
    requires n <= |keys|
    ensures |r| == n
    ensures forall y: nat :: y in r <==> y < n
    ensures RankedBy(keys, r)
  {
    if n == 0 then [] else Insert(keys, n - 1, RankPrefix(keys, n - 1))
  }

  /** `argsort` of `keys`: every position exactly once, keys non-decreasing,
      equal keys in position order. */
  function ArgSort(keys: seq<real>): (r: seq<nat>)
    ensures |r| == |keys|
    ensures forall y: nat :: y in r <==> y < |keys|
    ensures RankedBy(keys, r)
  {
    RankPrefix(keys, |keys|)
  }

  /** The first position holding a largest key. */
  function FirstMax(keys: seq<real>): (r: nat)
    requires |keys| > 0
    ensures r < |keys|
    ensures forall j :: 0 <= j < |keys| ==> keys[j] <= keys[r]
    ensures forall j :: 0 <= j < r ==> keys[j] < keys[r]
  {
    if |keys| == 1 then 0
    else
      var m := FirstMax(keys[..|keys| - 1]);
      if keys[|keys| - 1] > keys[m] then |keys| - 1 else m
  }
}
