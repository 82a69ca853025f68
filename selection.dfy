/**
 * Boolean-mask selection as pandas does it: the positions that satisfy a
 * condition, in ascending order, and the elements at those positions.
 */
module Selection {

  predicate StrictlyIncreasing(idx: seq<nat>)
  {
    forall i, j :: 0 <= i < j < |idx| ==> idx[i] < idx[j]
  }

  /** The positions below n that satisfy keep, in ascending order. */
  function Indices(n: nat, keep: nat -> bool): (r: seq<nat>)
    ensures StrictlyIncreasing(r)
    ensures forall i: nat :: i in r <==> i < n && keep(i)
    ensures forall j :: 0 <= j < |r| ==> r[j] < n
    ensures |r| <= n
  {
    if n == 0 then []
    else
      var r := Indices(n - 1, keep);
      r + (if keep(n - 1) then [n - 1] else [])
  }

  /** The elements of s at the positions idx. */
  function Select<T>(s: seq<T>, idx: seq<nat>): (r: seq<T>)
    requires forall j :: 0 <= j < |idx| ==> idx[j] < |s|
    ensures |r| == |idx|
    ensures forall j :: 0 <= j < |idx| ==> r[j] == s[idx[j]]
  {
    seq(|idx|, j requires 0 <= j < |idx| => s[idx[j]])
  }

  /** An element is selected exactly when one of the chosen positions holds it. */
  lemma SelectMembers<T>(s: seq<T>, idx: seq<nat>, x: T)
    requires forall j :: 0 <= j < |idx| ==> idx[j] < |s|
    ensures x in Select(s, idx) <==> exists i :: i in idx && s[i] == x
  {
    var r := Select(s, idx);
    if x in r {
      var j :| 0 <= j < |r| && r[j] == x;
      assert idx[j] in idx;
    }
    if exists i :: i in idx && s[i] == x {
      var i :| i in idx && s[i] == x;
      var j :| 0 <= j < |idx| && idx[j] == i;
      assert r[j] == x;
    }
  }
}
