/** Snapshots of the two- and three-dimensional tables that the generators fill in place. */
module Tables {

  function Rows(t: array2<int>): (r: seq<seq<int>>)
    reads t
    ensures |r| == t.Length0
    ensures forall k :: 0 <= k < t.Length0 ==>
              |r[k]| == t.Length1 && forall i :: 0 <= i < t.Length1 ==> r[k][i] == t[k, i]
  {
    seq(t.Length0, k requires 0 <= k < t.Length0 reads t =>
      seq(t.Length1, i requires 0 <= i < t.Length1 reads t => t[k, i]))
  }
}
