/** First-match search, the scan that most tables of the daemon share, and constant tables. */
module SeqTools {

  /** Index of the first element satisfying `p`, or the length when there is none. */
  function First<T>(q: seq<T>, p: T -> bool): (i: nat)
    ensures i <= |q|
    ensures forall j | 0 <= j < i :: !p(q[j])
    ensures i < |q| ==> p(q[i])
  {
    if q == [] || p(q[0]) then 0 else 1 + First(q[1..], p)
  }

  lemma FirstIs<T>(q: seq<T>, p: T -> bool, i: nat)
    requires i <= |q|
    requires forall j | 0 <= j < i :: !p(q[j])
    requires i < |q| ==> p(q[i])
    ensures First(q, p) == i
  {
    var k := First(q, p);
    assert !(k < i) && !(i < k);
  }

  lemma Regroup<T>(a: seq<T>, b: seq<T>, c: seq<T>)
    ensures a + (b + c) == (a + b) + c
  {
  }

  function Repeat<T>(n: nat, x: T): (q: seq<T>)
    ensures |q| == n && forall i | 0 <= i < n :: q[i] == x
  {
    seq(n, _ => x)
  }
}
