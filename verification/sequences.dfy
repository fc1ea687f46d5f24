/** Sequences of keys used as queues: removing one occurrence, and what
    that does to membership, length and distinctness. */
module KeyQueues {
  import opened Java
  import opened JavaText

  /** A sequence with a first element is distinct exactly when that element
      does not recur and the rest is distinct. */
  lemma DistinctCons(x: string, rest: seq<string>)
    ensures Distinct([x] + rest) <==> x !in rest && Distinct(rest)
  {
    var q := [x] + rest;
    assert forall i :: 0 <= i < |rest| ==> q[i + 1] == rest[i];
    if x !in rest && Distinct(rest) {
      forall i, j | 0 <= i < j < |q| ensures q[i] != q[j] {
        if i > 0 {
          assert q[i] == rest[i - 1] && q[j] == rest[j - 1];
        } else {
          assert q[j] == rest[j - 1];
        }
      }
    }
    if x in rest {
      var k :| 0 <= k < |rest| && rest[k] == x;
      assert q[0] == q[k + 1];
    }
  }

  /** `Collection.remove(x)` on a queue: the first occurrence of `x` goes,
      and nothing else changes. */
  function RemoveFirst(q: seq<string>, x: string): (r: seq<string>)
    ensures x !in q ==> r == q
    ensures x in q ==> |r| == |q| - 1
    ensures forall y :: y in r ==> y in q
    ensures forall y :: y != x && y in q ==> y in r
    ensures x in q ==> exists i :: 0 <= i < |q| && q[i] == x && x !in q[..i] && r == q[..i] + q[i + 1..]
  {
    var i := IndexOf(q, x);
    if i < 0 then q
    else
      var r := q[..i] + q[i + 1..];
      assert forall k :: 0 <= k < i ==> r[k] == q[k];
      assert forall k :: i < k < |q| ==> r[k - 1] == q[k];
      r
  }

  /** In a distinct queue the first occurrence is the only one, so
      removal cuts the queue exactly where `x` stands. */
  lemma RemoveFirstAt(q: seq<string>, x: string, i: int)
    requires Distinct(q) && 0 <= i < |q| && q[i] == x
    ensures RemoveFirst(q, x) == q[..i] + q[i + 1..]
  {
    var j := IndexOf(q, x);
    assert 0 <= j && q[j] == x;
  }

  /** Removing from a distinct queue keeps it distinct and removes the
      element entirely. */
  lemma RemoveFirstDistinct(q: seq<string>, x: string)
    requires Distinct(q)
    ensures Distinct(RemoveFirst(q, x))
    ensures x !in RemoveFirst(q, x)
  {
    var i := IndexOf(q, x);
    if i >= 0 {
      var r := RemoveFirst(q, x);
      assert forall k :: 0 <= k < |r| ==> r[k] == if k < i then q[k] else q[k + 1];
    }
  }

  /** Appending an absent element keeps a queue distinct. */
  lemma AppendDistinct(q: seq<string>, x: string)
    requires Distinct(q) && x !in q
    ensures Distinct(q + [x])
  {
    var r := q + [x];
    assert forall i :: 0 <= i < |q| ==> r[i] == q[i];
  }

  /** A distinct queue is exactly as long as the set of its elements is
      large. */
  lemma {:induction false} DistinctCard(q: seq<string>, s: set<string>)
    requires Distinct(q)
    requires forall x :: x in s <==> x in q
    ensures |s| == |q|
    decreases |q|
  {
    if q != [] {
      assert q == [q[0]] + q[1..];
      DistinctCons(q[0], q[1..]);
      var rest := s - {q[0]};
      assert forall x :: x in rest <==> x in q[1..];
      DistinctCard(q[1..], rest);
    } else {
      assert s == {};
    }
  }
}
