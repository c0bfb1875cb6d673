/** Linked lists without duplicates, as sequences. */
module Queues {

  /** `TAILQ_REMOVE` or `LIST_REMOVE` of an element from a list it is on at most once */
  function Remove<T(==)>(q: seq<T>, x: T): seq<T> {
    if q == [] then [] else if q[0] == x then q[1..] else [q[0]] + Remove(q[1..], x)
  }

  predicate NoDuplicates<T(==)>(q: seq<T>) {
    forall i, j :: 0 <= i < j < |q| ==> q[i] != q[j]
  }

  lemma {:induction false} RemoveKeeps<T>(q: seq<T>, x: T)
    requires NoDuplicates(q)
    ensures NoDuplicates(Remove(q, x)) && x !in Remove(q, x)
    ensures forall y :: y in Remove(q, x) <==> y in q && y != x
    ensures x in q ==> |Remove(q, x)| == |q| - 1
  {
    if q != [] {
      var rest := Remove(q[1..], x);
      RemoveKeeps(q[1..], x);
      assert q == [q[0]] + q[1..];
      assert q[0] !in q[1..];
      assert q[0] !in rest;
      assert q[0] != x ==> Remove(q, x) == [q[0]] + rest;
    }
  }

  lemma {:induction false} RemoveAbsent<T>(q: seq<T>, x: T)
    ensures x !in q ==> Remove(q, x) == q
  {
    if q != [] {
      RemoveAbsent(q[1..], x);
    }
  }

  /** Removing the element at position `k` moves the later ones up. */
  lemma {:induction false} RemoveAt<T>(q: seq<T>, k: nat)
    requires NoDuplicates(q) && k < |q|
    ensures |Remove(q, q[k])| == |q| - 1
    ensures forall j :: 0 <= j < k ==> Remove(q, q[k])[j] == q[j]
    ensures forall j :: k <= j < |q| - 1 ==> Remove(q, q[k])[j] == q[j + 1]
  {
    if k > 0 {
      RemoveAt(q[1..], k - 1);
    }
  }
}
