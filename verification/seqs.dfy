/** Ordered, duplicate-free sequences: the shape of every dirty bucket and of
    every live record array. */
module Seqs {

  predicate NoDup<T(==)>(q: seq<T>) {
    forall i, j :: 0 <= i < j < |q| ==> q[i] != q[j]
  }

  /** Append `x` unless it is already present: membership without duplicates,
      in the order of first insertion. */
  function AddOnce<T(==,!new)>(q: seq<T>, x: T): (r: seq<T>)
    ensures x in r
    ensures forall y :: y in r <==> y in q || y == x
    ensures NoDup(q) ==> NoDup(r)
    ensures x in q ==> r == q
    ensures x !in q ==> r == q + [x]
  {
    if x in q then q else q + [x]
  }

  /** Drop every occurrence of `x`, keeping the order of the rest. */
  function Remove<T(==,!new)>(q: seq<T>, x: T): (r: seq<T>)
    ensures forall y :: y in r <==> y in q && y != x
    ensures NoDup(q) ==> NoDup(r)
    ensures x !in q ==> r == q
    ensures NoDup(q) && x in q ==> |r| == |q| - 1
  {
    if |q| == 0 then []
    else if q[0] == x then Remove(q[1..], x)
    else
      var rest := Remove(q[1..], x);
      assert NoDup(q) ==> NoDup(q[1..]) && q[0] !in rest by {
        if NoDup(q) {
          assert forall i, j :: 0 <= i < j < |q[1..]| ==> q[1..][i] == q[i + 1] && q[1..][j] == q[j + 1];
          assert q[0] !in q[1..];
        }
      }
      [q[0]] + rest
  }

  /** A sequence is empty exactly when nothing is in it. */
  lemma EmptyIffNoMember<T>(q: seq<T>)
    ensures q == [] <==> forall x :: x !in q
  {
    if q != [] {
      assert q[0] in q;
    }
  }

  /** The tail of a duplicate-free sequence is duplicate-free and lacks the head. */
  lemma NoDupTail<T>(q: seq<T>)
    requires |q| > 0 && NoDup(q)
    ensures NoDup(q[1..]) && q[0] !in q[1..]
  {
    forall i, j | 0 <= i < j < |q[1..]| ensures q[1..][i] != q[1..][j] {
      assert q[1..][i] == q[i + 1] && q[1..][j] == q[j + 1];
    }
  }

  /** Removing the first element of a duplicate-free sequence is taking its tail. */
  lemma {:induction false} RemoveHead<T(!new)>(q: seq<T>)
    requires |q| > 0 && NoDup(q)
    ensures Remove(q, q[0]) == q[1..]
  {
    assert q[0] !in q[1..];
  }

  /** Removing an element appended to a sequence that lacked it gives the
      sequence back. */
  lemma {:induction false} RemoveLast<T(!new)>(q: seq<T>, x: T)
    requires x !in q
    ensures Remove(q + [x], x) == q
    decreases |q|
  {
    if |q| == 0 {
      assert [] + [x] == [x];
      assert Remove([x], x) == Remove([x][1..], x);
    } else {
      assert (q + [x])[0] == q[0] && (q + [x])[1..] == q[1..] + [x];
      RemoveLast(q[1..], x);
      assert q == [q[0]] + q[1..];
    }
  }
}
