/** Queues as sequences: what the TAILQ macros compute, and the facts the scheduler needs. */
module Queues {

  ghost predicate NoDup<T>(s: seq<T>) { forall i, j :: 0 <= i < j < |s| ==> s[i] != s[j] }

  /** The queue without its first occurrence of `x`. */
  ghost function Minus<T>(s: seq<T>, x: T): (r: seq<T>)
    ensures x !in s ==> r == s
    ensures |r| <= |s|
  {
    if s == [] then []
    else if s[0] == x then s[1..]
    else [s[0]] + Minus(s[1..], x)
  }

  /** The sequence without the element at `i`. */
  function Without<T>(s: seq<T>, i: nat): seq<T>
    requires i < |s|
  {
    s[..i] + s[i + 1..]
  }

  /** Index of the first `x` from `from` on; the length if there is none. */
  function FirstIndex(s: seq<int>, x: int, from: nat): (k: nat)
    requires from <= |s|
    ensures from <= k <= |s| && (k < |s| ==> s[k] == x)
    ensures forall i :: from <= i < k ==> s[i] != x
    decreases |s| - from
  {
    if from == |s| || s[from] == x then from else FirstIndex(s, x, from + 1)
  }

  lemma {:induction false} MinusAt<T>(s: seq<T>, i: nat)
    requires NoDup(s) && i < |s|
    ensures Minus(s, s[i]) == Without(s, i)
  {
    if i > 0 {
      MinusAt(s[1..], i - 1);
      assert s[..i] == [s[0]] + s[1..][..i - 1];
    }
  }

  lemma MinusFacts<T>(s: seq<T>, x: T)
    requires NoDup(s)
    ensures NoDup(Minus(s, x))
    ensures forall y :: y in Minus(s, x) ==> y in s && y != x
    ensures forall y :: y in s && y != x ==> y in Minus(s, x)
  {
    if x in s {
      var i :| 0 <= i < |s| && s[i] == x;
      MinusAt(s, i);
      hide Minus;
      WithoutFacts(s, i);
    }
  }

  lemma WithoutFacts<T>(s: seq<T>, i: nat)
    requires NoDup(s) && i < |s|
    ensures NoDup(Without(s, i))
    ensures forall y :: y in Without(s, i) ==> y in s && y != s[i]
    ensures forall y :: y in s && y != s[i] ==> y in Without(s, i)
  {
    var r := Without(s, i);
    assert forall k :: 0 <= k < |r| ==> r[k] == s[if k < i then k else k + 1];
    forall y | y in s && y != s[i] ensures y in r {
      var k :| 0 <= k < |s| && s[k] == y;
      assert r[if k < i then k else k - 1] == y;
    }
  }

  lemma AppendFacts<T>(s: seq<T>, x: T)
    requires NoDup(s) && x !in s
    ensures NoDup(s + [x])
  {
  }

  lemma TailFacts<T>(s: seq<T>)
    requires NoDup(s) && s != []
    ensures NoDup(s[1..]) && Minus(s, s[0]) == s[1..]
    ensures forall y :: y in s[1..] ==> y in s && y != s[0]
    ensures forall y :: y in s && y != s[0] ==> y in s[1..]
  {
    assert s == [s[0]] + s[1..];
    forall y | y in s[1..] ensures y != s[0] {
      var k :| 0 <= k < |s| - 1 && s[1..][k] == y;
    }
  }
}
