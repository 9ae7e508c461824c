/** Finite chains of a step relation, and the induction principle for what every step keeps. */
module Chains {

  ghost predicate IsChain<T(!new)>(step: (T, T) -> bool, tr: seq<T>) {
    |tr| > 0 && forall i {:trigger tr[i]} :: 0 < i < |tr| ==> step(tr[i - 1], tr[i])
  }

  /** t is one of the states that steps can lead to from s. */
  ghost predicate Reaches<T(!new)>(step: (T, T) -> bool, s: T, t: T) {
    exists tr: seq<T> :: IsChain(step, tr) && tr[0] == s && tr[|tr| - 1] == t
  }

  lemma ReachesSelf<T(!new)>(step: (T, T) -> bool, s: T)
    ensures Reaches(step, s, s)
  {
    assert IsChain(step, [s]);
  }

  lemma ReachesStep<T(!new)>(step: (T, T) -> bool, s: T, t: T)
    requires step(s, t)
    ensures Reaches(step, s, t)
  {
    assert IsChain(step, [s, t]);
  }

  lemma ChainCons<T(!new)>(step: (T, T) -> bool, s: T, tr: seq<T>)
    requires IsChain(step, tr) && step(s, tr[0])
    ensures IsChain(step, [s] + tr)
  {
    var longer := [s] + tr;
    forall i {:trigger longer[i]} | 0 < i < |longer| ensures step(longer[i - 1], longer[i]) {
      if i > 1 {
        assert longer[i - 1] == tr[i - 2] && longer[i] == tr[i - 1];
      }
    }
  }

  lemma ChainTail<T(!new)>(step: (T, T) -> bool, tr: seq<T>)
    requires IsChain(step, tr) && |tr| > 1
    ensures IsChain(step, tr[1..]) && step(tr[0], tr[1])
  {
    var rest := tr[1..];
    assert step(tr[1 - 1], tr[1]);
    forall i {:trigger rest[i]} | 0 < i < |rest| ensures step(rest[i - 1], rest[i]) {
      assert rest[i - 1] == tr[i] && rest[i] == tr[i + 1];
      assert step(tr[i + 1 - 1], tr[i + 1]);
    }
  }

  lemma ReachesTransitive<T(!new)>(step: (T, T) -> bool, s: T, t: T, u: T)
    requires Reaches(step, s, t) && Reaches(step, t, u)
    ensures Reaches(step, s, u)
  {
    var a: seq<T> :| IsChain(step, a) && a[0] == s && a[|a| - 1] == t;
    var b: seq<T> :| IsChain(step, b) && b[0] == t && b[|b| - 1] == u;
    var c := a + b[1..];
    forall i {:trigger c[i]} | 0 < i < |c| ensures step(c[i - 1], c[i]) {
      if i < |a| {
        assert c[i - 1] == a[i - 1] && c[i] == a[i];
      } else {
        assert c[i - 1] == b[i - |a|] && c[i] == b[i - |a| + 1];
      }
    }
    assert IsChain(step, c);
  }

  /** What holds at the start and is kept by every step holds in every reachable state. */
  lemma Invariant<T(!new)>(step: (T, T) -> bool, inv: T -> bool, s: T, t: T)
    requires Reaches(step, s, t) && inv(s)
    requires forall a, b :: inv(a) && step(a, b) ==> inv(b)
    ensures inv(t)
  {
    var tr: seq<T> :| IsChain(step, tr) && tr[0] == s && tr[|tr| - 1] == t;
    for i := 1 to |tr|
      invariant inv(tr[i - 1])
    {
      assert step(tr[i - 1], tr[i]);
    }
  }
}
