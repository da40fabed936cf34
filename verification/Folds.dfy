/** A machine that takes requests one after the other: where it is, and what it answered. */
module Folds {
  function Fold<S, Q>(f: (S, Q) -> S, s: S, qs: seq<Q>): S {
    if qs == [] then s else f(Fold(f, s, qs[..|qs| - 1]), qs[|qs| - 1])
  }

  lemma FoldMore<S, Q>(f: (S, Q) -> S, s: S, qs: seq<Q>, k: nat)
    requires k < |qs|
    ensures Fold(f, s, qs[..k + 1]) == f(Fold(f, s, qs[..k]), qs[k])
  {
    assert qs[..k + 1][..k] == qs[..k] && qs[..k + 1][k] == qs[k];
  }

  ghost predicate AnswerAt<S, Q, A>(f: (S, Q) -> S, g: (S, Q) -> A, s: S, qs: seq<Q>, answers: seq<A>, k: nat)
    requires k < |qs| == |answers|
  { answers[k] == g(Fold(f, s, qs[..k]), qs[k]) }

  /** Every request is answered from where the machine was at its turn. */
  ghost predicate Answers<S, Q, A>(f: (S, Q) -> S, g: (S, Q) -> A, s: S, qs: seq<Q>, answers: seq<A>) {
    |answers| == |qs| && forall k: nat :: k < |qs| ==> AnswerAt(f, g, s, qs, answers, k)
  }

  lemma AnswersMore<S, Q, A>(f: (S, Q) -> S, g: (S, Q) -> A, s: S, qs: seq<Q>, answers: seq<A>, k: nat, a: A)
    requires k < |qs| && Answers(f, g, s, qs[..k], answers) && a == g(Fold(f, s, qs[..k]), qs[k])
    ensures Answers(f, g, s, qs[..k + 1], answers + [a])
  {
    var longer, more := qs[..k + 1], answers + [a];
    forall i: nat | i < |longer| ensures AnswerAt(f, g, s, longer, more, i) {
      assert longer[..i] == qs[..i];
      if i < k {
        assert AnswerAt(f, g, s, qs[..k], answers, i) && qs[..k][..i] == qs[..i];
      }
    }
  }
}
