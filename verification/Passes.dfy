/** Passes over a state: one step for each item of a list, in order. */
module Passes {
  /** The state after the steps of the first n items. */
  function Fold<S, P>(step: (S, P) -> S, s: S, ps: seq<P>, n: nat): S
    requires n <= |ps|
  {
    if n == 0 then s else step(Fold(step, s, ps, n - 1), ps[n - 1])
  }

  /** Equality of states as wholes, with no look inside. */
  ghost predicate Same<S>(s: S, t: S) { s == t }

  lemma {:induction false} FoldStep<S, P>(step: (S, P) -> S, s: S, ps: seq<P>, n: nat, before: S, after: S)
    requires n < |ps| && before == Fold(step, s, ps, n) && after == step(before, ps[n])
    ensures after == Fold(step, s, ps, n + 1)
  {
  }

  lemma {:induction false} FoldPrefix<S, P>(step: (S, P) -> S, s: S, ps: seq<P>, more: seq<P>, n: nat)
    requires n <= |ps|
    ensures Fold(step, s, ps + more, n) == Fold(step, s, ps, n)
  {
    if n > 0 {
      FoldPrefix(step, s, ps, more, n - 1);
    }
  }

  /** A list put behind another continues from where it left off. */
  lemma {:induction false} FoldAppend<S, P>(step: (S, P) -> S, s: S, ps: seq<P>, more: seq<P>, n: nat)
    requires n <= |more|
    ensures Fold(step, s, ps + more, |ps| + n) == Fold(step, Fold(step, s, ps, |ps|), more, n)
  {
    if n == 0 {
      FoldPrefix(step, s, ps, more, |ps|);
    } else {
      FoldAppend(step, s, ps, more, n - 1);
    }
  }

  /** The step of p, then that of q, is the step of q, then that of p. */
  ghost predicate Swap<S(!new), P, Q>(f: (S, P) -> S, p: P, g: (S, Q) -> S, q: Q) {
    forall s: S :: g(f(s, p), q) == f(g(s, q), p)
  }

  lemma {:induction false} OneCommutes<S(!new), P, Q>(f: (S, P) -> S, p: P, g: (S, Q) -> S, s: S, qs: seq<Q>, n: nat)
    requires n <= |qs| && forall j | 0 <= j < n :: Swap(f, p, g, qs[j])
    ensures Fold(g, f(s, p), qs, n) == f(Fold(g, s, qs, n), p)
  {
    if n > 0 {
      OneCommutes(f, p, g, s, qs, n - 1);
    }
  }

  /** Passes whose steps commute pairwise commute as a whole. */
  lemma {:induction false} PassesCommute<S(!new), P, Q>(
    f: (S, P) -> S, ps: seq<P>, k: nat, g: (S, Q) -> S, qs: seq<Q>, n: nat, s: S)
    requires k <= |ps| && n <= |qs| && forall i, j | 0 <= i < k && 0 <= j < n :: Swap(f, ps[i], g, qs[j])
    ensures Fold(g, Fold(f, s, ps, k), qs, n) == Fold(f, Fold(g, s, qs, n), ps, k)
    decreases k
  {
    if k > 0 {
      PassesCommute(f, ps, k - 1, g, qs, n, s);
      OneCommutes(f, ps[k - 1], g, Fold(f, s, ps, k - 1), qs, n);
    }
  }

  /** The step of p changes what is seen by the given effect. */
  ghost predicate Makes<S(!new), P, T>(step: (S, P) -> S, p: P, see: S -> T, effect: T -> T) {
    forall s: S :: see(step(s, p)) == effect(see(s))
  }

  ghost predicate Keeps<S(!new), P, T>(step: (S, P) -> S, p: P, see: S -> T) {
    forall s: S :: see(step(s, p)) == see(s)
  }

  /** What every step keeps, the pass keeps. */
  lemma {:induction false} PassKeeps<S(!new), P, T>(step: (S, P) -> S, s: S, ps: seq<P>, n: nat, see: S -> T)
    requires n <= |ps| && forall i | 0 <= i < n :: Keeps(step, ps[i], see)
    ensures see(Fold(step, s, ps, n)) == see(s)
  {
    if n > 0 {
      PassKeeps(step, s, ps, n - 1, see);
    }
  }

  /** What one step makes and every other keeps, the pass makes. */
  lemma {:induction false} PassMakes<S(!new), P, T>(
    step: (S, P) -> S, s: S, ps: seq<P>, n: nat, see: S -> T, i: nat, effect: T -> T)
    requires i < n <= |ps| && Makes(step, ps[i], see, effect)
    requires forall j | 0 <= j < n && j != i :: Keeps(step, ps[j], see)
    ensures see(Fold(step, s, ps, n)) == effect(see(s))
    decreases n
  {
    if i < n - 1 {
      PassMakes(step, s, ps, n - 1, see, i, effect);
    } else {
      PassKeeps(step, s, ps, i, see);
    }
  }

  /** The effect n times over. */
  function Repeat<T>(effect: T -> T, t: T, n: nat): T {
    if n == 0 then t else effect(Repeat(effect, t, n - 1))
  }

  /** When the steps of p make the effect and all others keep what is seen, it is made as often as p is listed. */
  lemma {:induction false} PassRepeats<S(!new), P, T>(
    step: (S, P) -> S, s: S, ps: seq<P>, n: nat, see: S -> T, p: P, effect: T -> T)
    requires n <= |ps|
    requires forall i | 0 <= i < n :: if ps[i] == p then Makes(step, p, see, effect) else Keeps(step, ps[i], see)
    ensures see(Fold(step, s, ps, n)) == Repeat(effect, see(s), Occurrences(ps, p, n))
  {
    if n > 0 {
      PassRepeats(step, s, ps, n - 1, see, p, effect);
    }
  }

  /** How often p stands among the first n items. */
  function Occurrences<P(==)>(ps: seq<P>, p: P, n: nat): nat
    requires n <= |ps|
  {
    if n == 0 then 0 else Occurrences(ps, p, n - 1) + if ps[n - 1] == p then 1 else 0
  }

  lemma {:induction false} DistinctOccurOnce<P>(ps: seq<P>, p: P, n: nat)
    requires n <= |ps| && forall i, j | 0 <= i < j < n :: ps[i] != ps[j]
    ensures Occurrences(ps, p, n) == if exists i | 0 <= i < n :: ps[i] == p then 1 else 0
  {
    if n > 0 {
      DistinctOccurOnce(ps, p, n - 1);
    }
  }
}
