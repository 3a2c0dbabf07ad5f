/** Runs: chains of a function applied to its own result, and folds of a step over a sequence of events. */
module Chains {

  function Iterate(step: int -> int, start: int, n: nat): int {
    if n == 0 then start else step(Iterate(step, start, n - 1))
  }

  /** The number of applications used up before landmark i, when `cost(i)` of them lead from landmark i to i + 1. */
  function Position(cost: nat -> nat, i: nat): nat {
    if i == 0 then 0 else Position(cost, i - 1) + cost(i - 1)
  }

  /** From landmark i, one or two applications reach landmark i + 1. */
  ghost predicate LandsAt(step: int -> int, mark: nat -> int, cost: nat -> nat, i: nat) {
    if cost(i) == 1 then step(mark(i)) == mark(i + 1)
    else cost(i) == 2 && step(step(mark(i))) == mark(i + 1)
  }

  ghost predicate Lands(step: int -> int, mark: nat -> int, cost: nat -> nat) {
    forall i: nat :: LandsAt(step, mark, cost, i)
  }

  lemma {:induction false} ChainLands(step: int -> int, mark: nat -> int, cost: nat -> nat, i: nat)
    requires Lands(step, mark, cost)
    ensures Iterate(step, mark(0), Position(cost, i)) == mark(i)
    ensures i <= Position(cost, i) <= 2 * i
  {
    if i > 0 {
      ChainLands(step, mark, cost, i - 1);
      assert LandsAt(step, mark, cost, i - 1);
      var n := Position(cost, i - 1);
      assert Iterate(step, mark(0), n + 1) == step(mark(i - 1));
      assert cost(i - 1) == 2 ==> Iterate(step, mark(0), n + 2) == step(step(mark(i - 1)));
    }
  }

  /** Every application lies between two successive landmarks. */
  lemma {:induction false} Locate(cost: nat -> nat, n: nat) returns (i: nat)
    requires forall j: nat :: 1 <= cost(j) <= 2
    ensures Position(cost, i) <= n < Position(cost, i + 1) <= Position(cost, i) + 2
  {
    if n == 0 {
      i := 0;
    } else {
      i := Locate(cost, n - 1);
      if Position(cost, i + 1) == n {
        i := i + 1;
      }
    }
  }

  // ---- Folds -------------------------------------------------------------------------------------------

  function Fold<S, E>(step: (S, E) -> S, s: S, events: seq<E>): S {
    if events == [] then s else Fold(step, step(s, events[0]), events[1..])
  }

  /** What every allowed step keeps, every run of allowed steps keeps. */
  lemma {:induction false} FoldKeeps<S(!new), E(!new)>(step: (S, E) -> S, inv: S -> bool, allowed: E -> bool,
                                                       s: S, events: seq<E>)
    requires inv(s) && forall e :: e in events ==> allowed(e)
    requires forall t, e :: inv(t) && allowed(e) ==> inv(step(t, e))
    ensures inv(Fold(step, s, events))
  {
    if events != [] {
      assert events[0] in events;
      FoldKeeps(step, inv, allowed, step(s, events[0]), events[1..]);
    }
  }

  /** Every event of the run obeys the law in the state it meets. */
  ghost predicate Lawful<S(!new), E(!new)>(step: (S, E) -> S, law: (S, E) -> bool, s: S, events: seq<E>) {
    events == [] || (law(s, events[0]) && Lawful(step, law, step(s, events[0]), events[1..]))
  }

  /** What every lawful step keeps, every lawful run keeps. */
  lemma {:induction false} LawfulKeeps<S(!new), E(!new)>(step: (S, E) -> S, inv: S -> bool, law: (S, E) -> bool,
                                                         s: S, events: seq<E>)
    requires inv(s) && Lawful(step, law, s, events)
    requires forall t, e :: inv(t) && law(t, e) ==> inv(step(t, e))
    ensures inv(Fold(step, s, events))
  {
    if events != [] {
      LawfulKeeps(step, inv, law, step(s, events[0]), events[1..]);
    }
  }

  function Repeat<T>(f: T -> T, s: T, n: nat): T {
    if n == 0 then s else f(Repeat(f, s, n - 1))
  }

  lemma {:induction false} RepeatKeeps<T(!new)>(f: T -> T, inv: (T, nat) -> bool, s: T, n: nat)
    requires inv(s, 0)
    requires forall t, k: nat :: inv(t, k) ==> inv(f(t), k + 1)
    ensures inv(Repeat(f, s, n), n)
  {
    if n > 0 {
      RepeatKeeps(f, inv, s, n - 1);
    }
  }

  lemma {:induction false} RepeatShift<T>(f: T -> T, s: T, n: nat)
    ensures Repeat(f, f(s), n) == Repeat(f, s, n + 1)
  {
    if n > 0 {
      RepeatShift(f, s, n - 1);
    }
  }
}
