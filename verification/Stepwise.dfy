/** Runs that go through numbered steps, each of which a state allows or not. */
module Stepwise {

  /** The first n steps lead from one state to another. */
  ghost predicate Leads<S(!new)>(before: S, n: nat, step: (S, nat, S) -> bool, after: S) {
    if n == 0 then after == before
    else
      var i: nat := n - 1;
      exists s :: Leads(before, i, step, s) && step(s, i, after)
  }

  ghost predicate Functional<S(!new)>(step: (S, nat, S) -> bool) {
    forall s, i, a, b :: step(s, i, a) && step(s, i, b) ==> a == b
  }

  /** A step is taken only from a state that allows it. */
  ghost predicate Guarded<S(!new)>(step: (S, nat, S) -> bool, allowed: (S, nat) -> bool) {
    forall s, i, a :: step(s, i, a) ==> allowed(s, i)
  }

  ghost predicate Completes<S(!new)>(before: S, n: nat, step: (S, nat, S) -> bool) {
    exists s :: Leads(before, n, step, s)
  }

  /** Step i is the first that is not allowed. */
  ghost predicate Clashes<S(!new)>(before: S, i: nat, step: (S, nat, S) -> bool, allowed: (S, nat) -> bool) {
    exists s :: Leads(before, i, step, s) && !allowed(s, i)
  }

  lemma {:induction false} LeadsOnce<S(!new)>(before: S, n: nat, step: (S, nat, S) -> bool, a: S, b: S)
    requires Functional(step) && Leads(before, n, step, a) && Leads(before, n, step, b)
    ensures a == b
  {
    if n > 0 {
      var s :| Leads(before, n - 1, step, s) && step(s, n - 1, a);
      var t :| Leads(before, n - 1, step, t) && step(t, n - 1, b);
      LeadsOnce(before, n - 1, step, s, t);
    }
  }

  /** Nothing leads past a clash. */
  lemma {:induction false} StopsAtClash<S(!new)>(before: S, i: nat, n: nat, step: (S, nat, S) -> bool, allowed: (S, nat) -> bool)
    requires Functional(step) && Guarded(step, allowed) && i < n && Clashes(before, i, step, allowed)
    ensures !Completes(before, n, step)
    decreases n
  {
    if Completes(before, n, step) {
      var after :| Leads(before, n, step, after);
      var s :| Leads(before, n - 1, step, s) && step(s, n - 1, after);
      if n - 1 == i {
        var clash :| Leads(before, i, step, clash) && !allowed(clash, i);
        LeadsOnce(before, i, step, s, clash);
      } else {
        StopsAtClash(before, i, n - 1, step, allowed);
      }
    }
  }

  lemma ClashReached<S(!new)>(before: S, i: nat, step: (S, nat, S) -> bool, allowed: (S, nat) -> bool)
    ensures Clashes(before, i, step, allowed) ==> Completes(before, i, step)
  {
  }

  lemma LeadsNext<S(!new)>(before: S, i: nat, step: (S, nat, S) -> bool, s: S, after: S)
    requires Leads(before, i, step, s) && step(s, i, after)
    ensures Leads(before, i + 1, step, after)
  {
    var n: nat := i + 1;
    assert Leads(before, n - 1, step, s) && step(s, n - 1, after);
  }

  /** A clash is the only one, and the run does not complete. */
  lemma OneClash<S(!new)>(before: S, i: nat, n: nat, step: (S, nat, S) -> bool, allowed: (S, nat) -> bool)
    requires Functional(step) && Guarded(step, allowed) && i < n && Clashes(before, i, step, allowed)
    ensures forall k: nat :: k < n ==> (Clashes(before, k, step, allowed) <==> k == i)
    ensures !Completes(before, n, step)
  {
    forall k: nat | k < n && k != i ensures !Clashes(before, k, step, allowed) {
      ClashReached(before, k, step, allowed);
      ClashReached(before, i, step, allowed);
      if k > i { StopsAtClash(before, i, k, step, allowed); }
      if k < i && Clashes(before, k, step, allowed) { StopsAtClash(before, k, i, step, allowed); }
    }
    StopsAtClash(before, i, n, step, allowed);
  }

  /** A run that completes meets no clash. */
  lemma NeverClashes<S(!new)>(before: S, n: nat, step: (S, nat, S) -> bool, allowed: (S, nat) -> bool)
    requires Functional(step) && Guarded(step, allowed) && Completes(before, n, step)
    ensures forall k: nat :: k < n ==> !Clashes(before, k, step, allowed)
  {
    forall k: nat | k < n ensures !Clashes(before, k, step, allowed) {
      if Clashes(before, k, step, allowed) { StopsAtClash(before, k, n, step, allowed); }
    }
  }
}
