/** Atomic charges against one ceiling (crates/gitility-core/src/budget.rs). */
module Charges {
  import opened Basics

  const WRAP: nat := 0x1_0000_0000_0000_0000

  /** One call of `charge`: what `fetch_add` returned, and the verdict once it was compared. */
  datatype Charge = Charge(previous: u64, amount: u64, verdict: Option<bool>)

  /** The shared counter and the calls in the order of their `fetch_add`. */
  datatype State = State(counter: u64, charges: seq<Charge>)

  /** The two atomic steps of a call; any number of calls may be between them. */
  datatype Action = Add(amount: u64) | Compare(index: nat)

  const INITIAL: State := State(0, [])

  predicate Enabled(s: State, a: Action) {
    a.Compare? ==> a.index < |s.charges| && s.charges[a.index].verdict.None?
  }

  /** `previous.saturating_add(amount) > ceiling` fails the call. */
  predicate Passes(c: Charge, ceiling: u64) {
    SaturatingAdd(c.previous, c.amount) <= ceiling
  }

  function Apply(s: State, a: Action, ceiling: u64): State
    requires Enabled(s, a)
  {
    match a
    case Add(amount) => State((s.counter + amount) % WRAP, s.charges + [Charge(s.counter, amount, None)])
    case Compare(i) => s.(charges := s.charges[i := s.charges[i].(verdict := Some(Passes(s.charges[i], ceiling)))])
  }

  function Run(actions: seq<Action>, ceiling: u64): Option<State> {
    if actions == [] then Some(INITIAL)
    else
      var before := Run(actions[..|actions| - 1], ceiling);
      var a := actions[|actions| - 1];
      if before.None? || !Enabled(before.value, a) then None else Some(Apply(before.value, a, ceiling))
  }

  /** Everything callers tried to charge. */
  function Attempted(charges: seq<Charge>): nat {
    if charges == [] then 0 else Attempted(charges[..|charges| - 1]) + charges[|charges| - 1].amount
  }

  /** What was charged by the calls that returned `Ok`. */
  function Granted(charges: seq<Charge>): nat {
    if charges == [] then 0
    else
      var last := charges[|charges| - 1];
      Granted(charges[..|charges| - 1]) + (if last.verdict == Some(true) then last.amount else 0)
  }

  ghost predicate Counted(charges: seq<Charge>, ceiling: u64) {
    && (forall i :: 0 <= i < |charges| ==> charges[i].previous == Attempted(charges[..i]) % WRAP)
    && (forall i :: 0 <= i < |charges| && charges[i].verdict.Some? ==> charges[i].verdict.value == Passes(charges[i], ceiling))
  }

  ghost predicate Inv(s: State, ceiling: u64) {
    Counted(s.charges, ceiling) && s.counter == Attempted(s.charges) % WRAP
  }

  /** Amounts decide the attempted total, not verdicts. */
  lemma {:induction false} AttemptedSame(a: seq<Charge>, b: seq<Charge>)
    requires |a| == |b| && forall i :: 0 <= i < |a| ==> a[i].amount == b[i].amount
    ensures Attempted(a) == Attempted(b)
  {
    if a != [] {
      AttemptedSame(a[..|a| - 1], b[..|b| - 1]);
    }
  }

  lemma AttemptedSnoc(charges: seq<Charge>, c: Charge)
    ensures Attempted(charges + [c]) == Attempted(charges) + c.amount
  {
    assert (charges + [c])[..|charges|] == charges;
  }

  lemma AddKeepsInv(s: State, amount: u64, ceiling: u64)
    requires Inv(s, ceiling)
    ensures Inv(Apply(s, Add(amount), ceiling), ceiling)
  {
    hide Attempted;
    var s' := Apply(s, Add(amount), ceiling);
    AttemptedSnoc(s.charges, Charge(s.counter, amount, None));
    WrapAdds(Attempted(s.charges), amount);
    forall i | 0 <= i < |s'.charges| ensures s'.charges[i].previous == Attempted(s'.charges[..i]) % WRAP {
      assert s'.charges[..i] == s.charges[..i];
      assert i == |s.charges| ==> s.charges[..i] == s.charges;
    }
  }

  lemma WrapAdds(total: nat, amount: nat)
    ensures (total % WRAP + amount) % WRAP == (total + amount) % WRAP
  {
    var q := total / WRAP;
    assert total == q * WRAP + total % WRAP;
    WrapMultiple(total % WRAP + amount, q);
  }

  lemma {:induction false} WrapMultiple(x: nat, q: nat)
    ensures (q * WRAP + x) % WRAP == x % WRAP
  {
    if q > 0 {
      WrapMultiple(x, q - 1);
      assert q * WRAP + x == (q - 1) * WRAP + x + WRAP;
    }
  }

  lemma CompareKeepsInv(s: State, index: nat, ceiling: u64)
    requires Inv(s, ceiling) && Enabled(s, Compare(index))
    ensures Inv(Apply(s, Compare(index), ceiling), ceiling)
  {
    hide Attempted;
    var s' := Apply(s, Compare(index), ceiling);
    AttemptedSame(s.charges, s'.charges);
    forall i | 0 <= i < |s'.charges| ensures s'.charges[i].previous == Attempted(s'.charges[..i]) % WRAP {
      AttemptedSame(s.charges[..i], s'.charges[..i]);
    }
  }

  lemma {:induction false} RunInv(actions: seq<Action>, ceiling: u64)
    requires Run(actions, ceiling).Some?
    ensures Inv(Run(actions, ceiling).value, ceiling)
  {
    hide Inv, Apply;
    if actions == [] {
      InitialInv(ceiling);
    } else {
      RunInv(actions[..|actions| - 1], ceiling);
      var before, a := Run(actions[..|actions| - 1], ceiling).value, actions[|actions| - 1];
      match a
      case Add(amount) => AddKeepsInv(before, amount, ceiling);
      case Compare(i) => CompareKeepsInv(before, i, ceiling);
    }
  }

  lemma InitialInv(ceiling: u64)
    ensures Inv(INITIAL, ceiling)
  {
  }

  /** Granted amounts stay under the ceiling while the attempted total has not passed 2^64. */
  lemma {:induction false} CountedWithin(charges: seq<Charge>, ceiling: u64)
    requires Counted(charges, ceiling)
    requires Attempted(charges) < WRAP || (Attempted(charges) == WRAP && ceiling < U64_MAX)
    ensures Granted(charges) <= ceiling && Granted(charges) <= Attempted(charges)
  {
    if charges != [] {
      var rest, last := charges[..|charges| - 1], charges[|charges| - 1];
      assert forall i :: 0 <= i < |rest| ==> rest[..i] == charges[..i];
      CountedWithin(rest, ceiling);
      assert last.previous == Attempted(rest) % WRAP;
    }
  }

  /** In every interleaving, calls that returned `Ok` charged at most the ceiling, up to an attempted total of 2^64. */
  lemma ChargesStayUnderCeiling(actions: seq<Action>, ceiling: u64)
    requires Run(actions, ceiling).Some?
    requires
      var total := Attempted(Run(actions, ceiling).value.charges);
      total < WRAP || (total == WRAP && ceiling < U64_MAX)
    ensures Granted(Run(actions, ceiling).value.charges) <= ceiling
  {
    hide Run, Attempted, Granted;
    RunInv(actions, ceiling);
    CountedWithin(Run(actions, ceiling).value.charges, ceiling);
  }

  // ----- past 2^64

  /** A full ceiling, the rest of the word, and one more. */
  function WrapAround(ceiling: u64): seq<Action>
    requires 0 < ceiling
  {
    [Add(ceiling), Compare(0), Add(WRAP - ceiling), Compare(1), Add(1), Compare(2)]
  }

  lemma WrapAroundOvercharges(ceiling: u64)
    requires 0 < ceiling < U64_MAX
    ensures Run(WrapAround(ceiling), ceiling).Some?
    ensures Attempted(Run(WrapAround(ceiling), ceiling).value.charges) == WRAP + 1
    ensures Granted(Run(WrapAround(ceiling), ceiling).value.charges) == ceiling + 1
  {
    hide Run, Attempted, Granted;
    var c0 := Charge(0, ceiling, Some(true));
    var c1 := Charge(ceiling, WRAP - ceiling, Some(false));
    var c2 := Charge(0, 1, Some(true));
    RunNothing(ceiling);
    AddThenCompare([], ceiling, INITIAL, ceiling);
    var r1 := [] + [Add(ceiling), Compare(0)];
    var s1 := State(ceiling, [] + [c0]);
    AddThenCompare(r1, ceiling, s1, WRAP - ceiling);
    var r2 := r1 + [Add(WRAP - ceiling), Compare(1)];
    var s2 := State(0, s1.charges + [c1]);
    AddThenCompare(r2, ceiling, s2, 1);
    var cs := s2.charges + [c2];
    assert r2 + [Add(1), Compare(2)] == WrapAround(ceiling);
    assert cs == [c0, c1, c2];
    WrapAroundTotals(c0, c1, c2);
  }

  lemma RunNothing(ceiling: u64)
    ensures Run([], ceiling) == Some(INITIAL)
  {
  }

  lemma WrapAroundTotals(c0: Charge, c1: Charge, c2: Charge)
    requires c0.verdict == Some(true) && c1.verdict == Some(false) && c2.verdict == Some(true)
    ensures Attempted([c0, c1, c2]) == c0.amount + c1.amount + c2.amount
    ensures Granted([c0, c1, c2]) == c0.amount + c2.amount
  {
    var cs := [c0, c1, c2];
    assert cs[..2] == [c0, c1] && cs[..2][..1] == [c0] && [c0][..0] == [];
    assert Attempted([c0]) == c0.amount && Attempted([c0, c1]) == c0.amount + c1.amount;
    assert Granted([c0]) == c0.amount && Granted([c0, c1]) == c0.amount;
  }

  lemma RunSnoc(actions: seq<Action>, ceiling: u64, s: State, a: Action)
    requires Run(actions, ceiling) == Some(s) && Enabled(s, a)
    ensures Run(actions + [a], ceiling) == Some(Apply(s, a, ceiling))
  {
    assert (actions + [a])[..|actions|] == actions;
  }

  /** One call with nothing in between. */
  lemma AddThenCompare(actions: seq<Action>, ceiling: u64, s: State, amount: u64)
    requires Run(actions, ceiling) == Some(s)
    ensures
      var c := Charge(s.counter, amount, None);
      Run(actions + [Add(amount), Compare(|s.charges|)], ceiling)
        == Some(State((s.counter + amount) % WRAP, s.charges + [c.(verdict := Some(Passes(c, ceiling)))]))
  {
    hide Run;
    var n := |s.charges|;
    RunSnoc(actions, ceiling, s, Add(amount));
    var s1 := Apply(s, Add(amount), ceiling);
    RunSnoc(actions + [Add(amount)], ceiling, s1, Compare(n));
    assert actions + [Add(amount)] + [Compare(n)] == actions + [Add(amount), Compare(n)];
    var c := Charge(s.counter, amount, None);
    assert s1.charges[n := c.(verdict := Some(Passes(c, ceiling)))] == s.charges + [c.(verdict := Some(Passes(c, ceiling)))];
  }

  // ----- the exact bound, for every ceiling

  /** Runs that attempt at most `bound` in all are granted at most the ceiling. */
  ghost predicate Guaranteed(ceiling: u64, bound: nat) {
    forall actions ::
      Run(actions, ceiling).Some? && Attempted(Run(actions, ceiling).value.charges) <= bound ==>
      Granted(Run(actions, ceiling).value.charges) <= ceiling
  }

  /** A zero ceiling grants only empty charges, however often the counter wraps. */
  lemma {:induction false} ZeroGrantsNothing(charges: seq<Charge>)
    requires Counted(charges, 0)
    ensures Granted(charges) == 0
  {
    if charges != [] {
      var rest := charges[..|charges| - 1];
      assert forall i :: 0 <= i < |rest| ==> rest[..i] == charges[..i];
      ZeroGrantsNothing(rest);
    }
  }

  /** At the largest ceiling the saturating sum never exceeds it, so every charge is granted. */
  lemma LargestCeilingOvercharges()
    ensures
      var run := Run([Add(U64_MAX), Compare(0), Add(1), Compare(1)], U64_MAX);
      run.Some? && Attempted(run.value.charges) == WRAP && Granted(run.value.charges) == WRAP
  {
    hide Run, Attempted, Granted;
    var c0 := Charge(0, U64_MAX, Some(true));
    var c1 := Charge(U64_MAX, 1, Some(true));
    RunNothing(U64_MAX);
    AddThenCompare([], U64_MAX, INITIAL, U64_MAX);
    var r1 := [] + [Add(U64_MAX), Compare(0)];
    var s1 := State(U64_MAX, [] + [c0]);
    AddThenCompare(r1, U64_MAX, s1, 1);
    assert r1 + [Add(1), Compare(1)] == [Add(U64_MAX), Compare(0), Add(1), Compare(1)];
    assert s1.charges + [c1] == [c0, c1];
    BothTotals(c0, c1);
  }

  lemma BothTotals(c0: Charge, c1: Charge)
    requires c0.verdict == Some(true) && c1.verdict == Some(true)
    ensures Attempted([c0, c1]) == Granted([c0, c1]) == c0.amount + c1.amount
  {
    assert [c0, c1][..1] == [c0] && [c0][..0] == [];
    assert Attempted([c0]) == Granted([c0]) == c0.amount;
  }

  /**
   * The guarantee holds for a bound on the attempted total exactly up to 2^64,
   * exactly below 2^64 at the ceiling of an unlimited budget, and always at zero.
   */
  lemma CeilingHoldsIffNoWrap(ceiling: u64, bound: nat)
    ensures Guaranteed(ceiling, bound) <==> ceiling == 0 || bound < WRAP || (bound == WRAP && ceiling < U64_MAX)
  {
    hide Run, Attempted, Granted;
    if ceiling == 0 {
      forall actions | Run(actions, 0).Some? ensures Granted(Run(actions, 0).value.charges) <= 0 {
        RunInv(actions, 0);
        ZeroGrantsNothing(Run(actions, 0).value.charges);
      }
    } else if bound < WRAP || (bound == WRAP && ceiling < U64_MAX) {
      forall actions | Run(actions, ceiling).Some? && Attempted(Run(actions, ceiling).value.charges) <= bound
        ensures Granted(Run(actions, ceiling).value.charges) <= ceiling
      {
        ChargesStayUnderCeiling(actions, ceiling);
      }
    } else if ceiling == U64_MAX {
      LargestCeilingOvercharges();
    } else {
      WrapAroundOvercharges(ceiling);
    }
  }
}
