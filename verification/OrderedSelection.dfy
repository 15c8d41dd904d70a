/** Which ready commit the topological and date orders take next (crates/gitility-core/src/log.rs). */
module OrderedSelection {
  import opened Basics
  import opened CommitGraph
  import opened OrderedWalks
  import OrderedPruning

  /** A commit that children-first order allows next: not emitted, but every child is. */
  ghost predicate Available(g: Graph, done: set<Oid>, x: Oid) {
    x in g && x !in done && forall n :: HasParent(g, n, x) ==> n in done
  }

  /** The ready commits are exactly the available ones. */
  lemma ReadyIsAvailable(g: Graph, order: seq<Oid>, s: State, x: Oid)
    requires Nodes(g, order) && MainPhase(g, order, s)
    ensures x in ReadyIds(s.ready) <==> Available(g, s.emitted, x)
  {
    hide InDegree;
    InDegreeZero(g, order, s.emitted, x);
    forall n, p | HasParent(g, n, p) ensures n in order {
      assert n in Members(order);
    }
  }

  /** Ready entries carry the times of their commits. */
  ghost predicate Timed(g: Graph, s: State) {
    forall i :: 0 <= i < |s.ready| ==> s.ready[i].id in g && s.ready[i].time == g[s.ready[i].id].time
  }

  /** Releasing parents appends some of them. */
  lemma {:induction false} ReleasedAppends(kind: LogOrder, g: Graph, s: State, parents: seq<Oid>)
    requires s.counts.Keys == g.Keys && forall p :: p in parents ==> p in g
    ensures
      var after := Released(kind, g, s, parents).ready;
      && s.ready <= after
      && forall i :: |s.ready| <= i < |after| ==> after[i].id in parents && after[i].time == g[after[i].id].time
    decreases |parents|
  {
    if parents != [] {
      var p := parents[0];
      var count := SaturatingSub(s.counts[p], 1);
      var s1 := s.(counts := s.counts[p := count]);
      var next := if count == 0 then Pushed(kind, g, s1, p) else s1;
      ReleasedAppends(kind, g, next, parents[1..]);
      var after := Released(kind, g, s, parents).ready;
      forall i | |s.ready| <= i < |after| ensures after[i].id in parents && after[i].time == g[after[i].id].time {
        if i < |next.ready| {
          assert after[i] == next.ready[i];
        } else {
          assert after[i].id in parents[1..];
        }
      }
    }
  }

  lemma StepAppends(kind: LogOrder, g: Graph, order: seq<Oid>, s: State)
    requires Nodes(g, order) && MainPhase(g, order, s) && s.ready != []
    ensures Closed(g) && s.counts.Keys == g.Keys && forall i :: 0 <= i < |s.ready| ==> s.ready[i].id in g
    ensures Step(kind, g, s).Some?
    ensures
      var (id, after) := Step(kind, g, s).value;
      var popped := OrderedPruning.Popped(s, NextReady(kind, s.ready));
      && id == s.ready[NextReady(kind, s.ready)].id && id in g && popped.ready <= after.ready
      && forall i :: |popped.ready| <= i < |after.ready| ==>
           after.ready[i].id in g[id].parents && after.ready[i].id in g && after.ready[i].time == g[after.ready[i].id].time
  {
    hide Released, MainPhase;
    MainInv(g, order, s);
    InvDomain(g, order, s);
    StepReady(kind, g, s);
    var i := NextReady(kind, s.ready);
    ReleasedAppends(kind, g, OrderedPruning.Popped(s, i), g[s.ready[i].id].parents);
  }

  lemma StepKeepsTimed(kind: LogOrder, g: Graph, order: seq<Oid>, s: State)
    requires Nodes(g, order) && MainPhase(g, order, s) && s.ready != [] && Timed(g, s)
    ensures Step(kind, g, s).Some? && Timed(g, Step(kind, g, s).value.1)
  {
    hide MainPhase, Nodes, Step;
    StepAppends(kind, g, order, s);
    var popped, after := OrderedPruning.Popped(s, NextReady(kind, s.ready)), Step(kind, g, s).value.1;
    forall i | 0 <= i < |after.ready| ensures after.ready[i].id in g && after.ready[i].time == g[after.ready[i].id].time {
      if i < |popped.ready| {
        assert after.ready[i] == popped.ready[i];
      }
    }
  }

  lemma {:induction false} QueuedTimed(kind: LogOrder, g: Graph, s: State, ids: seq<Oid>)
    requires Timed(g, s) && forall x :: x in ids ==> x in g
    ensures Timed(g, Queued(kind, g, s, ids))
    decreases |ids|
  {
    if ids != [] {
      QueuedTimed(kind, g, s, ids[..|ids| - 1]);
    }
  }

  // ----- date order

  /** Each commit is one of the newest that were available when it was emitted. */
  ghost predicate NewestNext(g: Graph, done: set<Oid>, main: seq<Oid>) {
    forall k, x :: 0 <= k < |main| && Available(g, done + Members(main[..k]), x) ==> main[k] in g && g[x].time <= g[main[k]].time
  }

  lemma NewestStep(g: Graph, order: seq<Oid>, s: State, x: Oid)
    requires Nodes(g, order) && MainPhase(g, order, s) && s.ready != [] && Timed(g, s) && Available(g, s.emitted, x)
    ensures Step(DateOrder, g, s).Some?
    ensures
      var id := Step(DateOrder, g, s).value.0;
      id in g && g[x].time <= g[id].time
  {
    hide MainPhase, Nodes, Step;
    StepAppends(DateOrder, g, order, s);
    ReadyIsAvailable(g, order, s, x);
    var i := HeapTop(s.ready);
    var j :| 0 <= j < |s.ready| && ReadyIds(s.ready)[j] == x;
    assert !PopsBefore(s.ready[j], s.ready[i]);
  }

  lemma NewestCons(g: Graph, done: set<Oid>, id: Oid, rest: seq<Oid>)
    requires NewestNext(g, done + {id}, rest) && id in g && forall x :: Available(g, done, x) ==> g[x].time <= g[id].time
    ensures NewestNext(g, done, [id] + rest)
  {
    hide HasParent;
    var main := [id] + rest;
    forall k, x | 0 <= k < |main| && Available(g, done + Members(main[..k]), x) ensures main[k] in g && g[x].time <= g[main[k]].time {
      if k == 0 {
        assert done + Members(main[..0]) == done;
      } else {
        PrefixMembers(done, id, rest, k - 1);
        assert main[k] == rest[k - 1];
      }
    }
  }

  lemma PrefixMembers(done: set<Oid>, id: Oid, rest: seq<Oid>, k: nat)
    requires k <= |rest|
    ensures done + Members(([id] + rest)[..k + 1]) == done + {id} + Members(rest[..k])
  {
    assert ([id] + rest)[..k + 1] == [id] + rest[..k];
  }

  lemma {:induction false} DrainNewest(g: Graph, order: seq<Oid>, s: State) returns (main: seq<Oid>)
    requires Nodes(g, order) && MainPhase(g, order, s) && Timed(g, s)
    ensures Inv(g, order, s) && Shape(g, s.emitted, main, Drain(DateOrder, g, order, s)) && NewestNext(g, s.emitted, main)
    decreases |g.Keys - s.emitted|
  {
    hide MainPhase, Nodes, Drain, Step, Shape, Available, Timed;
    MainInv(g, order, s);
    if s.ready == [] {
      main := [];
      ShapeTail(DateOrder, g, order, s);
    } else {
      StepInv(DateOrder, g, order, s);
      MainStep(DateOrder, g, order, s);
      DrainUnfolds(DateOrder, g, order, s);
      StepKeepsTimed(DateOrder, g, order, s);
      var (id, after) := Step(DateOrder, g, s).value;
      forall x | Available(g, s.emitted, x) ensures x in g && g[x].time <= g[id].time {
        NewestStep(g, order, s, x);
        AvailableStored(g, s.emitted, x);
      }
      assert g.Keys - after.emitted == (g.Keys - s.emitted) - {id};
      var rest := DrainNewest(g, order, after);
      main := [id] + rest;
      ShapeCons(g, s.emitted, id, rest, Drain(DateOrder, g, order, after));
      NewestCons(g, s.emitted, id, rest);
    }
  }

  lemma AvailableStored(g: Graph, done: set<Oid>, x: Oid)
    requires Available(g, done, x)
    ensures x in g
  {
  }

  // ----- topological order

  /** While a parent of the commit just emitted is available, the next commit is one of its parents. */
  ghost predicate StaysOnLine(g: Graph, done: set<Oid>, main: seq<Oid>) {
    forall k, x :: 0 <= k < |main| && HasParent(g, main[k], x) && Available(g, done + Members(main[..k + 1]), x) ==>
      k + 1 < |main| && HasParent(g, main[k], main[k + 1])
  }

  /** A released parent lies on top of the stack. */
  lemma LineStep(g: Graph, order: seq<Oid>, s: State, x: Oid)
    requires Nodes(g, order) && MainPhase(g, order, s) && s.ready != []
    requires Step(Topological, g, s).Some?
    requires
      var (id, after) := Step(Topological, g, s).value;
      HasParent(g, id, x) && Available(g, after.emitted, x)
    ensures
      var (id, after) := Step(Topological, g, s).value;
      after.ready != [] && HasParent(g, id, after.ready[|after.ready| - 1].id)
  {
    hide MainPhase, Nodes, Step;
    StepAppends(Topological, g, order, s);
    MainStep(Topological, g, order, s);
    var (id, after) := Step(Topological, g, s).value;
    var popped := OrderedPruning.Popped(s, |s.ready| - 1);
    ReadyIsAvailable(g, order, after, x);
    var j :| 0 <= j < |after.ready| && ReadyIds(after.ready)[j] == x;
    if j < |popped.ready| {
      assert after.ready[j] == popped.ready[j] == s.ready[j];
      assert ReadyIds(s.ready)[j] == x;
      ReadyIsAvailable(g, order, s, x);
    }
  }

  lemma LineCons(g: Graph, done: set<Oid>, id: Oid, rest: seq<Oid>)
    requires StaysOnLine(g, done + {id}, rest)
    requires forall x :: HasParent(g, id, x) && Available(g, done + {id}, x) ==> rest != [] && HasParent(g, id, rest[0])
    ensures StaysOnLine(g, done, [id] + rest)
  {
    hide Available, HasParent;
    var main := [id] + rest;
    forall k, x | 0 <= k < |main| && HasParent(g, main[k], x) && Available(g, done + Members(main[..k + 1]), x)
      ensures k + 1 < |main| && HasParent(g, main[k], main[k + 1])
    {
      PrefixMembers(done, id, rest, k);
      if k == 0 {
        assert done + {id} + Members(rest[..0]) == done + {id};
      } else {
        assert main[k] == rest[k - 1];
      }
    }
  }

  lemma TopologicalNext(g: Graph, order: seq<Oid>, s: State)
    requires Nodes(g, order) && MainPhase(g, order, s) && s.ready != []
    ensures Step(Topological, g, s).Some? && Step(Topological, g, s).value.0 == s.ready[|s.ready| - 1].id
  {
    hide MainPhase, Nodes, Step;
    StepAppends(Topological, g, order, s);
  }

  lemma {:induction false} DrainOnLine(g: Graph, order: seq<Oid>, s: State) returns (main: seq<Oid>)
    requires Nodes(g, order) && MainPhase(g, order, s)
    ensures Inv(g, order, s) && Shape(g, s.emitted, main, Drain(Topological, g, order, s)) && StaysOnLine(g, s.emitted, main)
    ensures s.ready != [] ==> main != [] && main[0] == s.ready[|s.ready| - 1].id
    decreases |g.Keys - s.emitted|
  {
    hide MainPhase, Nodes, Drain, Step, Shape, Available, HasParent;
    MainInv(g, order, s);
    if s.ready == [] {
      main := [];
      ShapeTail(Topological, g, order, s);
    } else {
      StepInv(Topological, g, order, s);
      MainStep(Topological, g, order, s);
      DrainUnfolds(Topological, g, order, s);
      TopologicalNext(g, order, s);
      var (id, after) := Step(Topological, g, s).value;
      assert g.Keys - after.emitted == (g.Keys - s.emitted) - {id};
      var rest := DrainOnLine(g, order, after);
      main := [id] + rest;
      ShapeCons(g, s.emitted, id, rest, Drain(Topological, g, order, after));
      forall x | HasParent(g, id, x) && Available(g, s.emitted + {id}, x) ensures rest != [] && HasParent(g, id, rest[0]) {
        LineStep(g, order, s, x);
      }
      LineCons(g, s.emitted, id, rest);
    }
  }

  // ----- whole walks

  /** The part of an ordered walk before the cyclic residue, which is everything without a cycle. */
  ghost predicate IsMainPart(g: Graph, start: Oid, order: seq<Oid>, kind: LogOrder, main: seq<Oid>)
    requires Exploring(g, start, [], order)
  {
    var out, sub := Output(kind, g, start, order), Restrict(g, order);
    && main <= out && (forall x :: x in main ==> !FromCycle(sub, x)) && (forall x :: x in out[|main|..] ==> FromCycle(sub, x))
    && ((forall x :: !OnCycle(sub, x)) ==> out == main)
  }

  lemma ShapeIsMainPart(g: Graph, start: Oid, order: seq<Oid>, kind: LogOrder, main: seq<Oid>)
    requires Exploring(g, start, [], order) && Shape(Restrict(g, order), {}, main, Output(kind, g, start, order))
    ensures IsMainPart(g, start, order, kind, main)
  {
    hide Shape, Output, FromCycle, OnCycle;
    ShapeMeans(Restrict(g, order), main, Output(kind, g, start, order));
  }

  lemma StartTimed(kind: LogOrder, g: Graph, order: seq<Oid>)
    requires forall x :: x in order ==> x in g
    ensures Timed(g, Start(kind, g, order))
  {
    hide Queued, InDegree;
    var counts := Counts(g, order, {});
    QueuedTimed(kind, g, State(counts, [], 0, {}, []), Zeros(counts, order));
  }

  /** Date order: before any cyclic residue, every commit is among the newest whose children are all out. */
  lemma DateOrderPicksNewest(g: Graph, start: Oid, order: seq<Oid>) returns (main: seq<Oid>)
    requires Exploring(g, start, [], order)
    ensures IsMainPart(g, start, order, DateOrder, main) && NewestNext(Restrict(g, order), {}, main)
  {
    RestrictNodes(g, start, order);
    var sub := Restrict(g, order);
    hide *;
    StartIsMain(DateOrder, sub, order);
    StartTimed(DateOrder, sub, order);
    StartEmpty(DateOrder, sub, order);
    main := DrainNewest(sub, order, Start(DateOrder, sub, order));
    OutputIs(DateOrder, g, start, order);
    ShapeIsMainPart(g, start, order, DateOrder, main);
  }

  /** Topological order: before any cyclic residue, a line of history is followed as long as it can be. */
  lemma TopologicalStaysOnLine(g: Graph, start: Oid, order: seq<Oid>) returns (main: seq<Oid>)
    requires Exploring(g, start, [], order)
    ensures IsMainPart(g, start, order, Topological, main) && StaysOnLine(Restrict(g, order), {}, main)
  {
    RestrictNodes(g, start, order);
    var sub := Restrict(g, order);
    hide *;
    StartIsMain(Topological, sub, order);
    StartEmpty(Topological, sub, order);
    main := DrainOnLine(sub, order, Start(Topological, sub, order));
    OutputIs(Topological, g, start, order);
    ShapeIsMainPart(g, start, order, Topological, main);
  }
}
