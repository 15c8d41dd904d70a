/** Topological and date-ordered commit walks (crates/gitility-core/src/log.rs). */
module OrderedWalks {
  import opened Basics
  import opened CommitGraph

  // ----- the pre-pass

  /** The parents not yet visited, in the order the pre-pass stacks them. */
  function Stacked(parents: seq<Oid>, nodes: seq<Oid>): seq<Oid> {
    if parents == [] then []
    else Stacked(parents[1..], nodes) + (if parents[0] in nodes then [] else [parents[0]])
  }

  function Members(s: seq<Oid>): set<Oid> {
    set x | x in s
  }

  /** Depth-first discovery: the reachable commits in visiting order, or a missing one. */
  function Discover(g: Graph, pending: seq<Oid>, nodes: seq<Oid>): Result<seq<Oid>, Oid>
    decreases |g.Keys - Members(nodes)|, |pending|
  {
    if pending == [] then Ok(nodes)
    else
      var n := |pending| - 1;
      var id := pending[n];
      if id in nodes then Discover(g, pending[..n], nodes)
      else if id !in g then Err(id)
      else
        assert g.Keys - Members(nodes + [id]) == (g.Keys - Members(nodes)) - {id};
        Discover(g, pending[..n] + Stacked(g[id].parents, nodes), nodes + [id])
  }

  lemma {:induction false} StackedMembers(parents: seq<Oid>, nodes: seq<Oid>)
    ensures forall x :: x in Stacked(parents, nodes) <==> x in parents && x !in nodes
  {
    if parents != [] {
      StackedMembers(parents[1..], nodes);
      assert parents == [parents[0]] + parents[1..];
    }
  }

  /** What the pre-pass keeps true of its stack and its visited list. */
  ghost predicate Exploring(g: Graph, start: Oid, pending: seq<Oid>, nodes: seq<Oid>) {
    && Distinct(nodes)
    && (start in nodes || start in pending)
    && (forall x :: x in nodes ==> x in g)
    && (forall x, p :: x in nodes && HasParent(g, x, p) ==> p in nodes || p in pending)
    && (forall x :: x in nodes || x in pending ==> Reaches(g, start, x))
    && (nodes != [] ==> nodes[0] == start)
    && (nodes == [] ==> pending == [start])
  }

  lemma ExploringVisited(g: Graph, start: Oid, pending: seq<Oid>, nodes: seq<Oid>)
    requires Exploring(g, start, pending, nodes) && pending != [] && pending[|pending| - 1] in nodes
    ensures Exploring(g, start, pending[..|pending| - 1], nodes)
  {
    var n := |pending| - 1;
    assert pending == pending[..n] + [pending[n]];
  }

  lemma ExploringNew(g: Graph, start: Oid, pending: seq<Oid>, nodes: seq<Oid>)
    requires Exploring(g, start, pending, nodes) && pending != []
    requires pending[|pending| - 1] !in nodes && pending[|pending| - 1] in g
    ensures
      var n := |pending| - 1;
      Exploring(g, start, pending[..n] + Stacked(g[pending[n]].parents, nodes), nodes + [pending[n]])
  {
    var n := |pending| - 1;
    var id := pending[n];
    var stacked := Stacked(g[id].parents, nodes);
    var pending', nodes' := pending[..n] + stacked, nodes + [id];
    StackedMembers(g[id].parents, nodes);
    assert pending == pending[..n] + [id];
    forall x | x in nodes' || x in pending' ensures Reaches(g, start, x) {
      if x in stacked {
        assert id in pending && HasParent(g, id, x);
        ReachesParent(g, start, id, x);
      } else {
        assert x in nodes || x in pending;
      }
    }
    forall x, p | x in nodes' && HasParent(g, x, p) ensures p in nodes' || p in pending' {
      if x != id {
        assert p in nodes || p in pending;
      }
    }
  }

  /** Discovery finds exactly the reachable commits, or fails at a reachable missing one. */
  lemma {:induction false} DiscoverReachable(g: Graph, start: Oid, pending: seq<Oid>, nodes: seq<Oid>)
    requires Exploring(g, start, pending, nodes)
    ensures
      match Discover(g, pending, nodes)
      case Ok(order) => Exploring(g, start, [], order) && forall x :: x in order <==> Reaches(g, start, x)
      case Err(x) => Reaches(g, start, x) && x !in g
    decreases |g.Keys - Members(nodes)|, |pending|
  {
    hide Exploring, Reaches, HasParent;
    if pending == [] {
      ExploredAll(g, start, nodes);
    } else {
      var n := |pending| - 1;
      var id := pending[n];
      if id in nodes {
        ExploringVisited(g, start, pending, nodes);
        DiscoverReachable(g, start, pending[..n], nodes);
      } else if id !in g {
        ExploringReaches(g, start, pending, nodes, id);
      } else {
        ExploringNew(g, start, pending, nodes);
        assert g.Keys - Members(nodes + [id]) == (g.Keys - Members(nodes)) - {id};
        DiscoverReachable(g, start, pending[..n] + Stacked(g[id].parents, nodes), nodes + [id]);
      }
    }
  }

  lemma ExploringReaches(g: Graph, start: Oid, pending: seq<Oid>, nodes: seq<Oid>, x: Oid)
    requires Exploring(g, start, pending, nodes) && x in pending
    ensures Reaches(g, start, x)
  {
  }

  lemma ExploredAll(g: Graph, start: Oid, nodes: seq<Oid>)
    requires Exploring(g, start, [], nodes)
    ensures forall x :: x in nodes <==> Reaches(g, start, x)
  {
    forall x ensures x in nodes <==> Reaches(g, start, x) {
      if Reaches(g, start, x) {
        ClosedHoldsReachable(g, start, nodes, x);
      }
    }
  }

  // ----- child counts

  /** How many parent links to `p` come from listed commits that are not `done`. */
  function InDegree(g: Graph, order: seq<Oid>, done: set<Oid>, p: Oid): nat {
    if order == [] then 0
    else
      var n := |order| - 1;
      InDegree(g, order[..n], done, p) + (if order[n] in done || order[n] !in g then 0 else multiset(g[order[n]].parents)[p])
  }

  lemma {:induction false} InDegreeSame(g: Graph, order: seq<Oid>, done: set<Oid>, x: Oid, p: Oid)
    requires x !in order
    ensures InDegree(g, order, done, p) == InDegree(g, order, done + {x}, p)
  {
    if order != [] {
      InDegreeSame(g, order[..|order| - 1], done, x, p);
    }
  }

  /** Finishing one commit takes away exactly its own links. */
  lemma {:induction false} InDegreeRemove(g: Graph, order: seq<Oid>, done: set<Oid>, x: Oid, p: Oid)
    requires Distinct(order) && x in order && x !in done && x in g
    ensures InDegree(g, order, done, p) == InDegree(g, order, done + {x}, p) + multiset(g[x].parents)[p]
  {
    var n := |order| - 1;
    if order[n] == x {
      assert x !in order[..n];
      InDegreeSame(g, order[..n], done, x, p);
    } else {
      assert x in order[..n];
      InDegreeRemove(g, order[..n], done, x, p);
    }
  }

  /** No links left means every listed child is done. */
  lemma {:induction false} InDegreeZero(g: Graph, order: seq<Oid>, done: set<Oid>, p: Oid)
    ensures InDegree(g, order, done, p) == 0 <==> forall n :: n in order && n !in done ==> !HasParent(g, n, p)
  {
    if order != [] {
      var m := |order| - 1;
      InDegreeZero(g, order[..m], done, p);
      assert order == order[..m] + [order[m]];
      assert order[m] in order;
    }
  }

  // ----- the walk as a state machine

  /** A commit whose children are all emitted. Only date order uses the sequence number. */
  datatype Ready = Ready(id: Oid, time: int, sequence: nat)

  datatype State = State(
    counts: map<Oid, nat>,
    ready: seq<Ready>,
    nextSequence: nat,
    emitted: set<Oid>,
    residue: seq<Oid>)

  /** Heap order of `TimedOid`: newest first, then first pushed. */
  predicate PopsBefore(a: Ready, b: Ready) {
    a.time > b.time || (a.time == b.time && a.sequence < b.sequence)
  }

  /** The entry a heap pop returns. */
  function HeapTop(ready: seq<Ready>): (i: nat)
    requires ready != []
    ensures i < |ready| && forall j :: 0 <= j < |ready| ==> !PopsBefore(ready[j], ready[i])
  {
    var n := |ready| - 1;
    if n == 0 then 0
    else
      var i := HeapTop(ready[..n]);
      assert forall j :: 0 <= j < n ==> ready[j] == ready[..n][j];
      if PopsBefore(ready[n], ready[i]) then n else i
  }

  /** A stack for topological order, a heap for date order. */
  function NextReady(kind: LogOrder, ready: seq<Ready>): (i: nat)
    requires ready != []
    ensures i < |ready|
  {
    if kind == DateOrder then HeapTop(ready) else |ready| - 1
  }

  function Pushed(kind: LogOrder, g: Graph, s: State, id: Oid): State
    requires id in g
  {
    if kind == DateOrder then
      s.(ready := s.ready + [Ready(id, g[id].time, s.nextSequence)], nextSequence := s.nextSequence + 1)
    else s.(ready := s.ready + [Ready(id, g[id].time, 0)])
  }

  predicate Closed(g: Graph) {
    forall n, p :: n in g && p in g[n].parents ==> p in g
  }

  /** Take one child away from each listed parent, queueing those with none left. */
  function Released(kind: LogOrder, g: Graph, s: State, parents: seq<Oid>): State
    requires s.counts.Keys == g.Keys && forall p :: p in parents ==> p in g
    decreases |parents|
  {
    if parents == [] then s
    else
      var p := parents[0];
      var count := SaturatingSub(s.counts[p], 1);
      var s1 := s.(counts := s.counts[p := count]);
      Released(kind, g, if count == 0 then Pushed(kind, g, s1, p) else s1, parents[1..])
  }

  function Largest(s: set<Oid>): (m: Oid)
    requires s != {}
    ensures m in s && forall x :: x in s ==> x <= m
  {
    HasMaximum(s);
    var m :| m in s && forall x :: x in s ==> x <= m;
    m
  }

  lemma {:induction false} HasMaximum(s: set<Oid>)
    requires s != {}
    ensures exists m :: m in s && forall x :: x in s ==> x <= m
    decreases |s|
  {
    var y :| y in s;
    var rest := s - {y};
    if rest == {} {
      assert s == {y};
      assert y in s && forall x :: x in s ==> x <= y;
    } else {
      HasMaximum(rest);
      var m :| m in rest && forall x :: x in rest ==> x <= m;
      var top := Max(m, y);
      forall x | x in s ensures x <= top {
        assert x == y || x in rest;
      }
      assert top in s;
    }
  }

  /** The members of a finite set in ascending order. */
  function Ascending(s: set<Oid>): (r: seq<Oid>)
    ensures |r| == |s|
    ensures forall x :: x in r <==> x in s
    decreases |s|
  {
    if s == {} then []
    else
      var m := Largest(s);
      Ascending(s - {m}) + [m]
  }

  predicate Increasing(r: seq<Oid>) {
    forall i, j :: 0 <= i < j < |r| ==> r[i] < r[j]
  }

  lemma {:induction false} AscendingIncreases(s: set<Oid>)
    ensures Increasing(Ascending(s))
    decreases |s|
  {
    if s != {} {
      var m := Largest(s);
      var init := Ascending(s - {m});
      AscendingIncreases(s - {m});
      forall i | 0 <= i < |init| ensures init[i] < m {
        assert init[i] in init;
        assert init[i] in s - {m};
      }
    }
  }

  /** `OrderedWalk::next`: a ready commit, or else the next residue commit. */
  function Step(kind: LogOrder, g: Graph, s: State): Option<(Oid, State)>
    requires Closed(g) && s.counts.Keys == g.Keys && forall i :: 0 <= i < |s.ready| ==> s.ready[i].id in g
  {
    if s.ready != [] then
      var i := NextReady(kind, s.ready);
      var id := s.ready[i].id;
      var popped := s.(ready := s.ready[..i] + s.ready[i + 1..], emitted := s.emitted + {id});
      Some((id, Released(kind, g, popped, g[id].parents)))
    else
      var residue := if s.residue == [] && |s.emitted| < |g| then Ascending(g.Keys - s.emitted) else s.residue;
      if residue == [] then None
      else
        var n := |residue| - 1;
        Some((residue[n], s.(residue := residue[..n], emitted := s.emitted + {residue[n]})))
  }

  // ----- the invariant

  function ReadyIds(ready: seq<Ready>): (r: seq<Oid>)
    ensures |r| == |ready| && forall i :: 0 <= i < |r| ==> r[i] == ready[i].id
  {
    seq(|ready|, i requires 0 <= i < |ready| => ready[i].id)
  }

  /** Counts are the target counts plus the links still to release; zero means done or queued. */
  ghost predicate Releasing(g: Graph, s: State, target: map<Oid, nat>, parents: seq<Oid>) {
    && s.counts.Keys == g.Keys && target.Keys == g.Keys
    && (forall p :: p in g ==> s.counts[p] == target[p] + multiset(parents)[p])
    && Distinct(ReadyIds(s.ready))
    && (forall p :: p in ReadyIds(s.ready) ==> p in g && p !in s.emitted)
    && (forall p :: p in g ==> (s.counts[p] == 0 <==> p in s.emitted || p in ReadyIds(s.ready)))
  }

  lemma PushedReady(kind: LogOrder, g: Graph, s: State, id: Oid)
    requires id in g
    ensures ReadyIds(Pushed(kind, g, s, id).ready) == ReadyIds(s.ready) + [id]
    ensures Pushed(kind, g, s, id).counts == s.counts && Pushed(kind, g, s, id).emitted == s.emitted
    ensures Pushed(kind, g, s, id).residue == s.residue
  {
  }

  lemma FirstOnce(parents: seq<Oid>)
    requires parents != []
    ensures forall p :: multiset(parents)[p] == multiset(parents[1..])[p] + if p == parents[0] then 1 else 0
  {
    assert parents == [parents[0]] + parents[1..];
  }

  lemma ReleasingStep(kind: LogOrder, g: Graph, s: State, target: map<Oid, nat>, parents: seq<Oid>)
    requires Releasing(g, s, target, parents) && parents != [] && forall p :: p in parents ==> p in g
    ensures s.counts[parents[0]] >= 1
    ensures
      var p := parents[0];
      var count := SaturatingSub(s.counts[p], 1);
      var s1 := s.(counts := s.counts[p := count]);
      Releasing(g, if count == 0 then Pushed(kind, g, s1, p) else s1, target, parents[1..])
  {
    hide Pushed, ReadyIds, Distinct;
    var p := parents[0];
    FirstOnce(parents);
    var count := SaturatingSub(s.counts[p], 1);
    var s1 := s.(counts := s.counts[p := count]);
    PushedReady(kind, g, s1, p);
    assert s.counts[p] == target[p] + multiset(parents)[p];
    if count == 0 {
      DistinctSnoc(ReadyIds(s.ready), p);
    }
  }

  lemma {:induction false} ReleasedReaches(kind: LogOrder, g: Graph, s: State, target: map<Oid, nat>, parents: seq<Oid>)
    requires Releasing(g, s, target, parents) && forall p :: p in parents ==> p in g
    ensures
      var after := Released(kind, g, s, parents);
      Releasing(g, after, target, []) && after.emitted == s.emitted && after.residue == s.residue
    decreases |parents|
  {
    assert s.counts.Keys == g.Keys;
    hide Releasing;
    if parents != [] {
      ReleasingStep(kind, g, s, target, parents);
      var p := parents[0];
      var count := SaturatingSub(s.counts[p], 1);
      var s1 := s.(counts := s.counts[p := count]);
      PushedReady(kind, g, s1, p);
      ReleasedReaches(kind, g, if count == 0 then Pushed(kind, g, s1, p) else s1, target, parents[1..]);
    }
  }

  /** The child counts of the commits that are not `done`. */
  function Counts(g: Graph, order: seq<Oid>, done: set<Oid>): map<Oid, nat> {
    map p | p in g :: InDegree(g, order, done, p)
  }

  /** While ready commits are being emitted. */
  ghost predicate MainPhase(g: Graph, order: seq<Oid>, s: State) {
    && Releasing(g, s, Counts(g, order, s.emitted), []) && s.emitted <= g.Keys && s.residue == []
  }

  /** While the cyclic residue is being emitted. */
  ghost predicate TailPhase(g: Graph, s: State) {
    && s.ready == [] && s.counts.Keys == g.Keys && s.emitted <= g.Keys
    && s.residue == Ascending(g.Keys - s.emitted)
  }

  /** `order` lists the nodes of the closed graph `g` once each. */
  ghost predicate Nodes(g: Graph, order: seq<Oid>) {
    Closed(g) && Distinct(order) && Members(order) == g.Keys
  }

  ghost predicate Inv(g: Graph, order: seq<Oid>, s: State) {
    Nodes(g, order) && (MainPhase(g, order, s) || TailPhase(g, s))
  }

  lemma MainStep(kind: LogOrder, g: Graph, order: seq<Oid>, s: State)
    requires Nodes(g, order) && MainPhase(g, order, s) && s.ready != []
    ensures
      var (id, after) := Step(kind, g, s).value;
      && MainPhase(g, order, after) && id in g && id !in s.emitted && after.emitted == s.emitted + {id}
      && forall n :: HasParent(g, n, id) ==> n in s.emitted
  {
    hide Released, InDegree, Distinct;
    var i := NextReady(kind, s.ready);
    var id := s.ready[i].id;
    var ids := ReadyIds(s.ready);
    assert ids[i] == id && id in ids;
    assert s.counts[id] == InDegree(g, order, s.emitted, id) == 0;
    InDegreeZero(g, order, s.emitted, id);
    forall n | HasParent(g, n, id) ensures n in s.emitted {
      assert n in Members(order);
    }
    var popped := s.(ready := s.ready[..i] + s.ready[i + 1..], emitted := s.emitted + {id});
    PoppedReleasing(g, order, s, i);
    ReleasedReaches(kind, g, popped, Counts(g, order, popped.emitted), g[id].parents);
  }

  lemma PoppedReleasing(g: Graph, order: seq<Oid>, s: State, i: nat)
    requires Nodes(g, order) && MainPhase(g, order, s) && i < |s.ready|
    ensures
      var id := s.ready[i].id;
      var popped := s.(ready := s.ready[..i] + s.ready[i + 1..], emitted := s.emitted + {id});
      id in g && Releasing(g, popped, Counts(g, order, popped.emitted), g[id].parents)
  {
    var id := s.ready[i].id;
    var ids := ReadyIds(s.ready);
    assert ids[i] == id && id in ids;
    var popped := s.(ready := s.ready[..i] + s.ready[i + 1..], emitted := s.emitted + {id});
    var rest := ReadyIds(popped.ready);
    assert rest == ids[..i] + ids[i + 1..];
    forall p | p in g ensures s.counts[p] == InDegree(g, order, popped.emitted, p) + multiset(g[id].parents)[p] {
      assert id in Members(order);
      InDegreeRemove(g, order, s.emitted, id, p);
    }
    RestMembers(ids, i);
  }

  /** When nothing is ready, every commit left has a child among those left. */
  lemma LeftIsStuck(g: Graph, order: seq<Oid>, s: State)
    requires Nodes(g, order) && MainPhase(g, order, s) && s.ready == []
    ensures Stuck(g, g.Keys - s.emitted)
  {
    var left := g.Keys - s.emitted;
    forall p | p in left ensures HasChildIn(g, left, p) {
      assert InDegree(g, order, s.emitted, p) != 0;
      InDegreeZero(g, order, s.emitted, p);
      var n :| n in order && n !in s.emitted && HasParent(g, n, p);
      assert n in left;
    }
  }

  // ----- whole runs

  /** What is left of the residue when nothing is ready. */
  lemma ResidueIs(g: Graph, order: seq<Oid>, s: State)
    requires Inv(g, order, s) && s.ready == []
    ensures (if s.residue == [] && |s.emitted| < |g| then Ascending(g.Keys - s.emitted) else s.residue)
         == Ascending(g.Keys - s.emitted)
  {
    var left := g.Keys - s.emitted;
    assert s.emitted <= g.Keys && |left| == |g.Keys| - |s.emitted|;
  }

  lemma TailStep(kind: LogOrder, g: Graph, order: seq<Oid>, s: State)
    requires Inv(g, order, s) && s.ready == []
    ensures
      var left := g.Keys - s.emitted;
      if left == {} then Step(kind, g, s) == None
      else
        var step := Step(kind, g, s);
        step.Some? && step.value.0 == Largest(left) && TailPhase(g, step.value.1)
        && step.value.1.emitted == s.emitted + {Largest(left)}
  {
    hide Inv, Step, Ascending, Largest;
    InvDomain(g, order, s);
    var left := g.Keys - s.emitted;
    ResidueIs(g, order, s);
    AscendingSplit(left);
    StepResidue(kind, g, s, Ascending(left));
    if left != {} {
      assert g.Keys - (s.emitted + {Largest(left)}) == left - {Largest(left)};
    }
  }

  lemma StepResidue(kind: LogOrder, g: Graph, s: State, residue: seq<Oid>)
    requires Closed(g) && s.counts.Keys == g.Keys && s.ready == []
    requires residue == if s.residue == [] && |s.emitted| < |g| then Ascending(g.Keys - s.emitted) else s.residue
    ensures residue == [] ==> Step(kind, g, s) == None
    ensures residue != [] ==>
      var n := |residue| - 1;
      Step(kind, g, s) == Some((residue[n], s.(residue := residue[..n], emitted := s.emitted + {residue[n]})))
  {
  }

  lemma AscendingSplit(s: set<Oid>)
    ensures s == {} ==> Ascending(s) == []
    ensures s != {} ==>
      && |Ascending(s)| > 0 && Ascending(s)[|Ascending(s)| - 1] == Largest(s)
      && Ascending(s)[..|Ascending(s)| - 1] == Ascending(s - {Largest(s)})
  {
  }

  lemma NoDifference(a: set<Oid>, b: set<Oid>)
    requires b <= a
    ensures a - b == {} <==> a == b
  {
    if a - b == {} {
      forall x | x in a ensures x in b {
        assert x !in a - b;
      }
    }
  }

  lemma InvDomain(g: Graph, order: seq<Oid>, s: State)
    requires Inv(g, order, s)
    ensures Closed(g) && s.counts.Keys == g.Keys && s.emitted <= g.Keys
    ensures forall i :: 0 <= i < |s.ready| ==> s.ready[i].id in g
  {
    forall i | 0 <= i < |s.ready| ensures s.ready[i].id in g {
      assert ReadyIds(s.ready)[i] in ReadyIds(s.ready);
    }
  }

  /** Every step keeps the invariant and emits a commit not emitted before. */
  lemma StepInv(kind: LogOrder, g: Graph, order: seq<Oid>, s: State)
    requires Inv(g, order, s)
    ensures Closed(g) && s.counts.Keys == g.Keys && forall i :: 0 <= i < |s.ready| ==> s.ready[i].id in g
    ensures Step(kind, g, s).None? <==> s.emitted == g.Keys
    ensures Step(kind, g, s).Some? ==>
      var (id, after) := Step(kind, g, s).value;
      Inv(g, order, after) && id in g && id !in s.emitted && after.emitted == s.emitted + {id}
  {
    hide MainPhase, TailPhase;
    InvDomain(g, order, s);
    if s.ready != [] {
      ReadyIsMain(g, order, s);
      MainStep(kind, g, order, s);
    } else {
      TailStep(kind, g, order, s);
      NoDifference(g.Keys, s.emitted);
    }
  }

  lemma ReadyIsMain(g: Graph, order: seq<Oid>, s: State)
    requires Inv(g, order, s) && s.ready != []
    ensures MainPhase(g, order, s)
  {
  }

  /** Everything the walk still emits, in order. */
  ghost function Drain(kind: LogOrder, g: Graph, order: seq<Oid>, s: State): (r: seq<Oid>)
    requires Inv(g, order, s)
    decreases |g.Keys - s.emitted|
  {
    StepInv(kind, g, order, s);
    var step := Step(kind, g, s);
    if step.None? then []
    else
      assert g.Keys - step.value.1.emitted == (g.Keys - s.emitted) - {step.value.0};
      [step.value.0] + Drain(kind, g, order, step.value.1)
  }

  /** Each commit not yet emitted is emitted exactly once. */
  lemma {:induction false} DrainOnce(kind: LogOrder, g: Graph, order: seq<Oid>, s: State)
    requires Inv(g, order, s)
    ensures Distinct(Drain(kind, g, order, s))
    ensures forall x :: x in Drain(kind, g, order, s) <==> x in g && x !in s.emitted
    decreases |g.Keys - s.emitted|
  {
    hide Inv, Step;
    StepInv(kind, g, order, s);
    var step := Step(kind, g, s);
    if step.Some? {
      assert g.Keys - step.value.1.emitted == (g.Keys - s.emitted) - {step.value.0};
      DrainOnce(kind, g, order, step.value.1);
    }
  }

  function Descending(s: set<Oid>): seq<Oid>
    decreases |s|
  {
    if s == {} then [] else [Largest(s)] + Descending(s - {Largest(s)})
  }

  lemma {:induction false} DrainTail(kind: LogOrder, g: Graph, order: seq<Oid>, s: State)
    requires Inv(g, order, s) && s.ready == []
    ensures Drain(kind, g, order, s) == Descending(g.Keys - s.emitted)
    decreases |g.Keys - s.emitted|
  {
    hide MainPhase, Nodes;
    StepInv(kind, g, order, s);
    TailStep(kind, g, order, s);
    var left := g.Keys - s.emitted;
    if left != {} {
      var after := Step(kind, g, s).value.1;
      assert g.Keys - after.emitted == left - {Largest(left)};
      DrainTail(kind, g, order, after);
    } else {
      assert s.emitted == g.Keys;
    }
  }

  /** A run from the main phase: children first, then the stuck rest in descending order. */
  ghost predicate Shape(g: Graph, done: set<Oid>, main: seq<Oid>, out: seq<Oid>) {
    var rest := g.Keys - done - Members(main);
    && out == main + Descending(rest) && Stuck(g, rest)
    && forall k, n :: 0 <= k < |main| && HasParent(g, n, main[k]) ==> n in done || n in main[..k]
  }

  lemma {:induction false} DrainShape(kind: LogOrder, g: Graph, order: seq<Oid>, s: State) returns (main: seq<Oid>)
    requires Nodes(g, order) && MainPhase(g, order, s)
    ensures Shape(g, s.emitted, main, Drain(kind, g, order, s))
    decreases |g.Keys - s.emitted|
  {
    hide MainPhase, Nodes, Drain, Step, Shape;
    MainInv(g, order, s);
    if s.ready == [] {
      main := [];
      ShapeTail(kind, g, order, s);
    } else {
      StepInv(kind, g, order, s);
      MainStep(kind, g, order, s);
      DrainUnfolds(kind, g, order, s);
      var (id, after) := Step(kind, g, s).value;
      assert g.Keys - after.emitted == (g.Keys - s.emitted) - {id};
      var rest := DrainShape(kind, g, order, after);
      main := [id] + rest;
      ShapeCons(g, s.emitted, id, rest, Drain(kind, g, order, after));
    }
  }

  lemma MainInv(g: Graph, order: seq<Oid>, s: State)
    requires Nodes(g, order) && MainPhase(g, order, s)
    ensures Inv(g, order, s)
  {
  }

  lemma DrainUnfolds(kind: LogOrder, g: Graph, order: seq<Oid>, s: State)
    requires Inv(g, order, s)
    ensures Closed(g) && s.counts.Keys == g.Keys && forall i :: 0 <= i < |s.ready| ==> s.ready[i].id in g
    ensures Step(kind, g, s).None? ==> Drain(kind, g, order, s) == []
    ensures Step(kind, g, s).Some? ==>
      && Inv(g, order, Step(kind, g, s).value.1)
      && Drain(kind, g, order, s) == [Step(kind, g, s).value.0] + Drain(kind, g, order, Step(kind, g, s).value.1)
  {
    hide Inv, Step;
    StepInv(kind, g, order, s);
  }

  lemma ShapeTail(kind: LogOrder, g: Graph, order: seq<Oid>, s: State)
    requires Nodes(g, order) && MainPhase(g, order, s) && s.ready == []
    ensures Shape(g, s.emitted, [], Drain(kind, g, order, s))
  {
    hide MainPhase, Nodes, Drain;
    MainInv(g, order, s);
    DrainTail(kind, g, order, s);
    LeftIsStuck(g, order, s);
    assert g.Keys - s.emitted - Members([]) == g.Keys - s.emitted;
  }

  lemma ShapeCons(g: Graph, done: set<Oid>, id: Oid, rest: seq<Oid>, out: seq<Oid>)
    requires Shape(g, done + {id}, rest, out) && forall n :: HasParent(g, n, id) ==> n in done
    ensures Shape(g, done, [id] + rest, [id] + out)
  {
    hide Stuck, HasParent, Descending;
    var main := [id] + rest;
    assert g.Keys - done - Members(main) == g.Keys - (done + {id}) - Members(rest);
    assert [id] + out == main + out[|rest|..];
    forall k, n | 0 <= k < |main| && HasParent(g, n, main[k]) ensures n in done || n in main[..k] {
      if k > 0 {
        assert main[k] == rest[k - 1] && main[..k] == [id] + rest[..k - 1];
        assert n in done + {id} || n in rest[..k - 1];
        assert main[..k][0] == id;
      } else {
        assert main[0] == id;
      }
    }
  }

  // ----- the start state and the main theorem

  function Restrict(g: Graph, order: seq<Oid>): (r: Graph)
    requires forall x :: x in order ==> x in g
    ensures r.Keys == Members(order) && forall x :: x in r ==> r[x] == g[x]
  {
    map x | x in order :: g[x]
  }

  function Zeros(counts: map<Oid, nat>, order: seq<Oid>): (r: seq<Oid>)
    requires forall x :: x in order ==> x in counts
    ensures forall x :: x in r <==> x in order && counts[x] == 0
    ensures Distinct(order) ==> Distinct(r)
  {
    if order == [] then []
    else
      var n := |order| - 1;
      assert order == order[..n] + [order[n]];
      var init := Zeros(counts, order[..n]);
      if counts[order[n]] == 0 then init + [order[n]] else init
  }

  function Queued(kind: LogOrder, g: Graph, s: State, ids: seq<Oid>): State
    requires forall x :: x in ids ==> x in g
    decreases |ids|
  {
    if ids == [] then s else Pushed(kind, g, Queued(kind, g, s, ids[..|ids| - 1]), ids[|ids| - 1])
  }

  lemma {:induction false} QueuedReady(kind: LogOrder, g: Graph, s: State, ids: seq<Oid>)
    requires forall x :: x in ids ==> x in g
    ensures
      var q := Queued(kind, g, s, ids);
      ReadyIds(q.ready) == ReadyIds(s.ready) + ids && q.counts == s.counts && q.emitted == s.emitted && q.residue == s.residue
    decreases |ids|
  {
    if ids != [] {
      var n := |ids| - 1;
      QueuedReady(kind, g, s, ids[..n]);
      PushedReady(kind, g, Queued(kind, g, s, ids[..n]), ids[n]);
      assert ids == ids[..n] + [ids[n]];
    }
  }

  /** The walk before its first step. */
  function Start(kind: LogOrder, g: Graph, order: seq<Oid>): State
    requires forall x :: x in order ==> x in g
  {
    var counts := Counts(g, order, {});
    Queued(kind, g, State(counts, [], 0, {}, []), Zeros(counts, order))
  }

  lemma StartIsMain(kind: LogOrder, g: Graph, order: seq<Oid>)
    requires Nodes(g, order)
    ensures forall x :: x in order ==> x in g
    ensures MainPhase(g, order, Start(kind, g, order))
  {
    hide InDegree, Queued;
    forall x | x in order ensures x in g {
      assert x in Members(order);
    }
    var counts := Counts(g, order, {});
    var empty := State(counts, [], 0, {}, []);
    QueuedReady(kind, g, empty, Zeros(counts, order));
    assert ReadyIds([]) + Zeros(counts, order) == Zeros(counts, order);
    forall p | p in g ensures p in order {
      assert p in Members(order);
    }
  }

  lemma RestrictNodes(g: Graph, start: Oid, order: seq<Oid>)
    requires Exploring(g, start, [], order)
    ensures Nodes(Restrict(g, order), order)
  {
    forall n, p | n in order && p in g[n].parents ensures p in order {
      assert HasParent(g, n, p);
    }
  }

  /** Only the start commit can be ready before the first step, so sorting the initial queue is moot. */
  lemma OnlyStartIsReady(g: Graph, start: Oid, order: seq<Oid>, p: Oid)
    requires Exploring(g, start, [], order) && p in order
    requires InDegree(Restrict(g, order), order, {}, p) == 0
    ensures p == start
  {
    ExploredAll(g, start, order);
    var path :| PathFromTo(g, path, start, p);
    if |path| > 1 {
      var m := |path| - 2;
      assert HasParent(g, path[m], path[m + 1]);
      assert PathFromTo(g, path[..m + 1], start, path[m]);
      var sub := Restrict(g, order);
      InDegreeZero(sub, order, {}, p);
      assert path[m] in order && HasParent(sub, path[m], p);
    }
  }

  lemma {:induction false} DescendingFalls(s: set<Oid>)
    ensures forall x :: x in Descending(s) <==> x in s
    ensures forall i, j :: 0 <= i < j < |Descending(s)| ==> Descending(s)[i] > Descending(s)[j]
    decreases |s|
  {
    if s != {} {
      var m := Largest(s);
      var rest := Descending(s - {m});
      DescendingFalls(s - {m});
      forall j | 0 <= j < |rest| ensures rest[j] < m {
        assert rest[j] in rest;
      }
    }
  }

  /** The whole output of an ordered walk over the commits reachable from `start`. */
  ghost function Output(kind: LogOrder, g: Graph, start: Oid, order: seq<Oid>): seq<Oid>
    requires Exploring(g, start, [], order)
  {
    RestrictNodes(g, start, order);
    StartIsMain(kind, Restrict(g, order), order);
    Drain(kind, Restrict(g, order), order, Start(kind, Restrict(g, order), order))
  }

  /**
   * The ordered walk emits exactly the reachable commits, each once: first the
   * part `main`, where children come before their parents and nothing comes
   * from a cycle, then everything on or reachable from a cycle, by descending
   * object ID. Without a cycle there is no such residue.
   */
  lemma OrderedWalkCorrect(kind: LogOrder, g: Graph, start: Oid, order: seq<Oid>) returns (main: seq<Oid>)
    requires Exploring(g, start, [], order)
    ensures
      var sub := Restrict(g, order);
      var out := Output(kind, g, start, order);
      && Distinct(out) && (forall x :: x in out <==> Reaches(g, start, x))
      && main <= out && ChildrenFirst(sub, main)
      && (forall x :: x in main ==> !FromCycle(sub, x))
      && (forall x :: x in out[|main|..] ==> FromCycle(sub, x))
      && (forall i, j :: |main| <= i < j < |out| ==> out[i] > out[j])
      && ((forall x :: !OnCycle(sub, x)) ==> out == main)
  {
    ExploredAll(g, start, order);
    RestrictNodes(g, start, order);
    var sub := Restrict(g, order);
    hide *;
    StartIsMain(kind, sub, order);
    var s := Start(kind, sub, order);
    StartEmpty(kind, sub, order);
    MainInv(sub, order, s);
    DrainOnce(kind, sub, order, s);
    main := DrainShape(kind, sub, order, s);
    OutputIs(kind, g, start, order);
    ShapeMeans(sub, main, Drain(kind, sub, order, s));
  }

  lemma OutputIs(kind: LogOrder, g: Graph, start: Oid, order: seq<Oid>)
    requires Exploring(g, start, [], order)
    requires Inv(Restrict(g, order), order, Start(kind, Restrict(g, order), order))
    ensures Output(kind, g, start, order) == Drain(kind, Restrict(g, order), order, Start(kind, Restrict(g, order), order))
  {
    hide Drain, Start, Inv;
  }

  /** What the two parts of a complete run say about cycles. */
  lemma ShapeMeans(g: Graph, main: seq<Oid>, out: seq<Oid>)
    requires Shape(g, {}, main, out)
    ensures main <= out && ChildrenFirst(g, main)
    ensures forall x :: x in main ==> !FromCycle(g, x)
    ensures forall x :: x in out[|main|..] ==> FromCycle(g, x)
    ensures forall i, j :: |main| <= i < j < |out| ==> out[i] > out[j]
    ensures (forall x :: !OnCycle(g, x)) ==> out == main
  {
    hide *;
    ShapeChildren(g, main, out);
    var rest := ShapeRest(g, main, out);
    RestFalls(main, rest, out);
    forall x | x in main ensures !FromCycle(g, x) {
      var k :| 0 <= k < |main| && main[k] == x;
      OrderedIsNotFromCycle(g, main, k);
    }
    forall x | x in rest ensures FromCycle(g, x) {
      StuckIsFromCycle(g, rest, x);
    }
    if forall x :: !OnCycle(g, x) {
      if rest != {} {
        var x :| x in rest;
        HasCycle(g, x);
      }
    }
  }

  lemma ShapeChildren(g: Graph, main: seq<Oid>, out: seq<Oid>)
    requires Shape(g, {}, main, out)
    ensures ChildrenFirst(g, main)
  {
    hide Stuck, Descending, HasParent;
    forall k, n | 0 <= k < |main| && HasParent(g, n, main[k]) ensures n in main[..k] {
      var none: set<Oid> := {};
      assert n in none || n in main[..k];
    }
  }

  lemma ShapeRest(g: Graph, main: seq<Oid>, out: seq<Oid>) returns (rest: set<Oid>)
    requires Shape(g, {}, main, out)
    ensures out == main + Descending(rest) && Stuck(g, rest)
  {
    hide Stuck, Descending, HasParent;
    rest := g.Keys - {} - Members(main);
  }

  lemma RestFalls(main: seq<Oid>, rest: set<Oid>, out: seq<Oid>)
    requires out == main + Descending(rest)
    ensures main <= out && forall x :: x in out[|main|..] <==> x in rest
    ensures forall i, j :: |main| <= i < j < |out| ==> out[i] > out[j]
    ensures rest == {} ==> out == main
  {
    DescendingFalls(rest);
    assert out[|main|..] == Descending(rest);
    forall i, j | |main| <= i < j < |out| ensures out[i] > out[j] {
      assert out[i] == Descending(rest)[i - |main|] && out[j] == Descending(rest)[j - |main|];
    }
  }

  lemma HasCycle(g: Graph, x: Oid)
    requires FromCycle(g, x)
    ensures exists c :: OnCycle(g, c)
  {
  }

  lemma StartEmpty(kind: LogOrder, g: Graph, order: seq<Oid>)
    requires forall x :: x in order ==> x in g
    ensures Start(kind, g, order).emitted == {}
  {
    var counts := Counts(g, order, {});
    QueuedReady(kind, g, State(counts, [], 0, {}, []), Zeros(counts, order));
  }

  // ----- the imperative walk

  /** Stacks the unvisited parents, the last one first. */
  method StackParents(pending: seq<Oid>, parents: seq<Oid>, nodes: seq<Oid>) returns (r: seq<Oid>)
    ensures r == pending + Stacked(parents, nodes)
  {
    r := pending;
    var k := |parents|;
    assert parents[k..] == [] && r == pending + Stacked(parents[k..], nodes);
    while k > 0
      invariant 0 <= k <= |parents| && r == pending + Stacked(parents[k..], nodes)
    {
      k := k - 1;
      assert parents[k..][1..] == parents[k + 1..];
      if parents[k] !in nodes {
        r := r + [parents[k]];
      }
    }
    assert parents[0..] == parents;
  }

  /** The pre-pass loop of `OrderedWalk::new`. */
  method Prepass(g: Graph, start: Oid) returns (r: Result<seq<Oid>, Oid>)
    ensures r == Discover(g, [start], [])
  {
    hide Discover, Stacked;
    var pending, nodes := [start], [];
    while pending != []
      invariant Discover(g, pending, nodes) == Discover(g, [start], [])
      decreases |g.Keys - Members(nodes)|, |pending|
    {
      DiscoverUnfolds(g, pending, nodes);
      var n := |pending| - 1;
      var id := pending[n];
      pending := pending[..n];
      if id in nodes { continue; }
      if id !in g { return Err(id); }
      pending := StackParents(pending, g[id].parents, nodes);
      NewNode(g, nodes, id);
      nodes := nodes + [id];
    }
    DiscoverUnfolds(g, pending, nodes);
    return Ok(nodes);
  }

  lemma DiscoverUnfolds(g: Graph, pending: seq<Oid>, nodes: seq<Oid>)
    ensures pending == [] ==> Discover(g, pending, nodes) == Ok(nodes)
    ensures pending != [] ==>
      var n := |pending| - 1;
      var id := pending[n];
      Discover(g, pending, nodes) ==
        if id in nodes then Discover(g, pending[..n], nodes)
        else if id !in g then Err(id)
        else Discover(g, pending[..n] + Stacked(g[id].parents, nodes), nodes + [id])
  {
  }

  lemma NewNode(g: Graph, nodes: seq<Oid>, id: Oid)
    requires id in g && id !in nodes
    ensures |g.Keys - Members(nodes + [id])| < |g.Keys - Members(nodes)|
  {
    assert g.Keys - Members(nodes + [id]) == (g.Keys - Members(nodes)) - {id};
    assert id in g.Keys - Members(nodes);
  }

  /** The child-count loops of `OrderedWalk::new`. */
  method CountChildren(g: Graph, order: seq<Oid>) returns (counts: map<Oid, nat>)
    requires forall x :: x in order ==> x in g
    ensures counts == Counts(g, order, {})
  {
    counts := map p | p in g :: 0;
    assert order[..0] == [];
    for i := 0 to |order|
      invariant counts.Keys == g.Keys && forall p :: p in g ==> counts[p] == InDegree(g, order[..i], {}, p)
    {
      counts := CountParents(counts, g[order[i]].parents);
      assert order[..i + 1][..i] == order[..i];
    }
    assert order[..|order|] == order;
  }

  method CountParents(before: map<Oid, nat>, parents: seq<Oid>) returns (counts: map<Oid, nat>)
    ensures counts.Keys == before.Keys
    ensures forall p :: p in counts ==> counts[p] == before[p] + multiset(parents)[p]
  {
    counts := before;
    for j := 0 to |parents|
      invariant counts.Keys == before.Keys && forall p :: p in counts ==> counts[p] == before[p] + multiset(parents[..j])[p]
    {
      assert parents[..j + 1] == parents[..j] + [parents[j]];
      if parents[j] in counts {
        counts := counts[parents[j] := counts[parents[j]] + 1];
      }
    }
    assert parents[..|parents|] == parents;
  }

  function WalkedOf(g: Graph, ids: seq<Oid>): (r: seq<Walked>)
    requires forall x :: x in ids ==> x in g
    ensures |r| == |ids| && forall i :: 0 <= i < |r| ==> r[i] == Walked(ids[i], g[ids[i]].time)
  {
    seq(|ids|, i requires 0 <= i < |ids| && ids[i] in g => Walked(ids[i], g[ids[i]].time))
  }

  class OrderedWalk {
    const kind: LogOrder
    const nodes: Graph
    const order: seq<Oid>
    var childCounts: map<Oid, nat>
    var queue: seq<Ready>
    var nextSequence: nat
    var emitted: set<Oid>
    var residue: seq<Oid>

    ghost function Abs(): State
      reads this
    {
      State(childCounts, queue, nextSequence, emitted, residue)
    }

    ghost predicate Valid()
      reads this
    {
      Inv(nodes, order, Abs())
    }

    /** The object IDs still to come. */
    ghost function Left(): (r: seq<Oid>)
      requires Valid()
      reads this
      ensures forall x :: x in r <==> x in nodes && x !in emitted
    {
      DrainOnce(kind, nodes, order, Abs());
      Drain(kind, nodes, order, Abs())
    }

    ghost function Remaining(): seq<Walked>
      requires Valid()
      reads this
    {
      WalkedOf(nodes, Left())
    }

    /** The part of `OrderedWalk::new` after the pre-pass found `order`. */
    constructor (kind: LogOrder, g: Graph, order: seq<Oid>)
      requires Nodes(g, order)
      ensures Valid() && this.kind == kind && this.nodes == g && this.order == order && Abs() == Start(kind, g, order)
    {
      StartIsMain(kind, g, order);
      MainInv(g, order, Start(kind, g, order));
      hide *;
      var counts := CountChildren(g, order);
      var initial := Zeros(counts, order);
      var ready, sequence := InitialQueue(kind, g, initial, counts);
      this.kind, this.nodes, this.order := kind, g, order;
      childCounts, queue, nextSequence := counts, ready, sequence;
      emitted, residue := {}, [];
      new;
      StartIs(kind, g, order);
    }

    /** `OrderedWalk::next`: the next commit of the output; no parent lacks a count. */
    method Next() returns (r: Option<Walked>)
      requires Valid()
      modifies this
      ensures Valid()
      ensures old(Remaining()) == [] ==> r == None && Remaining() == []
      ensures old(Remaining()) != [] ==> r == Some(old(Remaining())[0]) && Remaining() == old(Remaining())[1..]
    {
      hide Inv, Step, Drain, WalkedOf, Closed;
      StepInv(kind, nodes, order, Abs());
      DrainUnfolds(kind, nodes, order, Abs());
      ghost var before := Left();
      var id := Advance();
      if id.None? {
        assert before == [] && Left() == [];
        return None;
      }
      assert before == [id.value] + Left();
      WalkedCons(nodes, id.value, Left());
      return Some(Walked(id.value, nodes[id.value].time));
    }

    /** One transition of the state machine. */
    method Advance() returns (r: Option<Oid>)
      requires Closed(nodes) && childCounts.Keys == nodes.Keys && forall i :: 0 <= i < |queue| ==> queue[i].id in nodes
      modifies this
      ensures
        var step := Step(kind, nodes, old(Abs()));
        if step.None? then r == None && Abs() == old(Abs())
        else r == Some(step.value.0) && Abs() == step.value.1
    {
      hide Step, Released, Ascending, Closed, NextReady;
      if queue != [] {
        var id := PopReady();
        return Some(id);
      }
      r := PopResidue();
    }

    /** The next ready commit: the newest for date order, the last pushed otherwise. */
    method PopReady() returns (id: Oid)
      requires Closed(nodes) && childCounts.Keys == nodes.Keys && queue != [] && forall i :: 0 <= i < |queue| ==> queue[i].id in nodes
      modifies this
      ensures Step(kind, nodes, old(Abs())) == Some((id, Abs()))
    {
      hide Step, Released, Closed, NextReady;
      StepReady(kind, nodes, Abs());
      var i := NextReady(kind, queue);
      id := queue[i].id;
      queue := queue[..i] + queue[i + 1..];
      emitted := emitted + {id};
      Release(id);
    }

    /** The next residue commit, computing the residue the first time. */
    method PopResidue() returns (r: Option<Oid>)
      requires Closed(nodes) && childCounts.Keys == nodes.Keys && queue == []
      modifies this
      ensures
        var step := Step(kind, nodes, old(Abs()));
        if step.None? then r == None && Abs() == old(Abs())
        else r == Some(step.value.0) && Abs() == step.value.1
    {
      hide Step, Released, Ascending, Closed, NextReady;
      ghost var before := Abs();
      if residue == [] && |emitted| < |nodes| {
        residue := Ascending(nodes.Keys - emitted);
      }
      StepResidue(kind, nodes, before, residue);
      if residue == [] { return None; }
      var n := |residue| - 1;
      var id := residue[n];
      residue := residue[..n];
      emitted := emitted + {id};
      return Some(id);
    }

    /** Decrement the child counts of an emitted commit's parents and queue those that reach zero. */
    method Release(id: Oid)
      requires Closed(nodes) && childCounts.Keys == nodes.Keys && id in nodes
      modifies this
      ensures Abs() == Released(kind, nodes, old(Abs()), nodes[id].parents)
    {
      hide Released, Closed;
      var parents := nodes[id].parents;
      ParentsStored(nodes, id);
      assert parents[0..] == parents;
      for j := 0 to |parents|
        invariant childCounts.Keys == nodes.Keys
        invariant Released(kind, nodes, Abs(), parents[j..]) == Released(kind, nodes, old(Abs()), parents)
      {
        var parent := parents[j];
        assert parents[j..][0] == parent && parents[j..][1..] == parents[j + 1..];
        ReleasedUnfold(kind, nodes, Abs(), parents[j..]);
        var count := SaturatingSub(childCounts[parent], 1);
        childCounts := childCounts[parent := count];
        if count == 0 {
          if kind == DateOrder {
            queue := queue + [Ready(parent, nodes[parent].time, nextSequence)];
            nextSequence := nextSequence + 1;
          } else {
            queue := queue + [Ready(parent, nodes[parent].time, 0)];
          }
        }
      }
      ReleasedNone(kind, nodes, Abs());
      assert parents[|parents|..] == [];
    }

    /** `OrderedWalk::has_matching`: exact for what the walk still emits. */
    method HasMatching(opts: LogOptions) returns (b: bool)
      requires Valid()
      ensures b <==> exists i :: 0 <= i < |Remaining()| && WithinTimeBounds(Remaining()[i].time, opts)
    {
      hide Inv, Drain;
      b := exists id :: id in nodes && id !in emitted && WithinTimeBounds(nodes[id].time, opts);
      if b {
        ghost var id :| id in nodes && id !in emitted && WithinTimeBounds(nodes[id].time, opts);
        assert id in Left();
        ghost var i :| 0 <= i < |Left()| && Left()[i] == id;
        assert Remaining()[i].time == nodes[id].time;
      } else {
        forall i | 0 <= i < |Remaining()| ensures !WithinTimeBounds(Remaining()[i].time, opts) {
          assert Left()[i] in Left();
        }
      }
    }
  }

  lemma WalkedCons(g: Graph, id: Oid, ids: seq<Oid>)
    requires id in g && forall x :: x in ids ==> x in g
    ensures forall x :: x in [id] + ids ==> x in g
    ensures WalkedOf(g, [id] + ids) == [Walked(id, g[id].time)] + WalkedOf(g, ids)
  {
  }

  /** Queue the initially ready commits. */
  method InitialQueue(kind: LogOrder, g: Graph, initial: seq<Oid>, ghost counts: map<Oid, nat>)
    returns (ready: seq<Ready>, sequence: nat)
    requires forall x :: x in initial ==> x in g
    ensures State(counts, ready, sequence, {}, []) == Queued(kind, g, State(counts, [], 0, {}, []), initial)
  {
    ready, sequence := [], 0;
    ghost var empty := State(counts, [], 0, {}, []);
    assert initial[..0] == [];
    for i := 0 to |initial|
      invariant State(counts, ready, sequence, {}, []) == Queued(kind, g, empty, initial[..i])
    {
      assert initial[..i + 1][..i] == initial[..i];
      if kind == DateOrder {
        ready := ready + [Ready(initial[i], g[initial[i]].time, sequence)];
        sequence := sequence + 1;
      } else {
        ready := ready + [Ready(initial[i], g[initial[i]].time, 0)];
      }
    }
    assert initial[..|initial|] == initial;
  }

  lemma StartIs(kind: LogOrder, g: Graph, order: seq<Oid>)
    requires forall x :: x in order ==> x in g
    ensures
      var counts := Counts(g, order, {});
      && (forall x :: x in order ==> x in counts)
      && (forall x :: x in Zeros(counts, order) ==> x in g)
      && Start(kind, g, order) == Queued(kind, g, State(counts, [], 0, {}, []), Zeros(counts, order))
  {
  }

  lemma ParentsStored(g: Graph, id: Oid)
    requires Closed(g) && id in g
    ensures forall p :: p in g[id].parents ==> p in g
  {
  }

  lemma ReleasedUnfold(kind: LogOrder, g: Graph, s: State, parents: seq<Oid>)
    requires s.counts.Keys == g.Keys && parents != [] && forall p :: p in parents ==> p in g
    ensures
      var p := parents[0];
      var count := SaturatingSub(s.counts[p], 1);
      var s1 := s.(counts := s.counts[p := count]);
      Released(kind, g, s, parents) == Released(kind, g, if count == 0 then Pushed(kind, g, s1, p) else s1, parents[1..])
  {
  }

  lemma ReleasedNone(kind: LogOrder, g: Graph, s: State)
    requires s.counts.Keys == g.Keys
    ensures Released(kind, g, s, []) == s
  {
  }

  lemma StepReady(kind: LogOrder, g: Graph, s: State)
    requires Closed(g) && s.counts.Keys == g.Keys && (forall i :: 0 <= i < |s.ready| ==> s.ready[i].id in g) && s.ready != []
    ensures
      var i := NextReady(kind, s.ready);
      var id := s.ready[i].id;
      var popped := s.(ready := s.ready[..i] + s.ready[i + 1..], emitted := s.emitted + {id});
      Step(kind, g, s) == Some((id, Released(kind, g, popped, g[id].parents)))
  {
  }
}
