/** The committer-time priority walk (crates/gitility-core/src/log.rs). */
module ChronologicalWalks {
  import opened Basics
  import opened CommitGraph
  import opened OrderedWalks

  /**
   * The walk's state. A heap entry's metadata is the store's entry for its ID,
   * so entries carry only ID, time and push sequence. `pending` is a missing
   * parent to report on the next call.
   */
  datatype Priority = Priority(queue: seq<Ready>, seen: set<Oid>, nextSequence: nat, pending: Option<Oid>)

  function Begin(g: Graph, start: Oid): Priority
    requires start in g
  {
    Priority([Ready(start, g[start].time, 0)], {start}, 1, None)
  }

  /** Push the parents not seen before, up to the first one missing from the store. */
  function Enqueued(g: Graph, s: Priority, parents: seq<Oid>): Priority
    decreases |parents|
  {
    if parents == [] then s
    else
      var p := parents[0];
      if p in s.seen then Enqueued(g, s, parents[1..])
      else if p !in g then s.(seen := s.seen + {p}, pending := Some(p))
      else Enqueued(g, Pushing(g, s, p), parents[1..])
  }

  function Pushing(g: Graph, s: Priority, p: Oid): Priority
    requires p in g
  {
    s.(queue := s.queue + [Ready(p, g[p].time, s.nextSequence)], seen := s.seen + {p}, nextSequence := s.nextSequence + 1)
  }

  /** Every queued entry is a stored commit with its own time, queued once, and seen. */
  ghost predicate WellQueued(g: Graph, s: Priority) {
    && Distinct(ReadyIds(s.queue))
    && forall i :: 0 <= i < |s.queue| ==>
         var e := s.queue[i];
         e.id in g && e.id in s.seen && e.time == g[e.id].time
  }

  function Popping(s: Priority): (Oid, Priority)
    requires s.queue != []
  {
    var i := HeapTop(s.queue);
    (s.queue[i].id, s.(queue := s.queue[..i] + s.queue[i + 1..]))
  }

  /** `ChronologicalWalk::next` when no error is pending. */
  function Visit(g: Graph, s: Priority): (Oid, Priority)
    requires s.queue != [] && HeapTop(s.queue) < |s.queue| && s.queue[HeapTop(s.queue)].id in g
  {
    var (id, popped) := Popping(s);
    (id, Enqueued(g, popped, g[id].parents))
  }

  lemma PushingWellQueued(g: Graph, s: Priority, p: Oid)
    requires WellQueued(g, s) && p in g && p !in s.seen
    ensures WellQueued(g, Pushing(g, s, p))
    ensures ReadyIds(Pushing(g, s, p).queue) == ReadyIds(s.queue) + [p]
  {
    var ids := ReadyIds(s.queue);
    forall i | 0 <= i < |ids| ensures ids[i] != p {
      assert s.queue[i].id in s.seen;
    }
    DistinctSnoc(ids, p);
    assert ReadyIds(Pushing(g, s, p).queue) == ids + [p];
  }

  /** What pushing parents does: the queue grows by unseen stored parents, all marked seen. */
  lemma {:induction false} EnqueuedGrows(g: Graph, s: Priority, parents: seq<Oid>)
    requires WellQueued(g, s)
    ensures
      var t := Enqueued(g, s, parents);
      && WellQueued(g, t) && s.queue <= t.queue && s.seen <= t.seen
      && (forall x :: x in t.seen ==> x in s.seen || x in parents)
      && (forall i :: |s.queue| <= i < |t.queue| ==> t.queue[i].id in parents && t.queue[i].id !in s.seen)
      && (forall x :: x in t.seen && x !in s.seen && t.pending != Some(x) ==> x in ReadyIds(t.queue))
      && (t.pending != s.pending ==> t.pending.Some? && t.pending.value in parents && t.pending.value !in g)
      && (t.pending.None? ==> forall x :: x in parents ==> x in t.seen)
      && (s.pending.None? && (forall x :: x in parents ==> x in g) ==> t.pending.None?)
    decreases |parents|
  {
    if parents != [] {
      var p := parents[0];
      assert parents == [p] + parents[1..];
      if p in s.seen {
        EnqueuedGrows(g, s, parents[1..]);
      } else if p in g {
        PushingWellQueued(g, s, p);
        EnqueuedGrows(g, Pushing(g, s, p), parents[1..]);
        hide Distinct, WellQueued;
        var u, t := Pushing(g, s, p), Enqueued(g, s, parents);
        assert u.queue[|s.queue|].id == p && t.queue[|s.queue|] == u.queue[|s.queue|];
        assert ReadyIds(t.queue)[|s.queue|] == p;
      }
    }
  }

  lemma PoppingWellQueued(g: Graph, s: Priority)
    requires WellQueued(g, s) && s.queue != []
    ensures
      var (id, popped) := Popping(s);
      && WellQueued(g, popped) && id in g && id in s.seen && popped.seen == s.seen && popped.pending == s.pending
      && |popped.queue| == |s.queue| - 1 && popped.nextSequence == s.nextSequence
      && (forall x :: x in ReadyIds(popped.queue) <==> x in ReadyIds(s.queue) && x != id)
      && id in ReadyIds(s.queue)
      && (forall i :: 0 <= i < |popped.queue| ==> popped.queue[i].time <= g[id].time)
  {
    var i := HeapTop(s.queue);
    var ids := ReadyIds(s.queue);
    var rest := s.queue[..i] + s.queue[i + 1..];
    assert ids[i] == s.queue[i].id;
    assert ReadyIds(rest) == ids[..i] + ids[i + 1..];
    RestMembers(ids, i);
    forall j | 0 <= j < |rest| ensures rest[j] == s.queue[if j < i then j else j + 1] {
    }
    forall j | 0 <= j < |rest| ensures rest[j].time <= s.queue[i].time {
      assert !PopsBefore(s.queue[if j < i then j else j + 1], s.queue[i]);
    }
  }

  /** One visit: the popped commit leaves the queue for good, its stored parents are seen. */
  lemma VisitKeeps(g: Graph, s: Priority)
    requires WellQueued(g, s) && s.queue != []
    ensures s.queue[HeapTop(s.queue)].id in g
    ensures
      var (id, t) := Visit(g, s);
      && WellQueued(g, t) && id in g && id in ReadyIds(s.queue) && id !in ReadyIds(t.queue) && s.seen <= t.seen
      && (forall x :: x in ReadyIds(s.queue) && x != id ==> x in ReadyIds(t.queue))
      && (forall x :: x in ReadyIds(t.queue) ==> x in ReadyIds(s.queue) || (x in g[id].parents && x !in s.seen))
      && (|t.queue| < |s.queue| || |g.Keys - t.seen| < |g.Keys - s.seen|) && g.Keys - t.seen <= g.Keys - s.seen
  {
    PoppingWellQueued(g, s);
    var (id, popped) := Popping(s);
    EnqueuedGrows(g, popped, g[id].parents);
    var t := Enqueued(g, popped, g[id].parents);
    hide Popping, Enqueued, Distinct, HeapTop;
    forall x | x in ReadyIds(popped.queue) ensures x in ReadyIds(t.queue) {
      var i :| 0 <= i < |popped.queue| && ReadyIds(popped.queue)[i] == x;
      assert t.queue[i] == popped.queue[i] && ReadyIds(t.queue)[i] == x;
    }
    forall x | x in ReadyIds(t.queue) ensures x in ReadyIds(popped.queue) || (x in g[id].parents && x !in s.seen) {
      var i :| 0 <= i < |t.queue| && ReadyIds(t.queue)[i] == x;
      if i < |popped.queue| {
        assert t.queue[i] == popped.queue[i] && ReadyIds(popped.queue)[i] == x;
      }
    }
    if |t.queue| >= |s.queue| {
      var last := t.queue[|t.queue| - 1].id;
      assert last in g && last !in s.seen && last in t.seen;
      Shrinks(g.Keys - t.seen, g.Keys - s.seen, last);
    }
  }

  lemma Shrinks(a: set<Oid>, b: set<Oid>, x: Oid)
    requires a <= b && x in b && x !in a
    ensures |a| < |b|
  {
    assert a <= b - {x};
    SubsetSize(a, b - {x});
  }

  lemma {:induction false} SubsetSize(a: set<Oid>, b: set<Oid>)
    requires a <= b
    ensures |a| <= |b|
    decreases |a|
  {
    if a != {} {
      var x :| x in a;
      SubsetSize(a - {x}, b - {x});
    }
  }

  /** The commits still to come, up to a missing parent. */
  ghost function Rest(g: Graph, s: Priority): (r: seq<Oid>)
    requires WellQueued(g, s)
    decreases |g.Keys - s.seen|, |s.queue|
  {
    if s.queue == [] || s.pending.Some? then []
    else
      VisitKeeps(g, s);
      SubsetSize(g.Keys - Visit(g, s).1.seen, g.Keys - s.seen);
      [Visit(g, s).0] + Rest(g, Visit(g, s).1)
  }

  // ----- every reachable commit, once

  /** What is seen is reachable, and what left the queue has its parents seen. */
  ghost predicate Tracks(g: Graph, start: Oid, s: Priority) {
    && start in s.seen
    && (forall x :: x in s.seen ==> Reaches(g, start, x))
    && (forall x, p :: x in s.seen && x !in ReadyIds(s.queue) && HasParent(g, x, p) ==> p in s.seen)
  }

  ghost predicate Healthy(g: Graph, start: Oid, s: Priority) {
    WellQueued(g, s) && Tracks(g, start, s) && s.pending.None?
  }

  lemma BeginHealthy(g: Graph, start: Oid)
    requires start in g
    ensures Healthy(g, start, Begin(g, start))
  {
    ReachesSelf(g, start);
    assert ReadyIds(Begin(g, start).queue)[0] == start;
  }

  /** On a complete store no parent is ever missing. */
  lemma VisitHealthy(g: Graph, start: Oid, s: Priority)
    requires Complete(g, start) && Healthy(g, start, s) && s.queue != []
    ensures s.queue[HeapTop(s.queue)].id in g
    ensures Healthy(g, start, Visit(g, s).1)
  {
    VisitKeeps(g, s);
    PoppingWellQueued(g, s);
    var (id, popped) := Popping(s);
    var parents := g[id].parents;
    forall p | p in parents ensures Reaches(g, start, p) && p in g {
      assert HasParent(g, id, p);
      ReachesParent(g, start, id, p);
    }
    EnqueuedGrows(g, popped, parents);
    var t := Enqueued(g, popped, parents);
    hide Popping, Enqueued, Reaches, Complete, WellQueued, HeapTop;
    forall x, p | x in t.seen && x !in ReadyIds(t.queue) && HasParent(g, x, p) ensures p in t.seen {
      if x != id {
        assert x in s.seen && x !in ReadyIds(s.queue);
      }
    }
  }

  /** The rest of a healthy walk emits every reachable commit that already left the queue never, the others once. */
  lemma {:induction false} RestOnce(g: Graph, start: Oid, s: Priority)
    requires Complete(g, start) && Healthy(g, start, s)
    ensures Distinct(Rest(g, s))
    ensures forall x :: x in Rest(g, s) <==> Reaches(g, start, x) && (x !in s.seen || x in ReadyIds(s.queue))
    decreases |g.Keys - s.seen|, |s.queue|
  {
    hide Visit, Rest, Reaches, Complete, WellQueued, HeapTop, Distinct;
    if s.queue == [] {
      SeenAll(g, start, s);
      NothingLeft(g, s);
      EmptyDistinct();
    } else {
      VisitHealthy(g, start, s);
      VisitKeeps(g, s);
      SubsetSize(g.Keys - Visit(g, s).1.seen, g.Keys - s.seen);
      var (id, t) := Visit(g, s);
      RestOnce(g, start, t);
      VisitSees(g, s);
      RestUnfolds(g, s);
      SeenReaches(g, start, s, id);
      MovesOver(g, start, s, t, id, Rest(g, t));
      DistinctCons(id, Rest(g, t));
    }
  }

  lemma EmptyDistinct()
    ensures Distinct<Oid>([])
  {
  }

  lemma SeenReaches(g: Graph, start: Oid, s: Priority, id: Oid)
    requires Healthy(g, start, s) && id in ReadyIds(s.queue)
    ensures id in s.seen && Reaches(g, start, id)
  {
    var i :| 0 <= i < |s.queue| && ReadyIds(s.queue)[i] == id;
    assert s.queue[i].id in s.seen;
  }

  /** The bookkeeping of one visit: `id` moves from the queue to the output. */
  lemma MovesOver(g: Graph, start: Oid, s: Priority, t: Priority, id: Oid, rest: seq<Oid>)
    requires id in ReadyIds(s.queue) && id !in ReadyIds(t.queue) && id in t.seen && Reaches(g, start, id)
    requires s.seen <= t.seen
    requires forall x :: x in ReadyIds(s.queue) && x != id ==> x in ReadyIds(t.queue)
    requires forall x :: x in ReadyIds(t.queue) ==> x in ReadyIds(s.queue) || x !in s.seen
    requires forall x :: x in t.seen && x !in s.seen ==> x in ReadyIds(t.queue)
    requires forall x :: x in rest <==> Reaches(g, start, x) && (x !in t.seen || x in ReadyIds(t.queue))
    ensures id !in rest
    ensures forall x :: x in [id] + rest <==> Reaches(g, start, x) && (x !in s.seen || x in ReadyIds(s.queue))
  {
    hide Reaches, ReadyIds;
  }

  lemma DistinctCons(id: Oid, rest: seq<Oid>)
    requires Distinct(rest) && id !in rest
    ensures Distinct([id] + rest)
  {
  }

  lemma RestUnfolds(g: Graph, s: Priority)
    requires WellQueued(g, s) && s.queue != [] && s.pending.None?
    ensures s.queue[HeapTop(s.queue)].id in g && WellQueued(g, Visit(g, s).1)
    ensures Rest(g, s) == [Visit(g, s).0] + Rest(g, Visit(g, s).1)
  {
    VisitKeeps(g, s);
  }

  lemma VisitSees(g: Graph, s: Priority)
    requires WellQueued(g, s) && s.queue != [] && s.queue[HeapTop(s.queue)].id in g
    ensures
      var (id, t) := Visit(g, s);
      && id in t.seen
      && forall x :: x in t.seen && x !in s.seen && t.pending.None? ==> x in ReadyIds(t.queue)
  {
    PoppingWellQueued(g, s);
    var (id, popped) := Popping(s);
    EnqueuedGrows(g, popped, g[id].parents);
  }

  lemma SeenAll(g: Graph, start: Oid, s: Priority)
    requires Healthy(g, start, s) && s.queue == []
    ensures forall x :: Reaches(g, start, x) ==> x in s.seen
  {
    var seen := Ascending(s.seen);
    forall x | Reaches(g, start, x) ensures x in s.seen {
      ClosedHoldsReachable(g, start, seen, x);
    }
  }

  // ----- time order and `since` pruning

  /** No parent is newer than its child. */
  ghost predicate ParentsOlder(g: Graph) {
    forall n, p :: HasParent(g, n, p) && p in g ==> g[p].time <= g[n].time
  }

  ghost predicate QueuedAtMost(s: Priority, bound: int) {
    forall i :: 0 <= i < |s.queue| ==> s.queue[i].time <= bound
  }

  lemma VisitAtMost(g: Graph, s: Priority)
    requires WellQueued(g, s) && s.queue != [] && ParentsOlder(g)
    ensures s.queue[HeapTop(s.queue)].id in g
    ensures QueuedAtMost(Visit(g, s).1, g[Visit(g, s).0].time)
  {
    VisitKeeps(g, s);
    PoppingWellQueued(g, s);
    var (id, popped) := Popping(s);
    EnqueuedGrows(g, popped, g[id].parents);
    var t := Enqueued(g, popped, g[id].parents);
    hide Popping, Enqueued, HeapTop;
    forall i | 0 <= i < |t.queue| ensures t.queue[i].time <= g[id].time {
      if i < |popped.queue| {
        assert t.queue[i] == popped.queue[i];
      } else {
        assert HasParent(g, id, t.queue[i].id);
      }
    }
  }

  lemma {:induction false} RestAtMost(g: Graph, s: Priority, bound: int)
    requires WellQueued(g, s) && ParentsOlder(g) && QueuedAtMost(s, bound)
    ensures forall i :: 0 <= i < |Rest(g, s)| ==> Rest(g, s)[i] in g && g[Rest(g, s)[i]].time <= bound
    decreases |g.Keys - s.seen|, |s.queue|
  {
    if s.queue != [] && s.pending.None? {
      VisitAtMost(g, s);
      VisitKeeps(g, s);
      SubsetSize(g.Keys - Visit(g, s).1.seen, g.Keys - s.seen);
      var (id, t) := Visit(g, s);
      assert g[id].time <= bound;
      RestAtMost(g, t, bound);
      RestUnfolds(g, s);
    }
  }

  /** With no parent newer than its child, emitted times never increase. */
  lemma {:induction false} TimesNeverIncrease(g: Graph, s: Priority)
    requires WellQueued(g, s) && ParentsOlder(g)
    ensures forall i :: 0 <= i < |Rest(g, s)| ==> Rest(g, s)[i] in g
    ensures forall i, j :: 0 <= i < j < |Rest(g, s)| ==> g[Rest(g, s)[i]].time >= g[Rest(g, s)[j]].time
    decreases |g.Keys - s.seen|, |s.queue|
  {
    if s.queue != [] && s.pending.None? {
      VisitAtMost(g, s);
      VisitKeeps(g, s);
      SubsetSize(g.Keys - Visit(g, s).1.seen, g.Keys - s.seen);
      var (id, t) := Visit(g, s);
      TimesNeverIncrease(g, t);
      RestAtMost(g, t, g[id].time);
      RestUnfolds(g, s);
    }
  }

  /** The commits not older than `since`. */
  function NotOlder(g: Graph, ids: seq<Oid>, since: int): seq<Oid> {
    if ids == [] then []
    else (if ids[0] in g && g[ids[0]].time >= since then [ids[0]] else []) + NotOlder(g, ids[1..], since)
  }

  lemma {:induction false} AllOlder(g: Graph, ids: seq<Oid>, since: int)
    requires forall i :: 0 <= i < |ids| ==> ids[i] in g && g[ids[i]].time < since
    ensures NotOlder(g, ids, since) == []
  {
    if ids != [] {
      AllOlder(g, ids[1..], since);
    }
  }

  /** `pruned` is `full` with the parents of commits older than `since` cleared. */
  ghost predicate Prunes(pruned: Graph, full: Graph, since: int) {
    pruned.Keys == full.Keys && forall n :: n in full ==>
      pruned[n] == if full[n].time < since then Meta([], full[n].time) else full[n]
  }

  /** Pruning at `since` does not change which commits survive the `since` filter, nor their order. */
  lemma {:induction false} SincePruning(pruned: Graph, full: Graph, since: int, s: Priority)
    requires Prunes(pruned, full, since) && ParentsOlder(full) && WellQueued(full, s)
    ensures WellQueued(pruned, s)
    ensures NotOlder(pruned, Rest(pruned, s), since) == NotOlder(full, Rest(full, s), since)
    decreases |full.Keys - s.seen|, |s.queue|
  {
    PrunedQueue(pruned, full, since, s);
    if s.queue != [] && s.pending.None? {
      VisitKeeps(full, s);
      SubsetSize(full.Keys - Visit(full, s).1.seen, full.Keys - s.seen);
      var id := Visit(full, s).0;
      if full[id].time >= since {
        SameEnqueued(pruned, full, Popping(s).1, full[id].parents);
        RestUnfolds(full, s);
        RestUnfolds(pruned, s);
        SincePruning(pruned, full, since, Visit(full, s).1);
        HeadNotOlder(pruned, id, Rest(pruned, Visit(full, s).1), since);
        HeadNotOlder(full, id, Rest(full, Visit(full, s).1), since);
      } else {
        PoppingWellQueued(full, s);
        TopBounds(full, s);
        PrunedOlder(pruned, full, since);
        RestAtMost(full, s, full[id].time);
        RestAtMost(pruned, s, full[id].time);
        AllOlder(full, Rest(full, s), since);
        AllOlder(pruned, Rest(pruned, s), since);
      }
    }
  }

  lemma HeadNotOlder(g: Graph, id: Oid, rest: seq<Oid>, since: int)
    requires id in g && g[id].time >= since
    ensures NotOlder(g, [id] + rest, since) == [id] + NotOlder(g, rest, since)
  {
    assert ([id] + rest)[1..] == rest;
  }

  lemma TopBounds(g: Graph, s: Priority)
    requires WellQueued(g, s) && s.queue != [] && s.queue[HeapTop(s.queue)].id in g
    ensures QueuedAtMost(s, g[Visit(g, s).0].time)
  {
    var top := s.queue[HeapTop(s.queue)];
    forall i | 0 <= i < |s.queue| ensures s.queue[i].time <= top.time {
      assert !PopsBefore(s.queue[i], top);
    }
  }

  lemma PrunedQueue(pruned: Graph, full: Graph, since: int, s: Priority)
    requires Prunes(pruned, full, since) && WellQueued(full, s)
    ensures WellQueued(pruned, s)
  {
  }

  lemma PrunedOlder(pruned: Graph, full: Graph, since: int)
    requires Prunes(pruned, full, since) && ParentsOlder(full)
    ensures ParentsOlder(pruned)
  {
    forall n, p | HasParent(pruned, n, p) && p in pruned ensures pruned[p].time <= pruned[n].time {
      assert HasParent(full, n, p);
    }
  }

  lemma {:induction false} SameEnqueued(a: Graph, b: Graph, s: Priority, parents: seq<Oid>)
    requires a.Keys == b.Keys && forall n :: n in a ==> a[n].time == b[n].time
    ensures Enqueued(a, s, parents) == Enqueued(b, s, parents)
    decreases |parents|
  {
    if parents != [] {
      var p := parents[0];
      if p in s.seen {
        SameEnqueued(a, b, s, parents[1..]);
      } else if p in a {
        SameEnqueued(a, b, Pushing(a, s, p), parents[1..]);
      }
    }
  }

  // ----- exactly when pruning is invisible

  /** Every commit not older than `since` is still reachable after pruning. */
  ghost predicate KeepsRecent(pruned: Graph, full: Graph, since: int, start: Oid) {
    forall n :: Reaches(full, start, n) && n in full && full[n].time >= since ==> Reaches(pruned, start, n)
  }

  lemma {:induction false} NotOlderMembers(g: Graph, ids: seq<Oid>, since: int)
    ensures forall x :: x in NotOlder(g, ids, since) <==> x in ids && x in g && g[x].time >= since
  {
    if ids != [] {
      NotOlderMembers(g, ids[1..], since);
      assert ids == [ids[0]] + ids[1..];
    }
  }

  lemma PrunedReaches(pruned: Graph, full: Graph, since: int, start: Oid, n: Oid)
    requires Prunes(pruned, full, since) && Reaches(pruned, start, n)
    ensures Reaches(full, start, n)
  {
    var path :| PathFromTo(pruned, path, start, n);
    forall i | 0 <= i < |path| - 1 ensures HasParent(full, path[i], path[i + 1]) {
      assert HasParent(pruned, path[i], path[i + 1]);
    }
    assert PathFromTo(full, path, start, n);
  }

  lemma PrunedComplete(pruned: Graph, full: Graph, since: int, start: Oid)
    requires Prunes(pruned, full, since) && Complete(full, start)
    ensures Complete(pruned, start)
  {
    hide Reaches;
    forall n | Reaches(pruned, start, n) ensures n in pruned {
      PrunedReaches(pruned, full, since, start, n);
    }
  }

  /** Once every queued commit is old, the pruned graph reaches nothing unseen. */
  lemma OldQueueEndsPruned(pruned: Graph, full: Graph, since: int, start: Oid, s: Priority, x: Oid)
    requires Prunes(pruned, full, since) && Healthy(pruned, start, s) && Reaches(pruned, start, x)
    requires forall i :: 0 <= i < |s.queue| ==> s.queue[i].time < since
    ensures x in s.seen
  {
    hide Reaches, ReadyIds;
    var seen := Ascending(s.seen);
    AscendingMembers(s.seen);
    QueuedAreOld(pruned, s, since);
    ClosedHoldsReachable(pruned, start, seen, x);
  }

  lemma AscendingMembers(s: set<Oid>)
    ensures forall x :: x in Ascending(s) <==> x in s
  {
    AscendingIncreases(s);
  }

  lemma QueuedAreOld(g: Graph, s: Priority, since: int)
    requires WellQueued(g, s) && forall i :: 0 <= i < |s.queue| ==> s.queue[i].time < since
    ensures forall x :: x in ReadyIds(s.queue) ==> x in g && g[x].time < since
  {
    forall x | x in ReadyIds(s.queue) ensures x in g && g[x].time < since {
      var i :| 0 <= i < |s.queue| && ReadyIds(s.queue)[i] == x;
    }
  }

  /** From a queue of old commits neither walk emits a recent one. */
  lemma NothingRecentLeft(pruned: Graph, full: Graph, since: int, start: Oid, s: Priority)
    requires Prunes(pruned, full, since) && Complete(full, start) && KeepsRecent(pruned, full, since, start)
    requires Healthy(full, start, s) && Healthy(pruned, start, s)
    requires forall i :: 0 <= i < |s.queue| ==> s.queue[i].time < since
    ensures NotOlder(pruned, Rest(pruned, s), since) == [] == NotOlder(full, Rest(full, s), since)
  {
    hide Reaches, Rest, Complete, WellQueued, NotOlder;
    PrunedComplete(pruned, full, since, start);
    RestOnce(full, start, s);
    RestOnce(pruned, start, s);
    QueuedAreOld(pruned, s, since);
    forall x | Reaches(pruned, start, x) ensures x in s.seen {
      OldQueueEndsPruned(pruned, full, since, start, s, x);
    }
    var f, p := Rest(full, s), Rest(pruned, s);
    forall i | 0 <= i < |p| ensures p[i] in pruned && pruned[p[i]].time < since {
      assert p[i] in p;
    }
    forall i | 0 <= i < |f| ensures f[i] in full && full[f[i]].time < since {
      assert f[i] in f;
      ReachedIsStored(full, start, f[i]);
    }
    AllOlder(full, f, since);
    AllOlder(pruned, p, since);
  }

  lemma ReachedIsStored(g: Graph, start: Oid, n: Oid)
    requires Complete(g, start) && Reaches(g, start, n)
    ensures n in g
  {
  }

  /** A recent commit on top is visited alike in both graphs. */
  lemma RecentVisit(pruned: Graph, full: Graph, since: int, s: Priority)
    requires Prunes(pruned, full, since) && WellQueued(full, s) && s.queue != []
    ensures s.queue[HeapTop(s.queue)].id in full
    ensures full[Visit(full, s).0].time >= since ==> Visit(pruned, s) == Visit(full, s)
  {
    hide WellQueued, HeapTop, Enqueued;
    VisitKeeps(full, s);
    var (id, popped) := Popping(s);
    SameEnqueued(pruned, full, popped, full[id].parents);
  }

  /** While recent commits are popped both walks move alike. */
  lemma {:induction false} KeptRecentSame(pruned: Graph, full: Graph, since: int, start: Oid, s: Priority)
    requires Prunes(pruned, full, since) && Complete(full, start) && KeepsRecent(pruned, full, since, start)
    requires Healthy(full, start, s) && Healthy(pruned, start, s)
    ensures NotOlder(pruned, Rest(pruned, s), since) == NotOlder(full, Rest(full, s), since)
    decreases |full.Keys - s.seen|, |s.queue|
  {
    hide Reaches, Rest, Complete, WellQueued, NotOlder, KeepsRecent, HeapTop, Visit;
    if s.queue == [] {
      NothingLeft(full, s);
      NothingLeft(pruned, s);
      AllOlder(full, [], since);
      AllOlder(pruned, [], since);
    } else {
      RecentVisit(pruned, full, since, s);
      var (id, t) := Visit(full, s);
      VisitKeeps(full, s);
      if full[id].time >= since {
        PrunedComplete(pruned, full, since, start);
        VisitHealthy(full, start, s);
        VisitHealthy(pruned, start, s);
        SubsetSize(full.Keys - t.seen, full.Keys - s.seen);
        RestUnfolds(full, s);
        RestUnfolds(pruned, s);
        KeptRecentSame(pruned, full, since, start, t);
        HeadNotOlder(pruned, id, Rest(pruned, t), since);
        HeadNotOlder(full, id, Rest(full, t), since);
      } else {
        TopBounds(full, s);
        NothingRecentLeft(pruned, full, since, start, s);
      }
    }
  }

  /**
   * Pruning at `since` leaves the `since`-filtered output the same sequence
   * if and only if every reachable commit not older than `since` can still be
   * reached without going through an older one.
   */
  lemma SincePruningIff(pruned: Graph, full: Graph, since: int, start: Oid)
    requires Prunes(pruned, full, since) && Complete(full, start)
    ensures start in full && start in pruned
    ensures WellQueued(pruned, Begin(pruned, start)) && WellQueued(full, Begin(full, start))
    ensures NotOlder(pruned, Rest(pruned, Begin(pruned, start)), since) == NotOlder(full, Rest(full, Begin(full, start)), since)
      <==> KeepsRecent(pruned, full, since, start)
  {
    hide Reaches, Rest, Complete, WellQueued, NotOlder;
    ReachesSelf(full, start);
    ReachedIsStored(full, start, start);
    BeginHealthy(full, start);
    BeginHealthy(pruned, start);
    var s := Begin(full, start);
    assert s == Begin(pruned, start);
    PrunedComplete(pruned, full, since, start);
    if KeepsRecent(pruned, full, since, start) {
      KeptRecentSame(pruned, full, since, start, s);
    }
    if NotOlder(pruned, Rest(pruned, s), since) == NotOlder(full, Rest(full, s), since) {
      RestOnce(full, start, s);
      RestOnce(pruned, start, s);
      NotOlderMembers(full, Rest(full, s), since);
      NotOlderMembers(pruned, Rest(pruned, s), since);
      assert ReadyIds(s.queue)[0] == start;
      forall n | Reaches(full, start, n) && n in full && full[n].time >= since ensures Reaches(pruned, start, n) {
        assert n in NotOlder(full, Rest(full, s), since);
      }
    }
  }

  /** With no parent newer than its child, a path to a recent commit has only recent commits on it. */
  lemma ParentsOlderKeepsRecent(pruned: Graph, full: Graph, since: int, start: Oid)
    requires Prunes(pruned, full, since) && Complete(full, start) && ParentsOlder(full)
    ensures KeepsRecent(pruned, full, since, start)
  {
    forall n | Reaches(full, start, n) && n in full && full[n].time >= since ensures Reaches(pruned, start, n) {
      var path :| PathFromTo(full, path, start, n);
      RecentPath(pruned, full, since, path, 0);
      assert PathFromTo(pruned, path, start, n);
    }
  }

  lemma {:induction false} RecentPath(pruned: Graph, full: Graph, since: int, path: seq<Oid>, i: nat)
    requires Prunes(pruned, full, since) && ParentsOlder(full) && IsPath(full, path) && i < |path|
    requires path[|path| - 1] in full && full[path[|path| - 1]].time >= since
    ensures path[i] in full && full[path[i]].time >= since
    ensures forall j :: i <= j < |path| - 1 ==> HasParent(pruned, path[j], path[j + 1])
    decreases |path| - i
  {
    if i < |path| - 1 {
      RecentPath(pruned, full, since, path, i + 1);
      assert HasParent(full, path[i], path[i + 1]);
    }
  }

  /** The graph of a `since` query is the graph of the same query without `since`, pruned. */
  lemma ViewPrunes(store: Graph, opts: LogOptions, since: int, shallow: set<Oid>)
    requires opts.since == Some(since)
    ensures Prunes(View(store, opts, shallow), View(store, opts.(since := None), shallow), since)
  {
  }

  const SKEWED: Graph := map[0 := Meta([1], 5), 1 := Meta([2], 1), 2 := Meta([], 10)]
  const SKEWED_PRUNED: Graph := map[0 := Meta([1], 5), 1 := Meta([], 1), 2 := Meta([], 10)]

  /** A parent newer than its child can be lost to pruning. */
  lemma ClockSkewLosesCommit()
    ensures Prunes(SKEWED_PRUNED, SKEWED, 3)
    ensures WellQueued(SKEWED, Begin(SKEWED, 0)) && WellQueued(SKEWED_PRUNED, Begin(SKEWED_PRUNED, 0))
    ensures NotOlder(SKEWED, Rest(SKEWED, Begin(SKEWED, 0)), 3) == [0, 2]
    ensures NotOlder(SKEWED_PRUNED, Rest(SKEWED_PRUNED, Begin(SKEWED_PRUNED, 0)), 3) == [0]
    ensures Complete(SKEWED, 0) && !KeepsRecent(SKEWED_PRUNED, SKEWED, 3, 0)
  {
    hide Rest, NotOlder, WellQueued, Begin, Prunes, Complete, KeepsRecent;
    SkewedReach();
    SkewedBegins();
    SkewedWalk();
    SkewedPrunedWalk();
    SkewedFilters();
  }

  lemma SkewedBegins()
    ensures Prunes(SKEWED_PRUNED, SKEWED, 3)
    ensures WellQueued(SKEWED, Begin(SKEWED, 0)) && WellQueued(SKEWED_PRUNED, Begin(SKEWED_PRUNED, 0))
  {
    BeginHealthy(SKEWED, 0);
    BeginHealthy(SKEWED_PRUNED, 0);
  }

  lemma SkewedReach()
    ensures Complete(SKEWED, 0) && !KeepsRecent(SKEWED_PRUNED, SKEWED, 3, 0)
  {
    forall n | Reaches(SKEWED, 0, n) ensures n in SKEWED {
      ClosedHoldsReachable(SKEWED, 0, [0, 1, 2], n);
    }
    assert PathFromTo(SKEWED, [0, 1, 2], 0, 2);
    if Reaches(SKEWED_PRUNED, 0, 2) {
      ClosedHoldsReachable(SKEWED_PRUNED, 0, [0, 1], 2);
    }
  }

  lemma SkewedFilters()
    ensures NotOlder(SKEWED, [0, 1, 2], 3) == [0, 2] && NotOlder(SKEWED_PRUNED, [0, 1], 3) == [0]
  {
    assert [0, 1, 2][1..] == [1, 2] && [1, 2][1..] == [2] && [2][1..] == [] && [0, 1][1..] == [1] && [1][1..] == [];
    assert NotOlder(SKEWED, [2], 3) == [2];
    assert NotOlder(SKEWED, [1, 2], 3) == [2];
    assert NotOlder(SKEWED_PRUNED, [1], 3) == [];
  }

  lemma SkewedWalk()
    requires WellQueued(SKEWED, Begin(SKEWED, 0))
    ensures Rest(SKEWED, Begin(SKEWED, 0)) == [0, 1, 2]
  {
    hide Rest;
    var s1 := Priority([Ready(1, 1, 1)], {0, 1}, 2, None);
    var s2 := Priority([Ready(2, 10, 2)], {0, 1, 2}, 3, None);
    var s3 := Priority([], {0, 1, 2}, 3, None);
    Only(SKEWED, Begin(SKEWED, 0), s1, 0);
    Only(SKEWED, s1, s2, 1);
    Only(SKEWED, s2, s3, 2);
    NothingLeft(SKEWED, s3);
  }

  lemma SkewedPrunedWalk()
    requires WellQueued(SKEWED_PRUNED, Begin(SKEWED_PRUNED, 0))
    ensures Rest(SKEWED_PRUNED, Begin(SKEWED_PRUNED, 0)) == [0, 1]
  {
    hide Rest;
    var s1 := Priority([Ready(1, 1, 1)], {0, 1}, 2, None);
    var s2 := Priority([], {0, 1}, 2, None);
    Only(SKEWED_PRUNED, Begin(SKEWED_PRUNED, 0), s1, 0);
    Only(SKEWED_PRUNED, s1, s2, 1);
    NothingLeft(SKEWED_PRUNED, s2);
  }

  /** A visit of a one-entry queue. */
  lemma Only(g: Graph, s: Priority, t: Priority, id: Oid)
    requires |s.queue| == 1 && s.queue[0].id == id && s.pending.None? && WellQueued(g, s) && id in g
    requires t == Enqueued(g, s.(queue := []), g[id].parents)
    ensures WellQueued(g, t) && Rest(g, s) == [id] + Rest(g, t)
  {
    assert HeapTop(s.queue) == 0;
    assert s.queue[..0] + s.queue[1..] == [];
    RestUnfolds(g, s);
  }

  // ----- the imperative walk

  class ChronologicalWalk {
    const store: Graph
    var queue: seq<Ready>
    var seen: set<Oid>
    var nextSequence: nat
    var pendingError: Option<Oid>

    ghost function Abs(): Priority
      reads this
    {
      Priority(queue, seen, nextSequence, pendingError)
    }

    ghost predicate Valid()
      reads this
    {
      WellQueued(store, Abs())
    }

    ghost function Left(): (r: seq<Oid>)
      requires Valid()
      reads this
      ensures forall x :: x in r ==> x in store
    {
      RestStored(store, Abs());
      Rest(store, Abs())
    }

    /** The commits still to come, up to a missing parent. */
    ghost function Remaining(): seq<Walked>
      requires Valid()
      reads this
    {
      WalkedOf(store, Left())
    }

    constructor (store: Graph, start: Oid)
      requires start in store
      ensures Valid() && this.store == store && Abs() == Begin(store, start)
    {
      this.store := store;
      queue := [Ready(start, store[start].time, 0)];
      seen, nextSequence, pendingError := {start}, 1, None;
      new;
      BeginHealthy(store, start);
    }

    /** `ChronologicalWalk::next`: a pending error first, then the next commit of the output. */
    method Next() returns (r: Option<Result<Walked, Oid>>)
      requires Valid()
      modifies this
      ensures Valid()
      ensures old(pendingError).Some? ==> r == Some(Err(old(pendingError).value)) && Abs() == old(Abs()).(pending := None)
      ensures old(pendingError).None? && old(Remaining()) == [] ==> r == None && Remaining() == [] && Abs() == old(Abs())
      ensures old(pendingError).None? && old(Remaining()) != [] ==>
        && r == Some(Ok(old(Remaining())[0])) && Remaining() == old(Remaining())[1..]
        && Abs() == Visit(store, old(Abs())).1
    {
      hide Rest, Enqueued, WellQueued, HeapTop, WalkedOf;
      if pendingError.Some? {
        r := Some(Err(pendingError.value));
        ClearedError(store, Abs());
        pendingError := None;
        return;
      }
      if queue == [] {
        NothingLeft(store, Abs());
        return None;
      }
      VisitKeeps(store, Abs());
      RestUnfolds(store, Abs());
      ghost var before := Left();
      var i := HeapTop(queue);
      var current := queue[i];
      queue := queue[..i] + queue[i + 1..];
      PushParents(store[current.id].parents);
      assert before == [current.id] + Left();
      WalkedCons(store, current.id, Left());
      return Some(Ok(Walked(current.id, store[current.id].time)));
    }

    method PushParents(parents: seq<Oid>)
      modifies this
      ensures Abs() == Enqueued(store, old(Abs()), parents)
    {
      assert parents[0..] == parents;
      for j := 0 to |parents|
        invariant Enqueued(store, Abs(), parents[j..]) == Enqueued(store, old(Abs()), parents)
      {
        var parent := parents[j];
        assert parents[j..][0] == parent && parents[j..][1..] == parents[j + 1..];
        if parent in seen { continue; }
        seen := seen + {parent};
        if parent !in store {
          pendingError := Some(parent);
          return;
        }
        queue := queue + [Ready(parent, store[parent].time, nextSequence)];
        nextSequence := nextSequence + 1;
      }
    }

    method TakePendingError() returns (r: Option<Oid>)
      requires Valid()
      modifies this
      ensures Valid() && r == old(pendingError) && Abs() == old(Abs()).(pending := None)
    {
      ClearedError(store, Abs());
      r := pendingError;
      pendingError := None;
    }

    /** The chronological `has_matching`: on a complete store, a match is still to come. */
    method HasMatching(opts: LogOptions, ghost start: Oid) returns (b: bool)
      requires Valid()
      ensures b && Healthy(store, start, Abs()) && Complete(store, start) ==>
        exists i :: 0 <= i < |Remaining()| && WithinTimeBounds(Remaining()[i].time, opts)
    {
      b := pendingError.Some? || exists i :: 0 <= i < |queue| && WithinTimeBounds(queue[i].time, opts);
      if b && Healthy(store, start, Abs()) && Complete(store, start) {
        ghost var i :| 0 <= i < |queue| && WithinTimeBounds(queue[i].time, opts);
        RestOnce(store, start, Abs());
        ghost var id := queue[i].id;
        assert ReadyIds(queue)[i] == id && id in seen;
        assert id in Left();
        ghost var k :| 0 <= k < |Left()| && Left()[k] == id;
        assert Remaining()[k].time == queue[i].time;
      }
    }
  }

  lemma ClearedError(g: Graph, s: Priority)
    requires WellQueued(g, s)
    ensures WellQueued(g, s.(pending := None))
  {
  }

  lemma NothingLeft(g: Graph, s: Priority)
    requires WellQueued(g, s) && s.queue == []
    ensures Rest(g, s) == []
  {
  }

  lemma {:induction false} RestStored(g: Graph, s: Priority)
    requires WellQueued(g, s)
    ensures forall x :: x in Rest(g, s) ==> x in g
    decreases |g.Keys - s.seen|, |s.queue|
  {
    if s.queue != [] && s.pending.None? {
      VisitKeeps(g, s);
      SubsetSize(g.Keys - Visit(g, s).1.seen, g.Keys - s.seen);
      RestStored(g, Visit(g, s).1);
      RestUnfolds(g, s);
    }
  }
}
