/** The commit log on the stored commits (crates/gitility-core/src/log.rs). */
module FirstParents {
  import opened Basics
  import opened CommitGraph
  import opened OrderedWalks
  import opened ChronologicalWalks
  import opened Paging
  import opened Logs

  /**
   * The unpaged log of any order, on the stored commits: the commits within the
   * time bounds that a path of followed parents leads to, with their own times.
   */
  lemma UnpagedLogIs(store: Graph, start: Oid, shallow: set<Oid>, opts: LogOptions, w: Walked)
    requires Complete(View(store, opts, shallow), start)
    ensures
      var log := Matching(WalkOutput(opts.order, View(store, opts, shallow), start), opts);
      w in log <==>
        && w.id in store && w.time == store[w.id].time
        && (opts.since.Some? ==> opts.since.value <= w.time)
        && (opts.until.Some? ==> w.time <= opts.until.value)
        && exists path :: StorePath(store, opts, shallow, path, start, w.id)
  {
    hide Matching, WalkOutput, View, Complete, Reaches, StorePath;
    var g := View(store, opts, shallow);
    WalkOutputOnce(opts.order, g, start);
    MatchingWithin(WalkOutput(opts.order, g, start), opts);
    ViewReaches(store, opts, shallow, start, w.id);
    ViewKeeps(store, opts, shallow, w.id);
    assert Reaches(g, start, w.id) <==> w.id in g && Walked(w.id, g[w.id].time) in WalkOutput(opts.order, g, start);
    assert w == Walked(w.id, w.time);
  }

  // ----- first-parent history

  ghost predicate OneParent(g: Graph) {
    forall n :: n in g ==> |g[n].parents| <= 1
  }

  /** Each commit is a parent of the one before it. */
  ghost predicate Chain(g: Graph, ids: seq<Oid>) {
    forall i :: 0 <= i < |ids| - 1 ==> HasParent(g, ids[i], ids[i + 1])
  }

  lemma SoleParent(g: Graph, n: Oid, p: Oid, q: Oid)
    requires OneParent(g) && HasParent(g, n, p) && HasParent(g, n, q)
    ensures p == q
  {
  }

  /** With one parent each, commits listed once, each behind one of its children, form a chain. */
  lemma {:induction false} ChildrenFirstChain(g: Graph, ids: seq<Oid>, n: nat)
    requires OneParent(g) && Distinct(ids) && n <= |ids|
    requires forall k :: 0 < k < |ids| ==> ChildBefore(g, ids, k)
    ensures Chain(g, ids[..n])
  {
    hide OneParent, HasParent;
    if n > 1 {
      ChildrenFirstChain(g, ids, n - 1);
      assert ChildBefore(g, ids, n - 1);
      var j :| 0 <= j < n - 1 && HasParent(g, ids[j], ids[n - 1]);
      if j < n - 2 {
        assert ids[..n - 1][j] == ids[j] && ids[..n - 1][j + 1] == ids[j + 1];
        SoleParent(g, ids[j], ids[j + 1], ids[n - 1]);
      }
      forall i | 0 <= i < n - 1 ensures HasParent(g, ids[i], ids[i + 1]) {
        if i < n - 2 {
          assert ids[..n - 1][i] == ids[i] && ids[..n - 1][i + 1] == ids[i + 1];
        }
      }
    }
  }

  ghost predicate ChildBefore(g: Graph, ids: seq<Oid>, k: nat)
    requires k < |ids|
  {
    exists j :: 0 <= j < k && HasParent(g, ids[j], ids[k])
  }

  /** No commit the walk reaches is on a cycle. */
  ghost predicate NoCycle(g: Graph, start: Oid) {
    forall n :: Reaches(g, start, n) ==> !OnCycle(g, n)
  }

  lemma SubParent(g: Graph, order: seq<Oid>, n: Oid, p: Oid)
    requires forall x :: x in order ==> x in g
    ensures HasParent(Restrict(g, order), n, p) <==> n in order && HasParent(g, n, p)
  {
  }

  lemma SubCycle(g: Graph, order: seq<Oid>, n: Oid)
    requires (forall x :: x in order ==> x in g) && OnCycle(Restrict(g, order), n)
    ensures n in order && OnCycle(g, n)
  {
    var path :| |path| > 1 && PathFromTo(Restrict(g, order), path, n, n);
    forall i | 0 <= i < |path| - 1 ensures path[i] in order && HasParent(g, path[i], path[i + 1]) {
      SubParent(g, order, path[i], path[i + 1]);
    }
    assert PathFromTo(g, path, n, n);
    assert path[0] in order;
  }

  lemma ExploredStored(g: Graph, start: Oid, order: seq<Oid>)
    requires Exploring(g, start, [], order)
    ensures forall x :: x in order ==> x in g
  {
  }

  /** The topological and date orders of a graph with one parent each and no cycle. */
  lemma OrderedChain(kind: LogOrder, g: Graph, start: Oid, order: seq<Oid>)
    requires Exploring(g, start, [], order) && OneParent(g) && NoCycle(g, start)
    ensures
      var out := Output(kind, g, start, order);
      out != [] && out[0] == start && Chain(g, out)
  {
    hide Output, Reaches, OneParent, Exploring, OnCycle;
    ExploredStored(g, start, order);
    ExploredAll(g, start, order);
    var out, sub := Output(kind, g, start, order), Restrict(g, order);
    var main := OrderedWalkCorrect(kind, g, start, order);
    forall x ensures !OnCycle(sub, x) {
      if OnCycle(sub, x) { SubCycle(g, order, x); }
    }
    ReachesSelf(g, start);
    assert start in out;
    forall k | 0 <= k < |out| && out[k] != start ensures ChildBefore(g, out, k) {
      assert out[k] in out;
      var child := ReachedFromChild(g, start, out[k]);
      SubParent(g, order, child, out[k]);
      assert child in out[..k];
      var j :| 0 <= j < k && out[..k][j] == child;
      assert HasParent(g, out[j], out[k]);
    }
    StartsFirst(g, start, out);
    ChildrenFirstChain(g, out, |out|);
    assert out[..|out|] == out;
  }

  lemma StartsFirst(g: Graph, start: Oid, out: seq<Oid>)
    requires Distinct(out) && start in out && forall k :: 0 <= k < |out| && out[k] != start ==> ChildBefore(g, out, k)
    ensures out[0] == start && forall k :: 0 < k < |out| ==> ChildBefore(g, out, k)
  {
  }

  /** The chronological order of a graph with one parent each, cycle or not. */
  lemma {:induction false} ChronologicalChain(g: Graph, start: Oid, s: Priority)
    requires Complete(g, start) && Healthy(g, start, s) && OneParent(g) && |s.queue| == 1
    ensures Rest(g, s) != [] && Rest(g, s)[0] == s.queue[0].id && Chain(g, Rest(g, s))
    decreases |g.Keys - s.seen|, |s.queue|
  {
    hide Rest, Complete, WellQueued, Tracks, OneParent, Visit;
    VisitKeepsOne(g, s);
    VisitHealthy(g, start, s);
    RestUnfolds(g, s);
    var (id, t) := Visit(g, s);
    if t.queue == [] {
      NothingLeft(g, t);
    } else {
      VisitSize(g, s);
      ChronologicalChain(g, start, t);
      assert HasParent(g, id, t.queue[0].id);
    }
  }

  lemma VisitSize(g: Graph, s: Priority)
    requires WellQueued(g, s) && |s.queue| == 1
    ensures s.queue[HeapTop(s.queue)].id in g
    ensures Visit(g, s).1.queue != [] ==> |g.Keys - Visit(g, s).1.seen| < |g.Keys - s.seen|
  {
    VisitKeeps(g, s);
  }

  /** Visiting the only queued commit leaves at most its parent in the queue. */
  lemma VisitKeepsOne(g: Graph, s: Priority)
    requires WellQueued(g, s) && |s.queue| == 1 && OneParent(g)
    ensures s.queue[HeapTop(s.queue)].id in g
    ensures
      var (id, t) := Visit(g, s);
      id == s.queue[0].id && |t.queue| <= 1 && (t.queue != [] ==> HasParent(g, id, t.queue[0].id))
  {
    var id := s.queue[0].id;
    assert HeapTop(s.queue) == 0;
    var popped := Popping(s).1;
    assert popped.queue == [];
    EnqueuedOne(g, popped, g[id].parents);
  }

  lemma EnqueuedOne(g: Graph, s: Priority, parents: seq<Oid>)
    requires s.queue == [] && |parents| <= 1
    ensures
      var t := Enqueued(g, s, parents);
      |t.queue| <= 1 && (t.queue != [] ==> t.queue[0].id in parents)
  {
    if parents != [] {
      assert parents[1..] == [];
    }
  }

  /** `first_parent` history on the stored commits. */
  ghost predicate FirstParentChain(store: Graph, walked: seq<Walked>) {
    forall i :: 0 <= i < |walked| - 1 ==>
      && walked[i].id in store && store[walked[i].id].parents != []
      && walked[i + 1].id == store[walked[i].id].parents[0]
  }

  lemma ViewChain(store: Graph, opts: LogOptions, shallow: set<Oid>, walked: seq<Walked>)
    requires opts.firstParent
    requires forall i :: 0 <= i < |walked| - 1 ==> HasParent(View(store, opts, shallow), walked[i].id, walked[i + 1].id)
    ensures FirstParentChain(store, walked)
  {
    hide View, HasParent;
    forall i | 0 <= i < |walked| - 1
      ensures walked[i].id in store && store[walked[i].id].parents != [] && walked[i + 1].id == store[walked[i].id].parents[0]
    {
      ViewParents(store, opts, shallow, walked[i].id, walked[i + 1].id);
    }
  }

  lemma WalkedChain(g: Graph, sub: Graph, ids: seq<Oid>)
    requires Chain(g, ids) && forall x :: x in ids ==> x in sub
    ensures forall i :: 0 <= i < |ids| - 1 ==> HasParent(g, WalkedOf(sub, ids)[i].id, WalkedOf(sub, ids)[i + 1].id)
  {
    hide HasParent;
  }

  /**
   * With `first_parent`, the walk starts at the start and every further commit
   * is the first parent of the one before it: in the chronological order on
   * every complete store, in the other two where no cycle is reached.
   */
  lemma FirstParentLog(store: Graph, start: Oid, shallow: set<Oid>, opts: LogOptions)
    requires opts.firstParent && Complete(View(store, opts, shallow), start)
    requires opts.order == Chronological || NoCycle(View(store, opts, shallow), start)
    ensures
      var walked := WalkOutput(opts.order, View(store, opts, shallow), start);
      walked != [] && walked[0].id == start && FirstParentChain(store, walked)
  {
    hide View, Chain, Rest, Output, Complete, HasParent, NoCycle, FirstParentChain, Exploring;
    var g := View(store, opts, shallow);
    ViewOneParent(store, opts, shallow);
    StartStored(g, start);
    if opts.order == Chronological {
      var s := Begin(g, start);
      BeginHealthy(g, start);
      ChronologicalChain(g, start, s);
      RestStored(g, s);
      WalkedChain(g, g, Rest(g, s));
    } else {
      DiscoverComplete(g, start);
      var order := Discover(g, [start], []).value;
      OrderedChain(opts.order, g, start, order);
      OutputStored(opts.order, g, start, order);
      WalkedChain(g, Restrict(g, order), Output(opts.order, g, start, order));
    }
    ViewChain(store, opts, shallow, WalkOutput(opts.order, g, start));
  }

  lemma ViewOneParent(store: Graph, opts: LogOptions, shallow: set<Oid>)
    requires opts.firstParent
    ensures OneParent(View(store, opts, shallow))
  {
    hide View;
    forall n | n in View(store, opts, shallow) ensures |View(store, opts, shallow)[n].parents| <= 1 {
      ViewKeeps(store, opts, shallow, n);
    }
  }
}
