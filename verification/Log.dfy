/** Commit-log pagination by replay (crates/gitility-core/src/log.rs). */
module Logs {
  import opened Basics
  import opened CommitGraph
  import opened OrderedWalks
  import opened ChronologicalWalks
  import opened Paging

  datatype LogError = InvalidArgument | MissingObject | InvalidCursor

  /** A page of commits and the position of its cursor, if it has one. */
  datatype LogPage = LogPage(commits: seq<Walked>, next: Option<Oid>, truncated: bool)

  // ----- the unpaged log

  function Matching(walked: seq<Walked>, opts: LogOptions): seq<Walked> {
    if walked == [] then []
    else
      var n := |walked| - 1;
      Matching(walked[..n], opts) + (if WithinTimeBounds(walked[n].time, opts) then [walked[n]] else [])
  }

  ghost predicate DistinctIds(walked: seq<Walked>) {
    forall i, j :: 0 <= i < j < |walked| ==> walked[i].id != walked[j].id
  }

  /** The place after commit `id`, or the length plus one when the walk does not visit it. */
  function PlaceAfter(walked: seq<Walked>, id: Oid): (k: nat)
    ensures k <= |walked| + 1
    ensures k <= |walked| ==> k > 0 && walked[k - 1].id == id
    ensures forall i :: 0 <= i < Min(k - 1, |walked|) ==> walked[i].id != id
  {
    if walked == [] then 1
    else if walked[0].id == id then 1
    else
      var k := PlaceAfter(walked[1..], id);
      assert forall i :: 1 <= i < |walked| ==> walked[i] == walked[1..][i - 1];
      k + 1
  }

  /** Where a page with this resume position starts reading. */
  function ResumePlace(walked: seq<Walked>, resume: Option<Oid>): nat {
    if resume.None? then 0 else PlaceAfter(walked, resume.value)
  }

  lemma {:induction false} MatchingConcat(a: seq<Walked>, b: seq<Walked>, opts: LogOptions)
    ensures Matching(a + b, opts) == Matching(a, opts) + Matching(b, opts)
    decreases |b|
  {
    if b == [] {
      assert a + b == a;
    } else {
      var n := |b| - 1;
      MatchingConcat(a, b[..n], opts);
      assert (a + b)[..|a + b| - 1] == a + b[..n];
    }
  }

  lemma MatchingSplit(walked: seq<Walked>, k: nat, opts: LogOptions)
    requires k <= |walked|
    ensures Matching(walked, opts) == Matching(walked[..k], opts) + Matching(walked[k..], opts)
  {
    assert walked == walked[..k] + walked[k..];
    MatchingConcat(walked[..k], walked[k..], opts);
  }

  lemma {:induction false} MatchingWithin(walked: seq<Walked>, opts: LogOptions)
    ensures forall w :: w in Matching(walked, opts) <==> w in walked && WithinTimeBounds(w.time, opts)
  {
    if walked != [] {
      var n := |walked| - 1;
      MatchingWithin(walked[..n], opts);
      assert walked == walked[..n] + [walked[n]];
    }
  }

  /** The page the log answers from a whole walk output. */
  function LogPageOf(walked: seq<Walked>, opts: LogOptions, resume: Option<Oid>, limit: nat): LogPage
    requires limit > 0 && ResumePlace(walked, resume) <= |walked|
  {
    var page := PageOf(Matching(walked[ResumePlace(walked, resume)..], opts), limit);
    LogPage(page.items, if page.truncated then Some(page.items[limit - 1].id) else None, page.truncated)
  }

  /** The `k`-th match sits where `k` matches precede it. */
  lemma {:induction false} MatchPlace(walked: seq<Walked>, opts: LogOptions, k: nat) returns (p: nat)
    requires k < |Matching(walked, opts)|
    ensures p < |walked| && walked[p] == Matching(walked, opts)[k]
    ensures |Matching(walked[..p], opts)| == k && |Matching(walked[..p + 1], opts)| == k + 1
    decreases |walked|
  {
    var n := |walked| - 1;
    var init := Matching(walked[..n], opts);
    if k < |init| {
      p := MatchPlace(walked[..n], opts, k);
      assert walked[..n][..p] == walked[..p] && walked[..n][..p + 1] == walked[..p + 1];
    } else {
      p := n;
      assert walked[..n + 1] == walked;
    }
  }

  /** Resuming at an emitted commit continues with exactly the matches after it. */
  lemma ResumeContinues(walked: seq<Walked>, opts: LogOptions, k: nat)
    requires DistinctIds(walked) && k < |Matching(walked, opts)|
    ensures
      var p := PlaceAfter(walked, Matching(walked, opts)[k].id);
      p <= |walked| && Matching(walked[p..], opts) == Matching(walked, opts)[k + 1..]
  {
    hide Matching, PlaceAfter;
    var p := MatchPlace(walked, opts, k);
    PlaceUnique(walked, walked[p].id, p + 1);
    MatchingSplit(walked, p + 1, opts);
  }

  lemma PlaceUnique(walked: seq<Walked>, id: Oid, p: nat)
    requires DistinctIds(walked) && 0 < p <= |walked| && walked[p - 1].id == id
    ensures PlaceAfter(walked, id) == p
  {
    var q := PlaceAfter(walked, id);
    assert q <= p;
  }

  /** The pages obtained by following cursors, as the log itself answers them. */
  function FollowedPages(walked: seq<Walked>, opts: LogOptions, resume: Option<Oid>, limits: seq<nat>): seq<seq<Walked>>
    requires forall i :: 0 <= i < |limits| ==> limits[i] > 0
    decreases |limits|
  {
    if limits == [] || ResumePlace(walked, resume) > |walked| then []
    else
      var page := LogPageOf(walked, opts, resume, limits[0]);
      if page.truncated then [page.commits] + FollowedPages(walked, opts, page.next, limits[1..]) else [page.commits]
  }

  lemma {:induction false} FollowedAre(walked: seq<Walked>, opts: LogOptions, resume: Option<Oid>, limits: seq<nat>, k: nat)
    requires DistinctIds(walked) && forall i :: 0 <= i < |limits| ==> limits[i] > 0
    requires k <= |Matching(walked, opts)| && ResumePlace(walked, resume) <= |walked|
    requires Matching(walked[ResumePlace(walked, resume)..], opts) == Matching(walked, opts)[k..]
    ensures FollowedPages(walked, opts, resume, limits) == Pages(Matching(walked, opts)[k..], limits)
    decreases |limits|
  {
    hide Matching, PlaceAfter, LogPageOf, FollowedPages, Pages, ResumePlace;
    FollowedUnfold(walked, opts, resume, limits);
    if limits == [] {
      NoMorePages(Matching(walked, opts)[k..]);
    } else {
      var all := Matching(walked, opts);
      var n := limits[0];
      LogPageIs(walked, opts, resume, n);
      PagesUnfold(all[k..], limits);
      if |all[k..]| > n {
        assert all[k..][n - 1] == all[k + n - 1] && all[k..][n..] == all[k + n..];
        AfterMatch(walked, opts, k + n - 1);
        FollowedAre(walked, opts, Some(all[k + n - 1].id), limits[1..], k + n);
      }
    }
  }

  lemma NoMorePages(left: seq<Walked>)
    ensures Pages(left, []) == []
  {
  }

  /** The place behind a match, as a resume position. */
  lemma AfterMatch(walked: seq<Walked>, opts: LogOptions, k: nat)
    requires DistinctIds(walked) && k < |Matching(walked, opts)|
    ensures
      var p := ResumePlace(walked, Some(Matching(walked, opts)[k].id));
      p <= |walked| && Matching(walked[p..], opts) == Matching(walked, opts)[k + 1..]
  {
    hide Matching, PlaceAfter;
    ResumeContinues(walked, opts, k);
  }

  /** A page in terms of what is left to match. */
  lemma LogPageIs(walked: seq<Walked>, opts: LogOptions, resume: Option<Oid>, limit: nat)
    requires limit > 0 && ResumePlace(walked, resume) <= |walked|
    ensures
      var left := Matching(walked[ResumePlace(walked, resume)..], opts);
      LogPageOf(walked, opts, resume, limit) ==
        if |left| > limit then LogPage(left[..limit], Some(left[limit - 1].id), true) else LogPage(left, None, false)
  {
    hide Matching, PlaceAfter;
  }

  lemma FollowedUnfold(walked: seq<Walked>, opts: LogOptions, resume: Option<Oid>, limits: seq<nat>)
    requires ResumePlace(walked, resume) <= |walked| && forall i :: 0 <= i < |limits| ==> limits[i] > 0
    ensures limits == [] ==> FollowedPages(walked, opts, resume, limits) == []
    ensures limits != [] ==>
      var page := LogPageOf(walked, opts, resume, limits[0]);
      FollowedPages(walked, opts, resume, limits)
        == if page.truncated then [page.commits] + FollowedPages(walked, opts, page.next, limits[1..]) else [page.commits]
  {
    hide Matching, PlaceAfter, LogPageOf;
  }

  /**
   * Following cursors, with any positive limits, yields non-empty pages whose
   * concatenation is the unpaged log, as far as the limits reach.
   */
  lemma PagesAreTheLog(walked: seq<Walked>, opts: LogOptions, limits: seq<nat>)
    requires DistinctIds(walked) && forall i :: 0 <= i < |limits| ==> limits[i] > 0
    ensures
      var all := Matching(walked, opts);
      var pages := FollowedPages(walked, opts, None, limits);
      && Flatten(pages) == all[..Min(Total(limits), |all|)]
      && (|limits| > |all| ==> Flatten(pages) == all)
      && (all != [] ==> forall i :: 0 <= i < |pages| ==> pages[i] != [])
  {
    var all := Matching(walked, opts);
    assert walked[0..] == walked && all[0..] == all;
    FollowedAre(walked, opts, None, limits, 0);
    PagesFlatten(all, limits);
  }

  // ----- the walks behind a log

  lemma DiscoverComplete(g: Graph, start: Oid)
    requires Complete(g, start)
    ensures Discover(g, [start], []).Ok? && Exploring(g, start, [], Discover(g, [start], []).value)
  {
    ReachesSelf(g, start);
    DiscoverReachable(g, start, [start], []);
  }

  /** The whole output of the walk a log order selects. */
  ghost function WalkOutput(kind: LogOrder, g: Graph, start: Oid): seq<Walked>
    requires Complete(g, start)
  {
    StartStored(g, start);
    if kind == Chronological then
      BeginHealthy(g, start);
      RestStored(g, Begin(g, start));
      WalkedOf(g, Rest(g, Begin(g, start)))
    else
      DiscoverComplete(g, start);
      var order := Discover(g, [start], []).value;
      OutputStored(kind, g, start, order);
      WalkedOf(Restrict(g, order), Output(kind, g, start, order))
  }

  lemma StartStored(g: Graph, start: Oid)
    requires Complete(g, start)
    ensures start in g
  {
    ReachesSelf(g, start);
  }

  lemma OutputStored(kind: LogOrder, g: Graph, start: Oid, order: seq<Oid>)
    requires Exploring(g, start, [], order)
    ensures Distinct(Output(kind, g, start, order))
    ensures forall x :: x in Output(kind, g, start, order) <==> Reaches(g, start, x)
    ensures forall x :: x in Output(kind, g, start, order) ==> x in Restrict(g, order)
  {
    hide Output, Reaches;
    var main := OrderedWalkCorrect(kind, g, start, order);
    ExploredAll(g, start, order);
  }

  /** Every log order walks exactly the reachable commits, each once, with its own time. */
  lemma WalkOutputOnce(kind: LogOrder, g: Graph, start: Oid)
    requires Complete(g, start)
    ensures DistinctIds(WalkOutput(kind, g, start))
    ensures forall x :: Reaches(g, start, x) <==> x in g && Walked(x, g[x].time) in WalkOutput(kind, g, start)
    ensures forall w :: w in WalkOutput(kind, g, start) ==> w.id in g && w.time == g[w.id].time
  {
    StartStored(g, start);
    if kind == Chronological {
      BeginHealthy(g, start);
      var s := Begin(g, start);
      assert ReadyIds(s.queue)[0] == start;
      RestOnce(g, start, s);
      RestStored(g, s);
      WalkedOnce(g, start, g, Rest(g, s));
    } else {
      DiscoverComplete(g, start);
      var order := Discover(g, [start], []).value;
      OutputStored(kind, g, start, order);
      WalkedOnce(g, start, Restrict(g, order), Output(kind, g, start, order));
    }
  }

  lemma WalkedOnce(g: Graph, start: Oid, sub: Graph, ids: seq<Oid>)
    requires Distinct(ids) && (forall x :: x in ids <==> Reaches(g, start, x)) && forall x :: x in ids ==> x in sub
    requires forall x :: x in sub ==> x in g && sub[x] == g[x]
    ensures DistinctIds(WalkedOf(sub, ids))
    ensures forall x :: Reaches(g, start, x) <==> x in g && Walked(x, g[x].time) in WalkedOf(sub, ids)
    ensures forall w :: w in WalkedOf(sub, ids) ==> w.id in g && w.time == g[w.id].time
  {
    hide Reaches;
    var out := WalkedOf(sub, ids);
    forall x | x in ids ensures x in g && Walked(x, g[x].time) in out {
      var i :| 0 <= i < |ids| && ids[i] == x;
      assert out[i] == Walked(x, g[x].time);
    }
    forall w | w in out ensures w.id in ids && w.id in g && w.time == g[w.id].time {
      var i :| 0 <= i < |out| && out[i] == w;
      assert ids[i] in ids;
    }
  }

  class Walk {
    const graph: Graph
    ghost const start: Oid
    const chrono: ChronologicalWalk?
    const ordered: OrderedWalk?

    ghost predicate Valid()
      reads this, chrono, ordered
    {
      && (chrono == null <==> ordered != null)
      && (chrono != null ==> chrono.Valid() && chrono.store == graph)
      && (ordered != null ==> ordered.Valid())
      && (chrono != null && Complete(graph, start) ==> Healthy(graph, start, chrono.Abs()))
    }

    ghost function Remaining(): seq<Walked>
      requires Valid()
      reads this, chrono, ordered
    {
      if chrono != null then chrono.Remaining() else ordered.Remaining()
    }

    constructor (graph: Graph, ghost start: Oid, chrono: ChronologicalWalk?, ordered: OrderedWalk?)
      requires (chrono == null <==> ordered != null)
      requires chrono != null ==> chrono.Valid() && chrono.store == graph && start in graph && chrono.Abs() == Begin(graph, start)
      requires ordered != null ==> ordered.Valid()
      ensures Valid() && this.graph == graph && this.start == start && this.chrono == chrono && this.ordered == ordered
    {
      this.graph, this.start, this.chrono, this.ordered := graph, start, chrono, ordered;
      new;
      if chrono != null {
        BeginHealthy(graph, start);
      }
    }

    /** `Walk::next`; only an incomplete store makes it fail. */
    method Next() returns (r: Option<Result<Walked, Oid>>)
      requires Valid()
      modifies chrono, ordered
      ensures Valid()
      ensures Complete(graph, start) && old(Remaining()) == [] ==> r == None
      ensures Complete(graph, start) && old(Remaining()) != [] ==>
        r == Some(Ok(old(Remaining())[0])) && Remaining() == old(Remaining())[1..]
      ensures r.Some? && r.value.Ok? ==> |Remaining()| < |old(Remaining())|
    {
      hide Complete, WellQueued, Inv, Tracks, Rest, Drain, WalkedOf, Visit;
      if chrono != null {
        if Complete(graph, start) {
          QueueLeft(graph, start, chrono.Abs());
          if chrono.queue != [] {
            VisitHealthy(graph, start, chrono.Abs());
          }
        }
        r := chrono.Next();
      } else {
        var w := ordered.Next();
        r := if w.None? then None else Some(Ok(w.value));
      }
    }

    method TakePendingError() returns (r: Option<Oid>)
      requires Valid()
      modifies chrono
      ensures Valid() && (Complete(graph, start) ==> r == None) && (r == None ==> Remaining() == old(Remaining()))
    {
      if chrono != null {
        r := chrono.TakePendingError();
      } else {
        r := None;
      }
    }

    /** `Walk::has_matching`: never true when nothing in bounds remains. */
    method HasMatching(opts: LogOptions) returns (b: bool)
      requires Valid()
      ensures b && Complete(graph, start) ==> exists i :: 0 <= i < |Remaining()| && WithinTimeBounds(Remaining()[i].time, opts)
    {
      hide Complete, Inv, WellQueued, Rest, Drain, WalkedOf;
      if chrono != null {
        b := chrono.HasMatching(opts, start);
        assert Remaining() == chrono.Remaining();
      } else {
        b := ordered.HasMatching(opts);
        assert Remaining() == ordered.Remaining();
      }
    }
  }

  lemma QueueLeft(g: Graph, start: Oid, s: Priority)
    requires Complete(g, start) && Healthy(g, start, s)
    ensures s.queue == [] <==> Rest(g, s) == []
  {
    if s.queue != [] {
      RestUnfolds(g, s);
    }
  }

  /** `Walk::new`. */
  method NewWalk(kind: LogOrder, g: Graph, start: Oid) returns (r: Option<Walk>)
    ensures r.Some? ==> fresh(r.value) && r.value.Valid() && r.value.graph == g && r.value.start == start
    ensures r.Some? ==> (r.value.chrono != null ==> fresh(r.value.chrono)) && (r.value.ordered != null ==> fresh(r.value.ordered))
    ensures Complete(g, start) ==> r.Some? && r.value.Remaining() == WalkOutput(kind, g, start)
  {
    hide Complete, Rest, WellQueued, Drain, Inv, Discover, Exploring, Nodes, WalkedOf;
    if Complete(g, start) {
      StartStored(g, start);
      DiscoverComplete(g, start);
    }
    if start !in g { return None; }
    if kind == Chronological {
      var chrono := new ChronologicalWalk(g, start);
      var walk := new Walk(g, start, chrono, null);
      return Some(walk);
    }
    var order := Prepass(g, start);
    if order.Err? { return None; }
    DiscoveredExploring(g, start, order.value);
    RestrictNodes(g, start, order.value);
    var ordered := new OrderedWalk(kind, Restrict(g, order.value), order.value);
    OutputIs(kind, g, start, order.value);
    var walk := new Walk(g, start, null, ordered);
    return Some(walk);
  }

  lemma DiscoveredExploring(g: Graph, start: Oid, order: seq<Oid>)
    requires Discover(g, [start], []) == Ok(order)
    ensures Exploring(g, start, [], order) && forall x :: x in order ==> x in g
  {
    ReachesSelf(g, start);
    DiscoverReachable(g, start, [start], []);
  }

  // ----- the log

  /** What the loop of `log` has collected after reading the first `k` commits of the walk. */
  ghost predicate Collected(walked: seq<Walked>, k: nat, opts: LogOptions, resume: Option<Oid>, found: bool, commits: seq<Walked>) {
    && k <= |walked|
    && (found ==> ResumePlace(walked, resume) <= k && commits == Matching(walked[ResumePlace(walked, resume)..k], opts))
    && (!found ==> resume.Some? && commits == [] && k < PlaceAfter(walked, resume.value))
  }

  lemma CollectedStart(walked: seq<Walked>, opts: LogOptions, resume: Option<Oid>)
    ensures Collected(walked, 0, opts, resume, resume.None?, [])
  {
    if resume.None? {
      assert walked[0..0] == [];
    } else {
      assert PlaceAfter(walked, resume.value) > 0;
    }
  }

  /** Reading one more commit. */
  lemma CollectedStep(walked: seq<Walked>, k: nat, opts: LogOptions, resume: Option<Oid>, found: bool, commits: seq<Walked>)
    requires Collected(walked, k, opts, resume, found, commits) && k < |walked|
    ensures !found && walked[k].id == resume.value ==> Collected(walked, k + 1, opts, resume, true, commits)
    ensures !found && walked[k].id != resume.value ==> Collected(walked, k + 1, opts, resume, false, commits)
    ensures found && !WithinTimeBounds(walked[k].time, opts) ==> Collected(walked, k + 1, opts, resume, true, commits)
    ensures found && WithinTimeBounds(walked[k].time, opts) ==> Collected(walked, k + 1, opts, resume, true, commits + [walked[k]])
  {
    hide Matching, PlaceAfter, WithinTimeBounds;
    if found {
      MatchingNext(walked, ResumePlace(walked, resume), k, opts);
    } else {
      PlaceNext(walked, k, resume.value);
      assert walked[k + 1..k + 1] == [];
      NothingMatches(opts);
    }
  }

  lemma NothingMatches(opts: LogOptions)
    ensures Matching([], opts) == []
  {
  }

  lemma MatchingNext(walked: seq<Walked>, p: nat, k: nat, opts: LogOptions)
    requires p <= k < |walked|
    ensures Matching(walked[p..k + 1], opts)
      == if WithinTimeBounds(walked[k].time, opts) then Matching(walked[p..k], opts) + [walked[k]] else Matching(walked[p..k], opts)
  {
    hide WithinTimeBounds;
    var part := walked[p..k + 1];
    assert part[..|part| - 1] == walked[p..k] && part[|part| - 1] == walked[k];
  }

  /** The place after a commit that was not met before position `k`. */
  lemma PlaceNext(walked: seq<Walked>, k: nat, id: Oid)
    requires k < |walked| && k < PlaceAfter(walked, id)
    ensures walked[k].id == id ==> PlaceAfter(walked, id) == k + 1
    ensures walked[k].id != id ==> k + 1 < PlaceAfter(walked, id)
  {
    hide PlaceAfter;
    var q := PlaceAfter(walked, id);
    if q == k + 1 {
      assert walked[q - 1].id == id;
    }
  }

  /** A full page with a match still to come is truncated, and its last commit is the cursor. */
  lemma CollectedFull(walked: seq<Walked>, k: nat, opts: LogOptions, resume: Option<Oid>, commits: seq<Walked>, limit: nat)
    requires Collected(walked, k, opts, resume, true, commits) && |commits| == limit > 0
    requires exists i :: k <= i < |walked| && WithinTimeBounds(walked[i].time, opts)
    ensures ResumePlace(walked, resume) <= |walked|
    ensures LogPageOf(walked, opts, resume, limit) == LogPage(commits, Some(commits[limit - 1].id), true)
  {
    hide Matching, PlaceAfter;
    var p := ResumePlace(walked, resume);
    var rest := walked[p..];
    assert rest[..k - p] == walked[p..k] && rest[k - p..] == walked[k..];
    MatchingSplit(rest, k - p, opts);
    SomeMatches(walked, k, opts);
    assert (commits + Matching(walked[k..], opts))[..limit] == commits;
  }

  lemma SomeMatches(walked: seq<Walked>, k: nat, opts: LogOptions)
    requires exists i :: k <= i < |walked| && WithinTimeBounds(walked[i].time, opts)
    ensures Matching(walked[k..], opts) != []
  {
    hide Matching;
    MatchingWithin(walked[k..], opts);
    var i :| k <= i < |walked| && WithinTimeBounds(walked[i].time, opts);
    assert walked[k..][i - k] == walked[i];
    assert walked[i] in Matching(walked[k..], opts);
  }

  lemma CollectedAll(walked: seq<Walked>, opts: LogOptions, resume: Option<Oid>, found: bool, commits: seq<Walked>, limit: nat)
    requires Collected(walked, |walked|, opts, resume, found, commits) && |commits| <= limit && limit > 0
    ensures found <==> ResumePlace(walked, resume) <= |walked|
    ensures found ==> LogPageOf(walked, opts, resume, limit) == LogPage(commits, None, false)
  {
    if found {
      assert walked[ResumePlace(walked, resume)..|walked|] == walked[ResumePlace(walked, resume)..];
    }
  }

  /**
   * `log`: on a complete store, the page of the walk's output that the cursor
   * position and the limit select; truncated exactly when a match remains.
   */
  method Log(store: Graph, start: Oid, shallow: set<Oid>, opts: LogOptions, limit: nat, resume: Option<Oid>)
    returns (r: Result<LogPage, LogError>)
    ensures limit == 0 <==> r == Err(InvalidArgument)
    ensures r == Err(MissingObject) ==> !Complete(View(store, opts, shallow), start)
    ensures limit > 0 && Complete(View(store, opts, shallow), start) ==>
      var walked := WalkOutput(opts.order, View(store, opts, shallow), start);
      if ResumePlace(walked, resume) <= |walked| then r == Ok(LogPageOf(walked, opts, resume, limit))
      else r == Err(InvalidCursor)
  {
    hide Complete, WalkOutput, View, Collected, Matching, Walk.Valid, Walk.Remaining, LogPageOf, PlaceAfter, ResumePlace;
    if limit == 0 { return Err(InvalidArgument); }
    var g := View(store, opts, shallow);
    var created := NewWalk(opts.order, g, start);
    if created.None? { return Err(MissingObject); }
    var walk := created.value;
    ghost var complete := Complete(g, start);
    ghost var walked := if complete then WalkOutput(opts.order, g, start) else [];
    var found, commits, stopped := resume.None?, [], false;
    ghost var k := 0;
    CollectedStart(walked, opts, resume);
    assert walked[0..] == walked;
    while true
      invariant walk.Valid() && walk.graph == g && walk.start == start
      invariant walk.chrono != null ==> fresh(walk.chrono)
      invariant walk.ordered != null ==> fresh(walk.ordered)
      invariant |commits| <= limit && !stopped && (!found ==> resume.Some?)
      invariant complete ==> k <= |walked| && walk.Remaining() == walked[k..]
      invariant complete ==> Collected(walked, k, opts, resume, found, commits)
      decreases |walk.Remaining()|
    {
      var step := walk.Next();
      if step.None? { break; }
      if step.value.Err? { return Err(MissingObject); }
      var next := step.value.value;
      ghost var here := k;
      if complete {
        assert next == walked[k];
        CollectedStep(walked, k, opts, resume, found, commits);
        k := k + 1;
        assert walk.Remaining() == walked[k..];
      }
      if !found {
        if resume == Some(next.id) { found := true; }
        continue;
      }
      if !WithinTimeBounds(next.time, opts) { continue; }
      if |commits| == limit {
        stopped := true;
        if complete {
          CollectedFull(walked, here, opts, resume, commits, limit);
        }
        break;
      }
      commits := commits + [next];
      var pending := walk.TakePendingError();
      if pending.Some? { return Err(MissingObject); }
      if |commits| == limit {
        var more := walk.HasMatching(opts);
        if more {
          stopped := true;
          if complete {
            StillMatching(walked, k, opts, walk.Remaining());
            CollectedFull(walked, k, opts, resume, commits, limit);
          }
          break;
        }
      }
    }
    if complete && !stopped {
      assert k == |walked|;
      CollectedAll(walked, opts, resume, found, commits, limit);
    }
    if !found { return Err(InvalidCursor); }
    var cursor := if stopped then Some(commits[|commits| - 1].id) else None;
    return Ok(LogPage(commits, cursor, stopped));
  }

  lemma StillMatching(walked: seq<Walked>, k: nat, opts: LogOptions, left: seq<Walked>)
    requires k <= |walked| && left == walked[k..]
    requires exists i :: 0 <= i < |left| && WithinTimeBounds(left[i].time, opts)
    ensures exists i :: k <= i < |walked| && WithinTimeBounds(walked[i].time, opts)
  {
    var i :| 0 <= i < |left| && WithinTimeBounds(left[i].time, opts);
    assert walked[k + i] == left[i];
  }

  /** All three log orders: following cursors through any positive limits reads the whole log once. */
  lemma LogPagesAreTheLog(store: Graph, start: Oid, shallow: set<Oid>, opts: LogOptions, limits: seq<nat>)
    requires Complete(View(store, opts, shallow), start) && forall i :: 0 <= i < |limits| ==> limits[i] > 0
    ensures
      var walked := WalkOutput(opts.order, View(store, opts, shallow), start);
      var all := Matching(walked, opts);
      var pages := FollowedPages(walked, opts, None, limits);
      && (forall w :: w in all <==> w in walked && WithinTimeBounds(w.time, opts))
      && Flatten(pages) == all[..Min(Total(limits), |all|)]
      && (|limits| > |all| ==> Flatten(pages) == all)
      && (all != [] ==> forall i :: 0 <= i < |pages| ==> pages[i] != [])
  {
    hide Complete, WalkOutput, View, Matching, FollowedPages, Flatten, DistinctIds;
    var g := View(store, opts, shallow);
    WalkOutputOnce(opts.order, g, start);
    MatchingWithin(WalkOutput(opts.order, g, start), opts);
    PagesAreTheLog(WalkOutput(opts.order, g, start), opts, limits);
  }
}
