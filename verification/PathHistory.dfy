/** Path history with rename retargeting (crates/gitility-core/src/path_history.rs). */
module PathHistory {
  import opened Basics
  import opened CommitGraph
  import opened Paging
  import opened Logs

  type Path = seq<byte>

  /** What one commit did to the tracked path. */
  datatype PathChange = PathChange(changed: bool, renameSource: Option<Path>)

  /** The comparison of a commit with its first parent, as a deterministic function. */
  type Comparison = (Oid, Path) -> PathChange

  /** History walks chronologically with no bounds. */
  const WALK_OPTIONS: LogOptions := LogOptions(Chronological, false, None, None)

  /** The path being tracked after the commits of `walked`. */
  function Tracked(walked: seq<Walked>, path: Path, compare: Comparison): Path {
    if walked == [] then path
    else
      var n := |walked| - 1;
      var before := Tracked(walked[..n], path, compare);
      var change := compare(walked[n].id, before);
      if change.renameSource.Some? then change.renameSource.value else before
  }

  /** The unpaged history: the commits that changed the path tracked at them. */
  function Changed(walked: seq<Walked>, path: Path, compare: Comparison): seq<Walked> {
    if walked == [] then []
    else
      var n := |walked| - 1;
      Changed(walked[..n], path, compare)
      + (if compare(walked[n].id, Tracked(walked[..n], path, compare)).changed then [walked[n]] else [])
  }

  lemma {:induction false} ChangedPrefix(walked: seq<Walked>, k: nat, path: Path, compare: Comparison)
    requires k <= |walked|
    ensures Changed(walked[..k], path, compare) <= Changed(walked, path, compare)
    decreases |walked|
  {
    if k == |walked| {
      assert walked[..k] == walked;
    } else {
      var n := |walked| - 1;
      ChangedPrefix(walked[..n], k, path, compare);
      assert walked[..n][..k] == walked[..k];
    }
  }

  /** The next changed commit is the next entry of the history. */
  lemma ChangedNext(walked: seq<Walked>, k: nat, path: Path, compare: Comparison)
    requires k < |walked|
    ensures
      var before := Tracked(walked[..k], path, compare);
      var change := compare(walked[k].id, before);
      var done, all := Changed(walked[..k], path, compare), Changed(walked, path, compare);
      && Tracked(walked[..k + 1], path, compare) == (if change.renameSource.Some? then change.renameSource.value else before)
      && (change.changed ==> |done| < |all| && all[|done|] == walked[k] && |Changed(walked[..k + 1], path, compare)| == |done| + 1)
      && (!change.changed ==> Changed(walked[..k + 1], path, compare) == done)
  {
    assert walked[..k + 1][..k] == walked[..k];
    ChangedPrefix(walked, k + 1, path, compare);
  }

  lemma {:induction false} ChangedWithin(walked: seq<Walked>, path: Path, compare: Comparison)
    requires DistinctIds(walked)
    ensures DistinctIds(Changed(walked, path, compare))
    ensures forall w :: w in Changed(walked, path, compare) ==> w in walked
  {
    if walked != [] {
      var n := |walked| - 1;
      ChangedWithin(walked[..n], path, compare);
      var init := Changed(walked[..n], path, compare);
      forall i | 0 <= i < |init| ensures init[i].id != walked[n].id && init[i] in walked {
        assert init[i] in walked[..n];
      }
    }
  }

  lemma {:induction false} MatchingAll(walked: seq<Walked>)
    ensures Matching(walked, WALK_OPTIONS) == walked
  {
    if walked != [] {
      var n := |walked| - 1;
      MatchingAll(walked[..n]);
      assert walked == walked[..n] + [walked[n]];
    }
  }

  /**
   * `history`: on a complete store, replaying the walk rebuilds the tracked
   * path, and the page is cut from the unpaged history at the cursor.
   */
  method History(store: Graph, start: Oid, shallow: set<Oid>, path: Path, compare: Comparison, limit: nat, resume: Option<Oid>)
    returns (r: Result<LogPage, LogError>)
    ensures limit == 0 <==> r == Err(InvalidArgument)
    ensures r == Err(MissingObject) ==> !Complete(View(store, WALK_OPTIONS, shallow), start)
    ensures limit > 0 && Complete(View(store, WALK_OPTIONS, shallow), start) ==>
      var all := Changed(WalkOutput(Chronological, View(store, WALK_OPTIONS, shallow), start), path, compare);
      if ResumePlace(all, resume) <= |all| then r == Ok(LogPageOf(all, WALK_OPTIONS, resume, limit))
      else r == Err(InvalidCursor)
  {
    hide Complete, WalkOutput, View, Collected, Matching, Walk.Valid, Walk.Remaining, Changed, Tracked, LogPageOf, ResumePlace;
    if limit == 0 { return Err(InvalidArgument); }
    var g := View(store, WALK_OPTIONS, shallow);
    var created := NewWalk(Chronological, g, start);
    if created.None? { return Err(MissingObject); }
    var walk := created.value;
    ghost var complete := Complete(g, start);
    ghost var walked := if complete then WalkOutput(Chronological, g, start) else [];
    ghost var all := Changed(walked, path, compare);
    var tracked, found, commits, stopped := path, resume.None?, [], false;
    ghost var k := 0;
    StartsEmpty(walked, path, compare);
    CollectedStart(all, WALK_OPTIONS, resume);
    assert walked[0..] == walked;
    while true
      invariant walk.Valid() && walk.graph == g && walk.start == start
      invariant walk.chrono != null ==> fresh(walk.chrono)
      invariant walk.ordered != null ==> fresh(walk.ordered)
      invariant |commits| <= limit && !stopped && (!found ==> resume.Some?) && k <= |walked|
      invariant complete ==> walk.Remaining() == walked[k..] && tracked == Tracked(walked[..k], path, compare)
      invariant complete ==> Collected(all, |Changed(walked[..k], path, compare)|, WALK_OPTIONS, resume, found, commits)
      decreases |walk.Remaining()|
    {
      var step := walk.Next();
      if step.None? { break; }
      if step.value.Err? { return Err(MissingObject); }
      var next := step.value.value;
      var change := compare(next.id, tracked);
      ghost var e := |Changed(walked[..k], path, compare)|;
      if complete {
        assert next == walked[k];
        ChangedNext(walked, k, path, compare);
        if change.changed {
          CollectedStep(all, e, WALK_OPTIONS, resume, found, commits);
        }
        k := k + 1;
        assert walk.Remaining() == walked[k..];
      }
      if change.renameSource.Some? {
        tracked := change.renameSource.value;
      }
      if change.changed {
        if !found {
          if resume == Some(next.id) { found := true; }
          continue;
        }
        if |commits| == limit {
          stopped := true;
          if complete {
            CollectedFull(all, e, WALK_OPTIONS, resume, commits, limit);
          }
          break;
        }
        commits := commits + [next];
      }
      var pending := walk.TakePendingError();
      if pending.Some? { return Err(MissingObject); }
    }
    if complete && !stopped {
      assert k == |walked| && walked[..k] == walked;
      CollectedAll(all, WALK_OPTIONS, resume, found, commits, limit);
    }
    if !found { return Err(InvalidCursor); }
    var cursor := if stopped then Some(commits[|commits| - 1].id) else None;
    return Ok(LogPage(commits, cursor, stopped));
  }

  lemma StartsEmpty(walked: seq<Walked>, path: Path, compare: Comparison)
    ensures Tracked(walked[..0], path, compare) == path && Changed(walked[..0], path, compare) == []
  {
  }

  /** Following history cursors, with any positive limits, reads the unpaged history once. */
  lemma HistoryPagesAreTheHistory(store: Graph, start: Oid, shallow: set<Oid>, path: Path, compare: Comparison, limits: seq<nat>)
    requires Complete(View(store, WALK_OPTIONS, shallow), start) && forall i :: 0 <= i < |limits| ==> limits[i] > 0
    ensures
      var all := Changed(WalkOutput(Chronological, View(store, WALK_OPTIONS, shallow), start), path, compare);
      var pages := FollowedPages(all, WALK_OPTIONS, None, limits);
      && Flatten(pages) == all[..Min(Total(limits), |all|)]
      && (|limits| > |all| ==> Flatten(pages) == all)
      && (all != [] ==> forall i :: 0 <= i < |pages| ==> pages[i] != [])
  {
    hide Complete, WalkOutput, View, Matching, FollowedPages, Flatten, DistinctIds, Changed;
    var walked := WalkOutput(Chronological, View(store, WALK_OPTIONS, shallow), start);
    WalkOutputOnce(Chronological, View(store, WALK_OPTIONS, shallow), start);
    ChangedWithin(walked, path, compare);
    MatchingAll(Changed(walked, path, compare));
    PagesAreTheLog(Changed(walked, path, compare), WALK_OPTIONS, limits);
  }

  /** History follows every parent of every commit it can read on from, whatever its time. */
  lemma HistoryFollows(store: Graph, shallow: set<Oid>, n: Oid, p: Oid)
    ensures HasParent(View(store, WALK_OPTIONS, shallow), n, p) <==> n in store && n !in shallow && p in store[n].parents
  {
    hide View;
    ViewParents(store, WALK_OPTIONS, shallow, n, p);
  }

  /** The commits a history looks at: all that parent paths lead to, with no shallow root before their end. */
  lemma HistoryVisits(store: Graph, start: Oid, shallow: set<Oid>, w: Walked)
    requires Complete(View(store, WALK_OPTIONS, shallow), start)
    ensures w in WalkOutput(Chronological, View(store, WALK_OPTIONS, shallow), start) <==>
      && w.id in store && w.time == store[w.id].time
      && exists path :: StorePath(store, WALK_OPTIONS, shallow, path, start, w.id)
  {
    hide View, WalkOutput, Reaches, StorePath, Complete;
    var g := View(store, WALK_OPTIONS, shallow);
    WalkOutputOnce(Chronological, g, start);
    ViewReaches(store, WALK_OPTIONS, shallow, start, w.id);
    ViewKeeps(store, WALK_OPTIONS, shallow, w.id);
    assert Reaches(g, start, w.id) <==> w.id in g && Walked(w.id, g[w.id].time) in WalkOutput(Chronological, g, start);
    assert w == Walked(w.id, w.time);
  }
}
