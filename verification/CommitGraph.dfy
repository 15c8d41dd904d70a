/** Commit metadata and reachability through parent edges. */
module CommitGraph {
  import opened Basics

  /** Commit object IDs, totally ordered as `Oid` is. */
  type Oid = nat

  /** The commit fields a walk reads. */
  datatype Meta = Meta(parents: seq<Oid>, time: int)

  /** A commit store after `read_meta`; a missing key is a missing object. */
  type Graph = map<Oid, Meta>

  datatype LogOrder = Chronological | Topological | DateOrder

  datatype LogOptions = LogOptions(order: LogOrder, firstParent: bool, since: Option<int>, until: Option<int>)

  datatype Walked = Walked(id: Oid, time: int)

  predicate WithinTimeBounds(time: int, opts: LogOptions) {
    (opts.since.Some? ==> time >= opts.since.value) && (opts.until.Some? ==> time <= opts.until.value)
  }

  /** `read_meta`: first-parent truncation, then clearing below `since` and at shallow roots. */
  function EffectiveMeta(id: Oid, raw: Meta, opts: LogOptions, shallow: set<Oid>): Meta {
    var parents := if opts.firstParent && |raw.parents| > 1 then raw.parents[..1] else raw.parents;
    if (opts.since.Some? && raw.time < opts.since.value) || id in shallow then Meta([], raw.time)
    else Meta(parents, raw.time)
  }

  /** The graph a walk sees. */
  function View(store: Graph, opts: LogOptions, shallow: set<Oid>): Graph {
    map id | id in store :: EffectiveMeta(id, store[id], opts, shallow)
  }

  // ----- paths

  predicate HasParent(g: Graph, n: Oid, p: Oid) {
    n in g && p in g[n].parents
  }

  /** `p` follows parent edges from its first to its last element. */
  ghost predicate IsPath(g: Graph, p: seq<Oid>) {
    p != [] && forall i :: 0 <= i < |p| - 1 ==> HasParent(g, p[i], p[i + 1])
  }

  ghost predicate PathFromTo(g: Graph, p: seq<Oid>, a: Oid, b: Oid) {
    IsPath(g, p) && p[0] == a && p[|p| - 1] == b
  }

  ghost predicate Reaches(g: Graph, a: Oid, b: Oid) {
    exists p :: PathFromTo(g, p, a, b)
  }

  ghost predicate OnCycle(g: Graph, n: Oid) {
    exists p :: |p| > 1 && PathFromTo(g, p, n, n)
  }

  /** On a cycle, or reachable through parent edges from one. */
  ghost predicate FromCycle(g: Graph, n: Oid) {
    exists c :: OnCycle(g, c) && Reaches(g, c, n)
  }

  /** Every commit reachable from `start` is in the store. */
  ghost predicate Complete(g: Graph, start: Oid) {
    forall n :: Reaches(g, start, n) ==> n in g
  }

  lemma ReachesSelf(g: Graph, a: Oid)
    ensures Reaches(g, a, a)
  {
    assert PathFromTo(g, [a], a, a);
  }

  lemma ReachesParent(g: Graph, a: Oid, n: Oid, p: Oid)
    requires Reaches(g, a, n) && HasParent(g, n, p)
    ensures Reaches(g, a, p)
  {
    var path :| PathFromTo(g, path, a, n);
    assert PathFromTo(g, path + [p], a, p);
  }

  /** A set that holds `start` and is closed under parents holds everything reachable. */
  lemma ClosedHoldsReachable(g: Graph, start: Oid, closed: seq<Oid>, n: Oid)
    requires start in closed && Reaches(g, start, n)
    requires forall x, p :: x in closed && HasParent(g, x, p) ==> p in closed
    ensures n in closed
  {
    var path :| PathFromTo(g, path, start, n);
    ClosedHoldsPath(g, path, closed);
  }

  lemma {:induction false} ClosedHoldsPath(g: Graph, path: seq<Oid>, closed: seq<Oid>)
    requires IsPath(g, path) && path[0] in closed
    requires forall x, p :: x in closed && HasParent(g, x, p) ==> p in closed
    ensures path[|path| - 1] in closed
    decreases |path|
  {
    if |path| > 1 {
      assert HasParent(g, path[0], path[1]);
      assert IsPath(g, path[1..]);
      ClosedHoldsPath(g, path[1..], closed);
    }
  }

  /** Every commit reached from elsewhere is the parent of a reached one. */
  lemma ReachedFromChild(g: Graph, a: Oid, n: Oid) returns (child: Oid)
    requires Reaches(g, a, n) && n != a
    ensures Reaches(g, a, child) && HasParent(g, child, n)
  {
    var path :| PathFromTo(g, path, a, n);
    var m := |path| - 2;
    child := path[m];
    assert HasParent(g, path[m], path[m + 1]);
    assert PathFromTo(g, path[..m + 1], a, child);
  }

  // ----- the view and the stored commits

  /** A walk goes on to the parents of a commit that is stored, no shallow root and not older than `since`. */
  predicate GoesOn(store: Graph, opts: LogOptions, shallow: set<Oid>, n: Oid) {
    n in store && n !in shallow && (opts.since.Some? ==> opts.since.value <= store[n].time)
  }

  /** The parents a walk follows: the first one only, or every listed one. */
  predicate Follows(store: Graph, opts: LogOptions, n: Oid, p: Oid) {
    n in store && if opts.firstParent then store[n].parents != [] && p == store[n].parents[0] else p in store[n].parents
  }

  /** The parent edges of a walk, on the stored commits. */
  lemma ViewParents(store: Graph, opts: LogOptions, shallow: set<Oid>, n: Oid, p: Oid)
    ensures HasParent(View(store, opts, shallow), n, p) <==> GoesOn(store, opts, shallow, n) && Follows(store, opts, n, p)
  {
  }

  /** Commits keep their times; without first-parent history a walk sees all parents, in their order, where it goes on. */
  lemma ViewKeeps(store: Graph, opts: LogOptions, shallow: set<Oid>, n: Oid)
    ensures n in View(store, opts, shallow) <==> n in store
    ensures n in store ==> View(store, opts, shallow)[n].time == store[n].time
    ensures GoesOn(store, opts, shallow, n) && !opts.firstParent ==> View(store, opts, shallow)[n] == store[n]
    ensures n in store && opts.firstParent ==> |View(store, opts, shallow)[n].parents| <= 1
  {
  }

  /** A path along followed parents through commits the walk goes on from; its last commit may be anything. */
  ghost predicate StorePath(store: Graph, opts: LogOptions, shallow: set<Oid>, path: seq<Oid>, a: Oid, b: Oid) {
    && path != [] && path[0] == a && path[|path| - 1] == b
    && forall i :: 0 <= i < |path| - 1 ==> GoesOn(store, opts, shallow, path[i]) && Follows(store, opts, path[i], path[i + 1])
  }

  /** What a walk reaches, on the stored commits: no path leads on from a shallow root or a commit older than `since`. */
  lemma ViewReaches(store: Graph, opts: LogOptions, shallow: set<Oid>, a: Oid, b: Oid)
    ensures Reaches(View(store, opts, shallow), a, b) <==> exists path :: StorePath(store, opts, shallow, path, a, b)
  {
    hide View, GoesOn, Follows, HasParent;
    var g := View(store, opts, shallow);
    forall path ensures PathFromTo(g, path, a, b) <==> StorePath(store, opts, shallow, path, a, b) {
      ViewPath(store, opts, shallow, path, a, b);
    }
  }

  lemma ViewPath(store: Graph, opts: LogOptions, shallow: set<Oid>, path: seq<Oid>, a: Oid, b: Oid)
    ensures PathFromTo(View(store, opts, shallow), path, a, b) <==> StorePath(store, opts, shallow, path, a, b)
  {
    hide View, GoesOn, Follows, HasParent;
    var g := View(store, opts, shallow);
    if PathFromTo(g, path, a, b) {
      forall i | 0 <= i < |path| - 1 ensures GoesOn(store, opts, shallow, path[i]) && Follows(store, opts, path[i], path[i + 1]) {
        ViewParents(store, opts, shallow, path[i], path[i + 1]);
      }
    }
    if StorePath(store, opts, shallow, path, a, b) {
      forall i | 0 <= i < |path| - 1 ensures HasParent(g, path[i], path[i + 1]) {
        ViewParents(store, opts, shallow, path[i], path[i + 1]);
      }
    }
  }

  /** Nothing lies behind a shallow root, or a commit older than `since`, unless another child leads to it. */
  lemma BehindShallow(store: Graph, opts: LogOptions, shallow: set<Oid>, start: Oid, n: Oid) returns (child: Oid)
    requires n != start && Reaches(View(store, opts, shallow), start, n)
    ensures child !in shallow && child in store && (opts.since.Some? ==> opts.since.value <= store[child].time)
    ensures n in store[child].parents && Reaches(View(store, opts, shallow), start, child)
  {
    hide View, HasParent, Reaches;
    child := ReachedFromChild(View(store, opts, shallow), start, n);
    ViewParents(store, opts, shallow, child, n);
  }

  // ----- pigeonhole

  lemma {:induction false} DistinctWithin(s: seq<Oid>, bound: set<Oid>)
    requires Distinct(s) && forall x :: x in s ==> x in bound
    ensures |s| <= |bound|
  {
    if s != [] {
      var n := |s| - 1;
      assert s[n] !in s[..n];
      forall x | x in s[..n] ensures x in bound - {s[n]} {
        assert x in s;
      }
      DistinctWithin(s[..n], bound - {s[n]});
    }
  }

  /** A long enough walk inside a set repeats a node. */
  lemma Repeats(s: seq<Oid>, bound: set<Oid>)
    requires |s| > |bound| && forall x :: x in s ==> x in bound
    ensures exists i, j :: 0 <= i < j < |s| && s[i] == s[j]
  {
    if Distinct(s) {
      DistinctWithin(s, bound);
    }
  }

  /** Every node of the set has a child inside it. */
  ghost predicate Stuck(g: Graph, s: set<Oid>) {
    forall p :: p in s ==> HasChildIn(g, s, p)
  }

  ghost predicate HasChildIn(g: Graph, s: set<Oid>, p: Oid) {
    exists n :: n in s && HasParent(g, n, p)
  }

  lemma ChildIn(g: Graph, s: set<Oid>, p: Oid) returns (n: Oid)
    requires HasChildIn(g, s, p)
    ensures n in s && HasParent(g, n, p)
  {
    n :| n in s && HasParent(g, n, p);
  }

  /** Where every node has a child inside the set, paths of any length end at any node of it. */
  lemma {:induction false} LongPathInto(g: Graph, stuck: set<Oid>, x: Oid, length: nat) returns (path: seq<Oid>)
    requires x in stuck && length > 0
    requires Stuck(g, stuck)
    ensures IsPath(g, path) && |path| == length && path[length - 1] == x && forall y :: y in path ==> y in stuck
  {
    hide HasChildIn;
    if length == 1 {
      path := [x];
    } else {
      var rest := LongPathInto(g, stuck, x, length - 1);
      var n := ChildIn(g, stuck, rest[0]);
      path := [n] + rest;
    }
  }

  /** In a finite set where every node has a child inside, every node comes from a cycle. */
  lemma StuckIsFromCycle(g: Graph, stuck: set<Oid>, x: Oid)
    requires x in stuck
    requires Stuck(g, stuck)
    ensures FromCycle(g, x)
  {
    hide Stuck;
    var path := LongPathInto(g, stuck, x, |stuck| + 1);
    Repeats(path, stuck);
    var i, j :| 0 <= i < j < |path| && path[i] == path[j];
    var loop := path[i..j + 1];
    assert PathFromTo(g, loop, path[i], path[i]);
    assert OnCycle(g, path[i]);
    assert PathFromTo(g, path[j..], path[i], x);
  }

  /**
   * In a sequence where every child comes before its parents, nothing comes
   * from a cycle: positions would have to fall forever.
   */
  lemma {:induction false} OrderedIsNotFromCycle(g: Graph, s: seq<Oid>, k: nat)
    requires k < |s| && ChildrenFirst(g, s)
    ensures !FromCycle(g, s[k])
  {
    if FromCycle(g, s[k]) {
      var c :| OnCycle(g, c) && Reaches(g, c, s[k]);
      var path :| PathFromTo(g, path, c, s[k]);
      var i := PathStartsEarlier(g, s, path, k);
      var loop :| |loop| > 1 && PathFromTo(g, loop, c, c);
      CycleFalls(g, s, loop, i);
    }
  }

  /** Every child of `s[k]` occurs strictly before position `k`. */
  ghost predicate ChildrenFirst(g: Graph, s: seq<Oid>) {
    forall k, n :: 0 <= k < |s| && HasParent(g, n, s[k]) ==> n in s[..k]
  }

  lemma {:induction false} PathStartsEarlier(g: Graph, s: seq<Oid>, path: seq<Oid>, k: nat) returns (i: nat)
    requires k < |s| && ChildrenFirst(g, s) && IsPath(g, path) && path[|path| - 1] == s[k]
    ensures i <= k && s[i] == path[0] && (|path| > 1 ==> i < k)
    decreases |path|
  {
    if |path| == 1 {
      i := k;
    } else {
      var m := |path| - 2;
      assert HasParent(g, path[m], path[m + 1]);
      var j :| 0 <= j < k && s[..k][j] == path[m];
      assert IsPath(g, path[..m + 1]);
      i := PathStartsEarlier(g, s, path[..m + 1], j);
    }
  }

  lemma {:induction false} CycleFalls(g: Graph, s: seq<Oid>, loop: seq<Oid>, i: nat)
    requires i < |s| && ChildrenFirst(g, s) && |loop| > 1 && IsPath(g, loop)
    requires loop[0] == s[i] && loop[|loop| - 1] == s[i]
    ensures false
    decreases i
  {
    var j := PathStartsEarlier(g, s, loop, i);
    CycleFalls(g, s, loop, j);
  }
}
