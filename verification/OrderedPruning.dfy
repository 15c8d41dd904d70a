/** `since` pruning under the topological and date orders (crates/gitility-core/src/log.rs). */
module OrderedPruning {
  import opened Basics
  import opened CommitGraph
  import opened OrderedWalks
  import opened ChronologicalWalks

  predicate Recent(g: Graph, x: Oid, since: int) {
    x in g && g[x].time >= since
  }

  /**
   * Two graphs with the same recent commits, where every child of a recent
   * commit is recent.
   */
  ghost predicate Shared(f: Graph, p: Graph, since: int) {
    && (forall x :: Recent(f, x, since) <==> Recent(p, x, since))
    && (forall x :: Recent(f, x, since) ==> f[x] == p[x])
    && (forall n, x :: HasParent(f, n, x) && Recent(f, x, since) ==> Recent(f, n, since))
    && (forall n, x :: HasParent(p, n, x) && Recent(p, x, since) ==> Recent(p, n, since))
  }

  // ----- the recent part of a ready queue

  datatype Key = Key(id: Oid, time: int)

  function Keys(ready: seq<Ready>, since: int): seq<Key> {
    if ready == [] then []
    else
      var n := |ready| - 1;
      Keys(ready[..n], since) + (if ready[n].time >= since then [Key(ready[n].id, ready[n].time)] else [])
  }

  lemma {:induction false} KeysConcat(a: seq<Ready>, b: seq<Ready>, since: int)
    ensures Keys(a + b, since) == Keys(a, since) + Keys(b, since)
    decreases |b|
  {
    if b == [] {
      assert a + b == a;
    } else {
      var n := |b| - 1;
      KeysConcat(a, b[..n], since);
      assert (a + b)[..|a + b| - 1] == a + b[..n];
    }
  }

  lemma KeysOne(e: Ready, since: int)
    ensures Keys([e], since) == if e.time >= since then [Key(e.id, e.time)] else []
  {
    assert [e][..0] == [];
    assert Keys([], since) == [];
  }

  lemma {:induction false} KeysFrom(ready: seq<Ready>, since: int, k: Key)
    requires k in Keys(ready, since)
    ensures exists i :: 0 <= i < |ready| && ready[i].id == k.id && ready[i].time == k.time
  {
    var n := |ready| - 1;
    if k in Keys(ready[..n], since) {
      KeysFrom(ready[..n], since, k);
      var i :| 0 <= i < n && ready[..n][i].id == k.id && ready[..n][i].time == k.time;
      assert ready[i].id == k.id;
    } else {
      assert ready[n].id == k.id;
    }
  }

  lemma {:induction false} SomeKey(ready: seq<Ready>, since: int, i: nat)
    requires i < |ready| && ready[i].time >= since
    ensures Keys(ready, since) != []
  {
    var n := |ready| - 1;
    if i < n {
      SomeKey(ready[..n], since, i);
    }
  }

  /** Entries carry their commit's time, and date order pushes with increasing sequence numbers. */
  ghost predicate Stamped(kind: LogOrder, g: Graph, s: State) {
    && s.counts.Keys == g.Keys
    && (forall i :: 0 <= i < |s.ready| ==> s.ready[i].id in g && s.ready[i].time == g[s.ready[i].id].time)
    && (kind == DateOrder ==>
          && (forall i, j :: 0 <= i < j < |s.ready| ==> s.ready[i].sequence < s.ready[j].sequence)
          && (forall i :: 0 <= i < |s.ready| ==> s.ready[i].sequence < s.nextSequence))
  }

  /** Two walks that agree on every recent commit. */
  ghost predicate Alike(kind: LogOrder, f: Graph, a: State, p: Graph, b: State, since: int) {
    && Stamped(kind, f, a) && Stamped(kind, p, b)
    && Keys(a.ready, since) == Keys(b.ready, since)
    && (forall x :: Recent(f, x, since) && Recent(p, x, since) ==> (x in a.emitted <==> x in b.emitted) && a.counts[x] == b.counts[x])
  }

  // ----- releasing parents

  lemma PushedKeys(kind: LogOrder, g: Graph, s: State, x: Oid, since: int)
    requires Stamped(kind, g, s) && x in g
    ensures
      var t := Pushed(kind, g, s, x);
      && Stamped(kind, g, t) && t.counts == s.counts && t.emitted == s.emitted
      && Keys(t.ready, since) == Keys(s.ready, since) + if g[x].time >= since then [Key(x, g[x].time)] else []
  {
    var t := Pushed(kind, g, s, x);
    var e := t.ready[|s.ready|];
    assert t.ready == s.ready + [e];
    hide Keys;
    KeysConcat(s.ready, [e], since);
    KeysOne(e, since);
  }

  /** One release step. */
  function ReleasedOne(kind: LogOrder, g: Graph, s: State, x: Oid): State
    requires s.counts.Keys == g.Keys && x in g
  {
    var count := SaturatingSub(s.counts[x], 1);
    var s1 := s.(counts := s.counts[x := count]);
    if count == 0 then Pushed(kind, g, s1, x) else s1
  }

  lemma OneKeeps(kind: LogOrder, g: Graph, s: State, x: Oid, since: int)
    requires Stamped(kind, g, s) && x in g
    ensures
      var t := ReleasedOne(kind, g, s, x);
      && Stamped(kind, g, t) && t.emitted == s.emitted
      && t.counts == s.counts[x := SaturatingSub(s.counts[x], 1)]
      && Keys(t.ready, since)
         == Keys(s.ready, since) + if g[x].time >= since && SaturatingSub(s.counts[x], 1) == 0 then [Key(x, g[x].time)] else []
  {
    hide Keys, Pushed;
    var count := SaturatingSub(s.counts[x], 1);
    var s1 := s.(counts := s.counts[x := count]);
    if count == 0 {
      PushedKeys(kind, g, s1, x, since);
    }
  }

  /** Releasing old parents changes nothing about recent commits. */
  lemma {:induction false} ReleasedOld(kind: LogOrder, g: Graph, s: State, parents: seq<Oid>, since: int)
    requires Stamped(kind, g, s) && forall x :: x in parents ==> x in g && g[x].time < since
    ensures
      var t := Released(kind, g, s, parents);
      && Stamped(kind, g, t) && t.emitted == s.emitted && Keys(t.ready, since) == Keys(s.ready, since)
      && forall x :: Recent(g, x, since) ==> t.counts[x] == s.counts[x]
    decreases |parents|
  {
    hide Keys, Released, Pushed, Stamped;
    StampedDomain(kind, g, s);
    if parents == [] {
      ReleasedNone(kind, g, s);
    } else {
      ReleasedUnfold(kind, g, s, parents);
      OneKeeps(kind, g, s, parents[0], since);
      var t := ReleasedOne(kind, g, s, parents[0]);
      StampedDomain(kind, g, t);
      ReleasedOld(kind, g, t, parents[1..], since);
    }
  }

  lemma StampedDomain(kind: LogOrder, g: Graph, s: State)
    requires Stamped(kind, g, s)
    ensures s.counts.Keys == g.Keys && forall i :: 0 <= i < |s.ready| ==> s.ready[i].id in g
  {
  }

  /** Releasing the same parents keeps two walks alike. */
  lemma {:induction false} ReleasedAlike(kind: LogOrder, f: Graph, a: State, p: Graph, b: State, parents: seq<Oid>, since: int)
    requires Shared(f, p, since) && Alike(kind, f, a, p, b, since) && forall x :: x in parents ==> x in f && x in p
    ensures a.counts.Keys == f.Keys && b.counts.Keys == p.Keys
    ensures Alike(kind, f, Released(kind, f, a, parents), p, Released(kind, p, b, parents), since)
    decreases |parents|
  {
    hide Keys, Released, Pushed, Stamped, ReleasedOne, HasParent;
    StampedDomain(kind, f, a);
    StampedDomain(kind, p, b);
    if parents == [] {
      ReleasedNone(kind, f, a);
      ReleasedNone(kind, p, b);
    } else {
      var x := parents[0];
      UnfoldOne(kind, f, a, parents);
      UnfoldOne(kind, p, b, parents);
      OneKeeps(kind, f, a, x, since);
      OneKeeps(kind, p, b, x, since);
      assert Recent(f, x, since) <==> Recent(p, x, since);
      var a1, b1 := ReleasedOne(kind, f, a, x), ReleasedOne(kind, p, b, x);
      StampedDomain(kind, f, a1);
      StampedDomain(kind, p, b1);
      ReleasedAlike(kind, f, a1, p, b1, parents[1..], since);
    }
  }

  lemma UnfoldOne(kind: LogOrder, g: Graph, s: State, parents: seq<Oid>)
    requires s.counts.Keys == g.Keys && parents != [] && forall p :: p in parents ==> p in g
    ensures ReleasedOne(kind, g, s, parents[0]).counts.Keys == g.Keys
    ensures Released(kind, g, s, parents) == Released(kind, g, ReleasedOne(kind, g, s, parents[0]), parents[1..])
  {
    ReleasedUnfold(kind, g, s, parents);
  }

  // ----- popping

  function Popped(s: State, i: nat): State
    requires i < |s.ready|
  {
    s.(ready := s.ready[..i] + s.ready[i + 1..], emitted := s.emitted + {s.ready[i].id})
  }

  lemma PoppedStamped(kind: LogOrder, g: Graph, s: State, i: nat)
    requires Stamped(kind, g, s) && i < |s.ready|
    ensures Stamped(kind, g, Popped(s, i))
  {
    var rest := Popped(s, i).ready;
    forall j | 0 <= j < |rest| ensures rest[j] == s.ready[if j < i then j else j + 1] {
    }
  }

  lemma PoppedKeys(s: State, i: nat, since: int)
    requires i < |s.ready|
    ensures
      var e := s.ready[i];
      var before, after := Keys(s.ready[..i], since), Keys(s.ready[i + 1..], since);
      && Keys(Popped(s, i).ready, since) == before + after
      && Keys(s.ready, since) == before + (if e.time >= since then [Key(e.id, e.time)] else []) + after
  {
    hide Keys;
    var e := s.ready[i];
    assert s.ready == s.ready[..i] + [e] + s.ready[i + 1..];
    KeysConcat(s.ready[..i] + [e], s.ready[i + 1..], since);
    KeysConcat(s.ready[..i], [e], since);
    KeysConcat(s.ready[..i], s.ready[i + 1..], since);
    KeysOne(e, since);
  }

  /** The place of the key popped next: the newest first for date order, the last otherwise. */
  ghost predicate IsNext(kind: LogOrder, keys: seq<Key>, k: nat) {
    && k < |keys|
    && if kind == DateOrder then forall j :: 0 <= j < |keys| ==> keys[j].time <= keys[k].time && (j < k ==> keys[j].time < keys[k].time)
       else k == |keys| - 1
  }

  /** When the next entry is recent, it is the next key. */
  lemma NextKey(kind: LogOrder, g: Graph, s: State, since: int)
    requires Stamped(kind, g, s) && s.ready != [] && s.ready[NextReady(kind, s.ready)].time >= since
    ensures
      var i := NextReady(kind, s.ready);
      var k := |Keys(s.ready[..i], since)|;
      && IsNext(kind, Keys(s.ready, since), k)
      && Keys(s.ready, since)[k] == Key(s.ready[i].id, s.ready[i].time)
      && Keys(Popped(s, i).ready, since) == Keys(s.ready, since)[..k] + Keys(s.ready, since)[k + 1..]
  {
    hide Keys;
    var i := NextReady(kind, s.ready);
    var before, after := Keys(s.ready[..i], since), Keys(s.ready[i + 1..], since);
    PoppedKeys(s, i, since);
    var keys := Keys(s.ready, since);
    if kind == DateOrder {
      forall j | 0 <= j < |keys| ensures keys[j].time <= s.ready[i].time && (j < |before| ==> keys[j].time < s.ready[i].time) {
        if j < |before| {
          assert keys[j] == before[j] && before[j] in before;
          KeysFrom(s.ready[..i], since, before[j]);
          var q :| 0 <= q < i && s.ready[..i][q].id == before[j].id && s.ready[..i][q].time == before[j].time;
          assert !PopsBefore(s.ready[q], s.ready[i]);
        } else if j > |before| {
          var m := j - |before| - 1;
          assert keys[j] == after[m] && after[m] in after;
          KeysFrom(s.ready[i + 1..], since, after[m]);
          var q :| 0 <= q < |s.ready| - i - 1 && s.ready[i + 1..][q].id == after[m].id && s.ready[i + 1..][q].time == after[m].time;
          assert !PopsBefore(s.ready[i + 1 + q], s.ready[i]);
        }
      }
    } else {
      assert s.ready[i + 1..] == [];
      NoKeys(since);
    }
  }

  lemma NoKeys(since: int)
    ensures Keys([], since) == []
  {
  }

  lemma NextUnique(kind: LogOrder, keys: seq<Key>, k: nat, l: nat)
    requires IsNext(kind, keys, k) && IsNext(kind, keys, l)
    ensures k == l
  {
    if kind == DateOrder {
      assert keys[k].time <= keys[l].time <= keys[k].time;
    }
  }

  // ----- steps

  /** A step of either walk that pops an old commit leaves recent commits alone. */
  lemma OldStep(kind: LogOrder, g: Graph, s: State, since: int)
    requires Closed(g) && Stamped(kind, g, s) && s.ready != [] && s.ready[NextReady(kind, s.ready)].time < since
    requires forall n, x :: HasParent(g, n, x) && Recent(g, x, since) ==> Recent(g, n, since)
    ensures s.ready[NextReady(kind, s.ready)].id in g && forall i :: 0 <= i < |s.ready| ==> s.ready[i].id in g
    ensures Step(kind, g, s).Some?
    ensures
      var (id, t) := Step(kind, g, s).value;
      && id == s.ready[NextReady(kind, s.ready)].id && !Recent(g, id, since)
      && Stamped(kind, g, t) && Keys(t.ready, since) == Keys(s.ready, since)
      && forall x :: Recent(g, x, since) ==> (x in t.emitted <==> x in s.emitted) && t.counts[x] == s.counts[x]
  {
    hide Keys, Released, NextReady, Step;
    StampedDomain(kind, g, s);
    StepReady(kind, g, s);
    var i := NextReady(kind, s.ready);
    var id := s.ready[i].id;
    PoppedStamped(kind, g, s, i);
    PoppedKeys(s, i, since);
    forall x | x in g[id].parents ensures x in g && g[x].time < since {
      assert HasParent(g, id, x);
    }
    assert Keys(Popped(s, i).ready, since) == Keys(s.ready, since);
    ReleasedOld(kind, g, Popped(s, i), g[id].parents, since);
  }

  /** When both walks pop recent commits, they pop the same one and stay alike. */
  lemma RecentSteps(kind: LogOrder, f: Graph, a: State, p: Graph, b: State, since: int)
    requires Shared(f, p, since) && Alike(kind, f, a, p, b, since) && Closed(f) && Closed(p)
    requires a.ready != [] && a.ready[NextReady(kind, a.ready)].time >= since
    requires b.ready != [] && b.ready[NextReady(kind, b.ready)].time >= since
    ensures a.counts.Keys == f.Keys && forall i :: 0 <= i < |a.ready| ==> a.ready[i].id in f
    ensures b.counts.Keys == p.Keys && forall i :: 0 <= i < |b.ready| ==> b.ready[i].id in p
    ensures Step(kind, f, a).Some? && Step(kind, p, b).Some?
    ensures
      var (x, a1) := Step(kind, f, a).value;
      var (y, b1) := Step(kind, p, b).value;
      x == y && Recent(f, x, since) && Recent(p, x, since) && Alike(kind, f, a1, p, b1, since)
  {
    hide Keys, Released, NextReady, Step, IsNext;
    StampedDomain(kind, f, a);
    StampedDomain(kind, p, b);
    StepReady(kind, f, a);
    StepReady(kind, p, b);
    NextKey(kind, f, a, since);
    NextKey(kind, p, b, since);
    var i, j := NextReady(kind, a.ready), NextReady(kind, b.ready);
    NextUnique(kind, Keys(a.ready, since), |Keys(a.ready[..i], since)|, |Keys(b.ready[..j], since)|);
    PoppedStamped(kind, f, a, i);
    PoppedStamped(kind, p, b, j);
    var x := a.ready[i].id;
    assert Recent(f, x, since) && Recent(p, x, since);
    assert Alike(kind, f, Popped(a, i), p, Popped(b, j), since);
    ParentsStored(f, x);
    ParentsStored(p, x);
    ReleasedAlike(kind, f, Popped(a, i), p, Popped(b, j), f[x].parents, since);
  }

  // ----- the residue

  lemma {:induction false} RecentDescending(g: Graph, s: set<Oid>, since: int)
    ensures NotOlder(g, Descending(s), since) == Descending(set x | x in s && Recent(g, x, since))
    decreases |s|
  {
    var kept := set x | x in s && Recent(g, x, since);
    if s == {} {
      assert kept == {};
    } else {
      var m := Largest(s);
      var rest := s - {m};
      RecentDescending(g, rest, since);
      var keptRest := set x | x in rest && Recent(g, x, since);
      NotOlderCons(g, m, Descending(rest), since);
      if Recent(g, m, since) {
        assert m in kept && Largest(kept) == m;
        assert kept - {m} == keptRest;
      } else {
        assert kept == keptRest;
      }
    }
  }

  lemma NotOlderCons(g: Graph, x: Oid, rest: seq<Oid>, since: int)
    ensures NotOlder(g, [x] + rest, since) == (if Recent(g, x, since) then [x] else []) + NotOlder(g, rest, since)
  {
    assert ([x] + rest)[1..] == rest;
  }

  lemma TailsAlike(kind: LogOrder, f: Graph, order: seq<Oid>, a: State, p: Graph, order': seq<Oid>, b: State, since: int)
    requires Shared(f, p, since) && Alike(kind, f, a, p, b, since)
    requires Inv(f, order, a) && Inv(p, order', b) && a.ready == [] && b.ready == []
    ensures NotOlder(f, Drain(kind, f, order, a), since) == NotOlder(p, Drain(kind, p, order', b), since)
  {
    hide Inv, Drain, Descending, NotOlder, HasParent, Stamped, Keys;
    DrainTail(kind, f, order, a);
    DrainTail(kind, p, order', b);
    var left, left' := f.Keys - a.emitted, p.Keys - b.emitted;
    RecentDescending(f, left, since);
    RecentDescending(p, left', since);
    assert (set x | x in left && Recent(f, x, since)) == (set x | x in left' && Recent(p, x, since));
  }

  // ----- whole walks

  /** Alike walks emit the same recent commits in the same order. */
  lemma {:induction false} DrainsAlike(
    kind: LogOrder, f: Graph, order: seq<Oid>, a: State, p: Graph, order': seq<Oid>, b: State, since: int)
    requires Shared(f, p, since) && Alike(kind, f, a, p, b, since) && Inv(f, order, a) && Inv(p, order', b)
    ensures NotOlder(f, Drain(kind, f, order, a), since) == NotOlder(p, Drain(kind, p, order', b), since)
    decreases |f.Keys - a.emitted| + |p.Keys - b.emitted|
  {
    hide Inv, Drain, NotOlder, HasParent, Keys, Step, NextReady, Shared, Alike, Stamped, Closed, Recent;
    InvDomain(f, order, a);
    InvDomain(p, order', b);
    if a.ready != [] && a.ready[NextReady(kind, a.ready)].time < since {
      OldOfFull(kind, f, a, p, b, since);
      DrainStep(kind, f, order, a, since);
      DrainsAlike(kind, f, order, Step(kind, f, a).value.1, p, order', b, since);
    } else if b.ready != [] && b.ready[NextReady(kind, b.ready)].time < since {
      OldOfPruned(kind, f, a, p, b, since);
      DrainStep(kind, p, order', b, since);
      DrainsAlike(kind, f, order, a, p, order', Step(kind, p, b).value.1, since);
    } else if a.ready == [] && b.ready == [] {
      TailsAlike(kind, f, order, a, p, order', b, since);
    } else {
      BothReady(kind, f, a, p, b, since);
      RecentSteps(kind, f, a, p, b, since);
      DrainStep(kind, f, order, a, since);
      DrainStep(kind, p, order', b, since);
      DrainsAlike(kind, f, order, Step(kind, f, a).value.1, p, order', Step(kind, p, b).value.1, since);
    }
  }

  /** One step of a walk, seen through the filter. */
  lemma DrainStep(kind: LogOrder, g: Graph, order: seq<Oid>, s: State, since: int)
    requires Inv(g, order, s)
    ensures Closed(g) && s.counts.Keys == g.Keys && forall i :: 0 <= i < |s.ready| ==> s.ready[i].id in g
    ensures Step(kind, g, s).Some? ==>
      var (id, t) := Step(kind, g, s).value;
      && Inv(g, order, t) && |g.Keys - t.emitted| < |g.Keys - s.emitted|
      && NotOlder(g, Drain(kind, g, order, s), since)
         == (if Recent(g, id, since) then [id] else []) + NotOlder(g, Drain(kind, g, order, t), since)
  {
    hide Inv, Drain, NotOlder, Step, Recent, Closed;
    StepInv(kind, g, order, s);
    DrainUnfolds(kind, g, order, s);
    if Step(kind, g, s).Some? {
      var (id, t) := Step(kind, g, s).value;
      LeftShrinks(g, s, t, id);
      NotOlderCons(g, id, Drain(kind, g, order, t), since);
    }
  }

  lemma OldOfFull(kind: LogOrder, f: Graph, a: State, p: Graph, b: State, since: int)
    requires Shared(f, p, since) && Alike(kind, f, a, p, b, since) && Closed(f)
    requires a.ready != [] && a.ready[NextReady(kind, a.ready)].time < since
    ensures a.counts.Keys == f.Keys && forall i :: 0 <= i < |a.ready| ==> a.ready[i].id in f
    ensures
      var step := Step(kind, f, a);
      step.Some? && !Recent(f, step.value.0, since) && Alike(kind, f, step.value.1, p, b, since)
  {
    hide Keys, Released, NextReady, Step, Stamped, HasParent;
    StampedDomain(kind, f, a);
    StepReady(kind, f, a);
    OldStep(kind, f, a, since);
  }

  lemma OldOfPruned(kind: LogOrder, f: Graph, a: State, p: Graph, b: State, since: int)
    requires Shared(f, p, since) && Alike(kind, f, a, p, b, since) && Closed(p)
    requires b.ready != [] && b.ready[NextReady(kind, b.ready)].time < since
    ensures b.counts.Keys == p.Keys && forall i :: 0 <= i < |b.ready| ==> b.ready[i].id in p
    ensures
      var step := Step(kind, p, b);
      step.Some? && !Recent(p, step.value.0, since) && Alike(kind, f, a, p, step.value.1, since)
  {
    hide Keys, Released, NextReady, Step, Stamped, HasParent;
    StampedDomain(kind, p, b);
    StepReady(kind, p, b);
    OldStep(kind, p, b, since);
  }

  lemma LeftShrinks(g: Graph, s: State, t: State, id: Oid)
    requires id in g && id !in s.emitted && t.emitted == s.emitted + {id}
    ensures |g.Keys - t.emitted| < |g.Keys - s.emitted|
  {
    assert g.Keys - t.emitted == (g.Keys - s.emitted) - {id};
    assert id in g.Keys - s.emitted;
  }

  /** If neither walk is about to pop an old commit and one is not exhausted, both are about to pop a recent one. */
  lemma BothReady(kind: LogOrder, f: Graph, a: State, p: Graph, b: State, since: int)
    requires Alike(kind, f, a, p, b, since) && (a.ready != [] || b.ready != [])
    requires a.ready != [] ==> a.ready[NextReady(kind, a.ready)].time >= since
    requires b.ready != [] ==> b.ready[NextReady(kind, b.ready)].time >= since
    ensures a.ready != [] && b.ready != []
  {
    hide NextReady, Stamped;
    if a.ready != [] {
      SomeKey(a.ready, since, NextReady(kind, a.ready));
    }
    if b.ready != [] {
      SomeKey(b.ready, since, NextReady(kind, b.ready));
    }
  }

  // ----- the start

  /** Child counts agree wherever the remaining children agree. */
  lemma {:induction false} InDegreeAlike(f: Graph, order: seq<Oid>, p: Graph, order': seq<Oid>, done: set<Oid>, x: Oid)
    requires Distinct(order) && Distinct(order')
    requires forall n :: n in order && HasParent(f, n, x) ==> n in order' && n !in done && n in p && p[n] == f[n]
    requires forall n :: n in order' && n !in done && HasParent(p, n, x) ==> n in order && n in f && f[n] == p[n]
    ensures InDegree(f, order, {}, x) == InDegree(p, order', done, x)
    decreases |order|
  {
    hide Distinct;
    if order == [] {
      InDegreeZero(p, order', done, x);
    } else {
      var n := |order| - 1;
      var last := order[n];
      LastApart(order);
      assert forall y :: y in order[..n] ==> y in order;
      assert order == order[..n] + [last];
      if HasParent(f, last, x) {
        InDegreeRemove(p, order', done, last, x);
        InDegreeAlike(f, order[..n], p, order', done + {last}, x);
      } else {
        InDegreeAlike(f, order[..n], p, order', done, x);
      }
    }
  }

  lemma LastApart(order: seq<Oid>)
    requires Distinct(order) && order != []
    ensures Distinct(order[..|order| - 1]) && order[|order| - 1] !in order[..|order| - 1]
  {
  }

  /** Only the start commit can be ready at first, so sorting the initial queue is moot. */
  lemma InitialIsStart(g: Graph, start: Oid, order: seq<Oid>)
    requires Exploring(g, start, [], order)
    ensures
      var sub := Restrict(g, order);
      var zeros := Zeros(Counts(sub, order, {}), order);
      zeros == if InDegree(sub, order, {}, start) == 0 then [start] else []
  {
    hide InDegree, Reaches;
    var sub := Restrict(g, order);
    var zeros := Zeros(Counts(sub, order, {}), order);
    forall x | x in zeros ensures x == start {
      OnlyStartIsReady(g, start, order, x);
    }
    assert start in order;
    OnlyOne(zeros, start);
  }

  lemma OnlyOne(s: seq<Oid>, x: Oid)
    requires Distinct(s) && forall y :: y in s ==> y == x
    ensures s == if x in s then [x] else []
  {
    DistinctWithin(s, {x});
    if s != [] {
      assert s[0] in s && s == [s[0]];
    }
  }

  /** The start state queues at most the start commit. */
  lemma StartReady(kind: LogOrder, g: Graph, start: Oid, order: seq<Oid>, since: int)
    requires Exploring(g, start, [], order)
    ensures
      var sub := Restrict(g, order);
      var s := Start(kind, sub, order);
      && start in sub && Stamped(kind, sub, s) && s.emitted == {} && s.counts == Counts(sub, order, {})
      && Keys(s.ready, since) == if InDegree(sub, order, {}, start) == 0 && sub[start].time >= since then [Key(start, sub[start].time)] else []
  {
    hide InDegree, Keys, Zeros, Queued, Stamped, Counts, Restrict, Reaches, Start;
    InitialIsStart(g, start, order);
    var sub := Restrict(g, order);
    StartInSub(g, start, order);
    StartIs(kind, sub, order);
    QueuedFew(kind, sub, Counts(sub, order, {}), Zeros(Counts(sub, order, {}), order), start, since);
  }

  lemma StartInSub(g: Graph, start: Oid, order: seq<Oid>)
    requires Exploring(g, start, [], order)
    ensures start in Restrict(g, order) && Counts(Restrict(g, order), order, {}).Keys == Restrict(g, order).Keys
    ensures forall x :: x in order ==> x in Restrict(g, order)
  {
    hide InDegree, Reaches;
    assert start in Members(order);
    forall x | x in order ensures x in Restrict(g, order) {
      assert x in Members(order);
    }
  }

  /** A queue of at most one commit. */
  lemma QueuedFew(kind: LogOrder, g: Graph, counts: map<Oid, nat>, ids: seq<Oid>, start: Oid, since: int)
    requires start in g && counts.Keys == g.Keys && (ids == [] || ids == [start])
    ensures
      var s := Queued(kind, g, State(counts, [], 0, {}, []), ids);
      && Stamped(kind, g, s) && s.emitted == {} && s.counts == counts
      && Keys(s.ready, since) == if ids == [start] && g[start].time >= since then [Key(start, g[start].time)] else []
  {
    hide Keys;
    var empty := State(counts, [], 0, {}, []);
    NoKeys(since);
    if ids != [] {
      assert ids[..0] == [];
      assert Queued(kind, g, empty, ids) == Pushed(kind, g, empty, start);
      PushedKeys(kind, g, empty, start, since);
    }
  }

  /** No reachable commit older than `since` has a parent that is not. */
  ghost predicate RecentChildren(full: Graph, since: int, start: Oid) {
    forall n, x :: Reaches(full, start, n) && HasParent(full, n, x) && Recent(full, x, since) ==> Recent(full, n, since)
  }

  lemma ParentsOlderRecentChildren(full: Graph, since: int, start: Oid)
    requires ParentsOlder(full)
    ensures RecentChildren(full, since, start)
  {
    hide Reaches;
  }

  /** Then every path to a recent commit has only recent commits on it. */
  lemma RecentChildrenKeepRecent(pruned: Graph, full: Graph, since: int, start: Oid)
    requires Prunes(pruned, full, since) && RecentChildren(full, since, start)
    ensures KeepsRecent(pruned, full, since, start)
  {
    forall n | Reaches(full, start, n) && n in full && full[n].time >= since ensures Reaches(pruned, start, n) {
      var path :| PathFromTo(full, path, start, n);
      PathKept(pruned, full, since, start, path);
      assert PathFromTo(pruned, path, start, n);
    }
  }

  lemma {:induction false} PathKept(pruned: Graph, full: Graph, since: int, start: Oid, path: seq<Oid>)
    requires Prunes(pruned, full, since) && RecentChildren(full, since, start) && IsPath(full, path) && path[0] == start
    requires Recent(full, path[|path| - 1], since)
    ensures IsPath(pruned, path)
    decreases |path|
  {
    if |path| > 1 {
      var m := |path| - 2;
      var init := path[..m + 1];
      assert HasParent(full, path[m], path[m + 1]);
      assert PathFromTo(full, init, start, path[m]);
      PathKept(pruned, full, since, start, init);
      forall i | 0 <= i < |path| - 1 ensures HasParent(pruned, path[i], path[i + 1]) {
        if i < m {
          assert HasParent(pruned, init[i], init[i + 1]);
        }
      }
    }
  }

  /** The commits a walk sees, before and after pruning, share their recent part. */
  lemma RestrictShared(pruned: Graph, full: Graph, since: int, start: Oid, order: seq<Oid>, order': seq<Oid>)
    requires Prunes(pruned, full, since) && RecentChildren(full, since, start) && Complete(full, start)
    requires Exploring(full, start, [], order) && Exploring(pruned, start, [], order')
    ensures Shared(Restrict(full, order), Restrict(pruned, order'), since)
  {
    hide Reaches;
    ExploredAll(full, start, order);
    ExploredAll(pruned, start, order');
    RecentChildrenKeepRecent(pruned, full, since, start);
    var f, p := Restrict(full, order), Restrict(pruned, order');
    forall x ensures Recent(f, x, since) <==> Recent(p, x, since) {
      if Recent(p, x, since) {
        assert x in Members(order');
        PrunedReaches(pruned, full, since, start, x);
        assert x in order;
      }
      if Recent(f, x, since) {
        assert x in Members(order);
        assert x in order';
      }
    }
    forall n, x | HasParent(f, n, x) && Recent(f, x, since) ensures Recent(f, n, since) {
      assert n in Members(order);
      assert HasParent(full, n, x) && Recent(full, x, since);
    }
  }

  lemma StartsAlike(kind: LogOrder, pruned: Graph, full: Graph, since: int, start: Oid, order: seq<Oid>, order': seq<Oid>)
    requires Exploring(full, start, [], order) && Exploring(pruned, start, [], order')
    requires Shared(Restrict(full, order), Restrict(pruned, order'), since)
    ensures
      var f, p := Restrict(full, order), Restrict(pruned, order');
      Alike(kind, f, Start(kind, f, order), p, Start(kind, p, order'), since)
  {
    hide InDegree, Reaches, Start, Stamped, Keys;
    var f, p := Restrict(full, order), Restrict(pruned, order');
    StartReady(kind, full, start, order, since);
    StartReady(kind, pruned, start, order', since);
    forall x | Recent(f, x, since) && Recent(p, x, since) ensures InDegree(f, order, {}, x) == InDegree(p, order', {}, x) {
      SharedChildren(f, order, p, order', since, x);
      InDegreeAlike(f, order, p, order', {}, x);
    }
    assert Recent(f, start, since) <==> Recent(p, start, since);
  }

  lemma SharedChildren(f: Graph, order: seq<Oid>, p: Graph, order': seq<Oid>, since: int, x: Oid)
    requires Shared(f, p, since) && Recent(f, x, since) && Members(order) == f.Keys && Members(order') == p.Keys
    ensures forall n :: n in order && HasParent(f, n, x) ==> n in order' && n in p && p[n] == f[n]
    ensures forall n :: n in order' && HasParent(p, n, x) ==> n in order && n in f && f[n] == p[n]
  {
    forall n | n in order && HasParent(f, n, x) ensures n in order' && n in p && p[n] == f[n] {
      assert Recent(f, n, since) && Recent(p, n, since);
      assert n in Members(order');
    }
    forall n | n in order' && HasParent(p, n, x) ensures n in order && n in f && f[n] == p[n] {
      assert Recent(p, x, since) && Recent(p, n, since) && Recent(f, n, since);
      assert n in Members(order);
    }
  }

  /**
   * When no reachable commit older than `since` has a parent that is not,
   * pruning at `since` leaves the `since`-filtered output of the topological
   * and the date order the same sequence, whatever order the two pre-passes discovered the commits in.
   */
  lemma OrderedSincePruning(kind: LogOrder, pruned: Graph, full: Graph, since: int, start: Oid, order: seq<Oid>, order': seq<Oid>)
    requires Prunes(pruned, full, since) && RecentChildren(full, since, start) && Complete(full, start)
    requires Exploring(full, start, [], order) && Exploring(pruned, start, [], order')
    ensures NotOlder(pruned, Output(kind, pruned, start, order'), since) == NotOlder(full, Output(kind, full, start, order), since)
  {
    hide Reaches, Start, Drain, NotOlder, Shared, Alike, MainPhase, Nodes, Inv, RecentChildren;
    RestrictShared(pruned, full, since, start, order, order');
    StartsAlike(kind, pruned, full, since, start, order, order');
    var f, p := Restrict(full, order), Restrict(pruned, order');
    OutputDrains(kind, full, start, order);
    OutputDrains(kind, pruned, start, order');
    DrainsAlike(kind, f, order, Start(kind, f, order), p, order', Start(kind, p, order'), since);
    NotOlderRestricts(full, f, Output(kind, full, start, order), since);
    NotOlderRestricts(pruned, p, Output(kind, pruned, start, order'), since);
  }

  lemma OutputDrains(kind: LogOrder, g: Graph, start: Oid, order: seq<Oid>)
    requires Exploring(g, start, [], order)
    ensures
      var sub := Restrict(g, order);
      && (forall x :: x in order ==> x in sub) && Inv(sub, order, Start(kind, sub, order))
      && Output(kind, g, start, order) == Drain(kind, sub, order, Start(kind, sub, order))
      && forall x :: x in Output(kind, g, start, order) ==> x in sub
  {
    hide Reaches, Start, Drain;
    var sub := Restrict(g, order);
    RestrictNodes(g, start, order);
    StartIsMain(kind, sub, order);
    MainInv(sub, order, Start(kind, sub, order));
    OutputIs(kind, g, start, order);
    DrainOnce(kind, sub, order, Start(kind, sub, order));
  }

  lemma {:induction false} NotOlderRestricts(g: Graph, sub: Graph, ids: seq<Oid>, since: int)
    requires forall x :: x in ids ==> x in sub
    requires forall x :: x in sub ==> x in g && sub[x] == g[x]
    ensures NotOlder(g, ids, since) == NotOlder(sub, ids, since)
  {
    if ids != [] {
      NotOlderRestricts(g, sub, ids[1..], since);
    }
  }

  // ----- reachability alone is not enough

  /** An old commit 1 that holds back commit 2; `kept` says whether it still lists it as its parent. */
  ghost predicate IsExample(g: Graph, kept: bool) {
    && g.Keys == {0, 1, 2, 3} && g[0] == Meta([1, 3, 2], 10) && g[1] == Meta(if kept then [2] else [], 1)
    && g[2] == Meta([], 5) && g[3] == Meta([], 5)
  }

  const EVERYONE: seq<Oid> := [0, 1, 2, 3]

  lemma ExampleParents(g: Graph, kept: bool)
    requires IsExample(g, kept)
    ensures forall x :: x in EVERYONE <==> x in g
    ensures forall x :: x in EVERYONE && x != 0 ==> HasParent(g, 0, x)
    ensures forall n, x :: HasParent(g, n, x) ==> x in EVERYONE
  {
  }

  lemma ExampleExplores(g: Graph, kept: bool)
    requires IsExample(g, kept)
    ensures Exploring(g, 0, [], EVERYONE) && Restrict(g, EVERYONE) == g && Complete(g, 0) && Closed(g)
  {
    hide Reaches, IsExample, HasParent;
    ExampleParents(g, kept);
    ReachesSelf(g, 0);
    forall x | x in EVERYONE ensures Reaches(g, 0, x) {
      if x != 0 {
        ReachesParent(g, 0, 0, x);
      }
    }
    forall n | Reaches(g, 0, n) ensures n in g {
      ClosedHoldsReachable(g, 0, EVERYONE, n);
    }
    ExampleClosed(g, kept);
  }

  lemma ExampleClosed(g: Graph, kept: bool)
    requires IsExample(g, kept)
    ensures Closed(g) && Restrict(g, EVERYONE) == g && Distinct(EVERYONE)
  {
    ExampleParents(g, kept);
    assert forall n, p :: n in g && p in g[n].parents ==> HasParent(g, n, p);
  }

  lemma InDegreeSnoc(g: Graph, order: seq<Oid>, x: Oid, p: Oid)
    requires x in g
    ensures InDegree(g, order + [x], {}, p) == InDegree(g, order, {}, p) + multiset(g[x].parents)[p]
  {
    assert (order + [x])[..|order|] == order;
  }

  lemma NoChildren(g: Graph, p: Oid)
    ensures InDegree(g, [], {}, p) == 0
  {
  }

  /** Only commits 0 and 1 have parents. */
  lemma ExampleDegree(g: Graph, kept: bool, p: Oid)
    requires IsExample(g, kept)
    ensures InDegree(g, EVERYONE, {}, p) == multiset([1, 3, 2])[p] + multiset(if kept then [2] else [])[p]
  {
    hide InDegree;
    NoChildren(g, p);
    InDegreeSnoc(g, [], 0, p);
    InDegreeSnoc(g, [] + [0], 1, p);
    InDegreeSnoc(g, [] + [0] + [1], 2, p);
    InDegreeSnoc(g, [] + [0] + [1] + [2], 3, p);
    assert [] + [0] + [1] + [2] + [3] == EVERYONE;
  }

  lemma CountsDomain(g: Graph, kept: bool)
    requires IsExample(g, kept)
    ensures forall one, two, three :: ChildCounts(one, two, three).Keys == g.Keys
  {
  }

  function ChildCounts(one: nat, two: nat, three: nat): (r: map<Oid, nat>)
    ensures r.Keys == {0, 1, 2, 3} && r[0] == 0 && r[1] == one && r[2] == two && r[3] == three
  {
    map[0 := 0, 1 := one, 2 := two, 3 := three]
  }

  /** The child counts of the example; commit 2 has one more child while commit 1 lists it. */
  lemma ExampleCounts(g: Graph, kept: bool)
    requires IsExample(g, kept)
    ensures Counts(g, EVERYONE, {}) == ChildCounts(1, if kept then 2 else 1, 1)
  {
    hide InDegree, ChildCounts;
    ExampleDegree(g, kept, 0);
    ExampleDegree(g, kept, 1);
    ExampleDegree(g, kept, 2);
    ExampleDegree(g, kept, 3);
  }

  /** A topological step: the last ready commit goes, its parents are released. */
  lemma LastStep(g: Graph, s: State, t: State, rest: seq<Ready>, e: Ready)
    requires Closed(g) && s.counts.Keys == g.Keys && s.ready == rest + [e] && e.id in g && forall i :: 0 <= i < |rest| ==> rest[i].id in g
    requires t == Released(Topological, g, s.(ready := rest, emitted := s.emitted + {e.id}), g[e.id].parents)
    ensures forall i :: 0 <= i < |s.ready| ==> s.ready[i].id in g
    ensures Step(Topological, g, s) == Some((e.id, t))
  {
    hide Released;
    StepReady(Topological, g, s);
    assert s.ready[..|rest|] + s.ready[|rest| + 1..] == rest;
  }

  /** Releasing nothing. */
  lemma LeafStep(g: Graph, s: State, rest: seq<Ready>, e: Ready)
    requires Closed(g) && s.counts.Keys == g.Keys && s.ready == rest + [e] && e.id in g && g[e.id].parents == []
    requires forall i :: 0 <= i < |rest| ==> rest[i].id in g
    ensures forall i :: 0 <= i < |s.ready| ==> s.ready[i].id in g
    ensures Step(Topological, g, s) == Some((e.id, s.(ready := rest, emitted := s.emitted + {e.id})))
  {
    hide Released;
    ReleasedNone(Topological, g, s.(ready := rest, emitted := s.emitted + {e.id}));
    LastStep(g, s, s.(ready := rest, emitted := s.emitted + {e.id}), rest, e);
  }

  /** Releasing one parent. */
  lemma OneReleased(g: Graph, s: State, x: Oid)
    requires s.counts.Keys == g.Keys && x in g
    ensures Released(Topological, g, s, [x]) == ReleasedOne(Topological, g, s, x)
  {
    assert [x][1..] == [];
    ReleasedUnfold(Topological, g, s, [x]);
    ReleasedNone(Topological, g, ReleasedOne(Topological, g, s, x));
  }

  /** Releasing three parents. */
  lemma ThreeReleased(g: Graph, s: State, x: Oid, y: Oid, z: Oid)
    requires s.counts.Keys == g.Keys && x in g && y in g && z in g
    ensures
      var s1 := ReleasedOne(Topological, g, s, x);
      s1.counts.Keys == g.Keys
      && var s2 := ReleasedOne(Topological, g, s1, y);
      s2.counts.Keys == g.Keys && Released(Topological, g, s, [x, y, z]) == ReleasedOne(Topological, g, s2, z)
  {
    hide Released;
    assert [x, y, z][1..] == [y, z] && [y, z][1..] == [z];
    UnfoldOne(Topological, g, s, [x, y, z]);
    var s1 := ReleasedOne(Topological, g, s, x);
    UnfoldOne(Topological, g, s1, [y, z]);
    OneReleased(g, ReleasedOne(Topological, g, s1, y), z);
  }

  const AT_START: Ready := Ready(0, 10, 0)
  const AT_1: Ready := Ready(1, 1, 0)
  const AT_2: Ready := Ready(2, 5, 0)
  const AT_3: Ready := Ready(3, 5, 0)

  lemma SingleQueued(g: Graph, counts: map<Oid, nat>, start: Oid)
    requires start in g
    ensures Queued(Topological, g, State(counts, [], 0, {}, []), [start]) == State(counts, [Ready(start, g[start].time, 0)], 0, {}, [])
  {
    assert [start][..0] == [];
    assert Queued(Topological, g, State(counts, [], 0, {}, []), []) == State(counts, [], 0, {}, []);
  }

  /** A start commit without children is what a topological walk begins with. */
  lemma SingleStart(g: Graph, start: Oid, order: seq<Oid>)
    requires Exploring(g, start, [], order) && InDegree(Restrict(g, order), order, {}, start) == 0
    ensures
      var sub := Restrict(g, order);
      start in sub && Start(Topological, sub, order) == State(Counts(sub, order, {}), [Ready(start, sub[start].time, 0)], 0, {}, [])
  {
    hide InDegree, Zeros, Queued, Start, Counts, Restrict, Reaches;
    InitialIsStart(g, start, order);
    StartInSub(g, start, order);
    StartIs(Topological, Restrict(g, order), order);
    SingleQueued(Restrict(g, order), Counts(Restrict(g, order), order, {}), start);
  }

  lemma ExampleStart(g: Graph, kept: bool)
    requires IsExample(g, kept)
    ensures Exploring(g, 0, [], EVERYONE) && Restrict(g, EVERYONE) == g
    ensures Start(Topological, g, EVERYONE) == ExampleState(1, if kept then 2 else 1, 1, [AT_START], {})
  {
    hide InDegree, Start, Counts, Reaches, Exploring, Restrict, ChildCounts;
    ExampleExplores(g, kept);
    ExampleDegree(g, kept, 0);
    ExampleCounts(g, kept);
    SingleStart(g, 0, EVERYONE);
  }

  /** Four steps that emit everything give the whole output. */
  lemma FourSteps(g: Graph, order: seq<Oid>, s0: State, s1: State, s2: State, s3: State, s4: State, ids: seq<Oid>)
    requires Inv(g, order, s0) && |ids| == 4
    requires Closed(g) && s0.counts.Keys == g.Keys && forall i :: 0 <= i < |s0.ready| ==> s0.ready[i].id in g
    requires s1.counts.Keys == g.Keys && forall i :: 0 <= i < |s1.ready| ==> s1.ready[i].id in g
    requires s2.counts.Keys == g.Keys && forall i :: 0 <= i < |s2.ready| ==> s2.ready[i].id in g
    requires s3.counts.Keys == g.Keys && forall i :: 0 <= i < |s3.ready| ==> s3.ready[i].id in g
    requires Step(Topological, g, s0) == Some((ids[0], s1)) && Step(Topological, g, s1) == Some((ids[1], s2))
    requires Step(Topological, g, s2) == Some((ids[2], s3)) && Step(Topological, g, s3) == Some((ids[3], s4))
    requires s4.emitted == g.Keys
    ensures Drain(Topological, g, order, s0) == ids
  {
    hide Step, Drain, Inv, Closed;
    DrainUnfolds(Topological, g, order, s0);
    DrainUnfolds(Topological, g, order, s1);
    DrainUnfolds(Topological, g, order, s2);
    DrainUnfolds(Topological, g, order, s3);
    StepInv(Topological, g, order, s4);
    DrainUnfolds(Topological, g, order, s4);
    assert ids == [ids[0]] + ([ids[1]] + ([ids[2]] + ([ids[3]] + [])));
  }

  lemma CountsUpdate(one: nat, two: nat, three: nat, n: nat)
    ensures ChildCounts(one, two, three)[1 := n] == ChildCounts(n, two, three)
    ensures ChildCounts(one, two, three)[2 := n] == ChildCounts(one, n, three)
    ensures ChildCounts(one, two, three)[3 := n] == ChildCounts(one, two, n)
  {
  }

  function ExampleState(one: nat, two: nat, three: nat, ready: seq<Ready>, emitted: set<Oid>): State {
    State(ChildCounts(one, two, three), ready, 0, emitted, [])
  }

  lemma ReleaseIs(g: Graph, s: State, x: Oid)
    requires s.counts.Keys == g.Keys && x in g
    ensures
      var count := SaturatingSub(s.counts[x], 1);
      ReleasedOne(Topological, g, s, x)
        == s.(counts := s.counts[x := count], ready := if count == 0 then s.ready + [Ready(x, g[x].time, 0)] else s.ready)
  {
  }

  /** What releasing the parents of commit 0 leaves ready. */
  lemma FirstRelease(g: Graph, kept: bool)
    requires IsExample(g, kept)
    ensures Released(Topological, g, ExampleState(1, if kept then 2 else 1, 1, [], {0}), [1, 3, 2])
      == ExampleState(0, if kept then 1 else 0, 0, if kept then [AT_1, AT_3] else [AT_1, AT_3, AT_2], {0})
  {
    hide Released, ChildCounts, ReleasedOne;
    var two := if kept then 2 else 1;
    var a := ExampleState(1, two, 1, [], {0});
    var b := ExampleState(0, two, 1, [AT_1], {0});
    var c := ExampleState(0, two, 0, [AT_1, AT_3], {0});
    assert [] + [AT_1] == [AT_1] && [AT_1] + [AT_3] == [AT_1, AT_3] && [AT_1, AT_3] + [AT_2] == [AT_1, AT_3, AT_2];
    CountsUpdate(1, two, 1, 0);
    ReleaseIs(g, a, 1);
    CountsUpdate(0, two, 1, 0);
    ReleaseIs(g, b, 3);
    CountsUpdate(0, two, 0, two - 1);
    ReleaseIs(g, c, 2);
    ThreeReleased(g, a, 1, 3, 2);
  }

  /** The first step: commit 2 becomes ready only when commit 1 no longer lists it. */
  lemma FirstStep(g: Graph, kept: bool)
    requires IsExample(g, kept) && Closed(g)
    ensures
      var s0 := ExampleState(1, if kept then 2 else 1, 1, [AT_START], {});
      && (forall i :: 0 <= i < |s0.ready| ==> s0.ready[i].id in g)
      && Step(Topological, g, s0)
         == Some((0, ExampleState(0, if kept then 1 else 0, 0, if kept then [AT_1, AT_3] else [AT_1, AT_3, AT_2], {0})))
  {
    hide Step, Released, ChildCounts, Closed;
    var s0 := ExampleState(1, if kept then 2 else 1, 1, [AT_START], {});
    FirstRelease(g, kept);
    assert s0.ready == [] + [AT_START] && {} + {0} == {0};
    LastStep(g, s0, ExampleState(0, if kept then 1 else 0, 0, if kept then [AT_1, AT_3] else [AT_1, AT_3, AT_2], {0}), [], AT_START);
  }

  /** Commit 1 goes, and commit 2 becomes ready behind it. */
  lemma ThirdStep(g: Graph)
    requires IsExample(g, true) && Closed(g)
    ensures
      var s2 := ExampleState(0, 1, 0, [AT_1], {0, 3});
      && (forall i :: 0 <= i < |s2.ready| ==> s2.ready[i].id in g)
      && Step(Topological, g, s2) == Some((1, ExampleState(0, 0, 0, [AT_2], {0, 3, 1})))
  {
    hide Step, Released, ChildCounts, Closed, ReleasedOne;
    var s2 := ExampleState(0, 1, 0, [AT_1], {0, 3});
    var a := ExampleState(0, 1, 0, [], {0, 3, 1});
    assert [] + [AT_2] == [AT_2] && [] + [AT_1] == [AT_1] && {0, 3} + {1} == {0, 3, 1};
    CountsUpdate(0, 1, 0, 0);
    ReleaseIs(g, a, 2);
    OneReleased(g, a, 2);
    LastStep(g, s2, ExampleState(0, 0, 0, [AT_2], {0, 3, 1}), [], AT_1);
  }

  /** A commit without parents goes last. */
  lemma GoesLast(g: Graph, kept: bool, two: nat, rest: seq<Ready>, e: Ready, emitted: set<Oid>)
    requires IsExample(g, kept) && Closed(g) && e.id in g && g[e.id].parents == [] && forall i :: 0 <= i < |rest| ==> rest[i].id in g
    ensures
      var s := ExampleState(0, two, 0, rest + [e], emitted);
      && (forall i :: 0 <= i < |s.ready| ==> s.ready[i].id in g)
      && Step(Topological, g, s) == Some((e.id, ExampleState(0, two, 0, rest, emitted + {e.id})))
  {
    hide Step, ChildCounts, Closed;
    LeafStep(g, ExampleState(0, two, 0, rest + [e], emitted), rest, e);
  }

  lemma ExampleSplits(g: Graph, kept: bool)
    requires IsExample(g, kept)
    ensures [AT_1, AT_3] + [AT_2] == [AT_1, AT_3, AT_2] && [AT_1] + [AT_3] == [AT_1, AT_3] && [] + [AT_1] == [AT_1] && [] + [AT_2] == [AT_2]
    ensures {0} + {3} == {0, 3} && {0} + {2} + {3} + {1} == g.Keys && {0, 3, 1} + {2} == g.Keys
    ensures 1 in g && 2 in g && 3 in g && g[2].parents == [] && g[3].parents == [] && (!kept ==> g[1].parents == [])
  {
  }

  /** With commit 1 in the way, commit 3 comes before commit 2. */
  lemma HeldBackDrains(g: Graph, order: seq<Oid>)
    requires IsExample(g, true) && Closed(g) && Inv(g, order, ExampleState(1, 2, 1, [AT_START], {}))
    ensures Drain(Topological, g, order, ExampleState(1, 2, 1, [AT_START], {})) == [0, 3, 1, 2]
  {
    hide Step, Drain, Inv, ChildCounts, Closed, IsExample;
    var s0, s1 := ExampleState(1, 2, 1, [AT_START], {}), ExampleState(0, 1, 0, [AT_1] + [AT_3], {0});
    var s2, s3 := ExampleState(0, 1, 0, [AT_1], {0} + {3}), ExampleState(0, 0, 0, [] + [AT_2], {0, 3, 1});
    FirstStep(g, true);
    ExampleSplits(g, true);
    CountsDomain(g, true);
    GoesLast(g, true, 1, [AT_1], AT_3, {0});
    ThirdStep(g);
    GoesLast(g, true, 0, [], AT_2, {0, 3, 1});
    FourSteps(g, order, s0, s1, s2, s3, ExampleState(0, 0, 0, [], {0, 3, 1} + {2}), [0, 3, 1, 2]);
  }

  /** Once its parent is cleared, commit 2 comes first. */
  lemma LetGoDrains(g: Graph, order: seq<Oid>)
    requires IsExample(g, false) && Closed(g) && Inv(g, order, ExampleState(1, 1, 1, [AT_START], {}))
    ensures Drain(Topological, g, order, ExampleState(1, 1, 1, [AT_START], {})) == [0, 2, 3, 1]
  {
    hide Step, Drain, Inv, ChildCounts, Closed, IsExample;
    var s0, s1 := ExampleState(1, 1, 1, [AT_START], {}), ExampleState(0, 0, 0, [AT_1, AT_3] + [AT_2], {0});
    var s2, s3 := ExampleState(0, 0, 0, [AT_1] + [AT_3], {0} + {2}), ExampleState(0, 0, 0, [] + [AT_1], {0} + {2} + {3});
    FirstStep(g, false);
    ExampleSplits(g, false);
    CountsDomain(g, false);
    GoesLast(g, false, 0, [AT_1, AT_3], AT_2, {0});
    GoesLast(g, false, 0, [AT_1], AT_3, {0} + {2});
    GoesLast(g, false, 0, [], AT_1, {0} + {2} + {3});
    FourSteps(g, order, s0, s1, s2, s3, ExampleState(0, 0, 0, [], {0} + {2} + {3} + {1}), [0, 2, 3, 1]);
  }

  lemma ExampleOutput(g: Graph, kept: bool)
    requires IsExample(g, kept)
    ensures Exploring(g, 0, [], EVERYONE) && Output(Topological, g, 0, EVERYONE) == if kept then [0, 3, 1, 2] else [0, 2, 3, 1]
  {
    hide Step, Drain, Inv, Output, Start, Counts, Exploring, Restrict, IsExample, Closed, Complete;
    ExampleStart(g, kept);
    ExampleExplores(g, kept);
    OutputDrains(Topological, g, 0, EVERYONE);
    if kept {
      HeldBackDrains(g, EVERYONE);
    } else {
      LetGoDrains(g, EVERYONE);
    }
  }

  lemma ExampleReach(full: Graph, pruned: Graph)
    requires IsExample(full, true) && IsExample(pruned, false)
    ensures Prunes(pruned, full, 3) && KeepsRecent(pruned, full, 3, 0) && !RecentChildren(full, 3, 0)
  {
    hide Reaches;
    ExampleParents(full, true);
    ExampleParents(pruned, false);
    ReachesSelf(pruned, 0);
    forall n | Reaches(full, 0, n) && n in full && full[n].time >= 3 ensures Reaches(pruned, 0, n) {
      if n != 0 {
        ReachesParent(pruned, 0, 0, n);
      }
    }
    ReachesSelf(full, 0);
    ReachesParent(full, 0, 0, 1);
    assert HasParent(full, 1, 2) && Recent(full, 2, 3) && !Recent(full, 1, 3);
  }

  lemma ExampleFilter(g: Graph, kept: bool)
    requires IsExample(g, kept)
    ensures NotOlder(g, [0, 3, 1, 2], 3) == [0, 3, 2] && NotOlder(g, [0, 2, 3, 1], 3) == [0, 2, 3]
  {
    hide NotOlder;
    NothingFiltered(g, 3);
    NotOlderCons(g, 2, [], 3);
    NotOlderCons(g, 1, [2], 3);
    NotOlderCons(g, 3, [1, 2], 3);
    NotOlderCons(g, 0, [3, 1, 2], 3);
    NotOlderCons(g, 1, [], 3);
    NotOlderCons(g, 3, [1], 3);
    NotOlderCons(g, 2, [3, 1], 3);
    NotOlderCons(g, 0, [2, 3, 1], 3);
    assert [2] + [] == [2] && [1] + [2] == [1, 2] && [3] + [1, 2] == [3, 1, 2] && [0] + [3, 1, 2] == [0, 3, 1, 2];
    assert [1] + [] == [1] && [3] + [1] == [3, 1] && [2] + [3, 1] == [2, 3, 1] && [0] + [2, 3, 1] == [0, 2, 3, 1];
  }

  /** Every recent commit stays reachable, and still the topological order changes: an old child held one back. */
  lemma OldChildReorders(full: Graph, pruned: Graph)
    requires IsExample(full, true) && IsExample(pruned, false)
    ensures Prunes(pruned, full, 3) && Complete(full, 0) && KeepsRecent(pruned, full, 3, 0) && !RecentChildren(full, 3, 0)
    ensures Exploring(full, 0, [], EVERYONE) && NotOlder(full, Output(Topological, full, 0, EVERYONE), 3) == [0, 3, 2]
    ensures Exploring(pruned, 0, [], EVERYONE) && NotOlder(pruned, Output(Topological, pruned, 0, EVERYONE), 3) == [0, 2, 3]
  {
    hide Output, Exploring, Prunes, Complete, KeepsRecent, RecentChildren, NotOlder, IsExample;
    ExampleExplores(full, true);
    ExampleReach(full, pruned);
    ExampleOutput(full, true);
    ExampleOutput(pruned, false);
    ExampleFilter(full, true);
    ExampleFilter(pruned, false);
  }

  /** There are such graphs. */
  lemma ExampleExists(kept: bool) returns (g: Graph)
    ensures IsExample(g, kept)
  {
    g := map[0 := Meta([1, 3, 2], 10), 1 := Meta(if kept then [2] else [], 1), 2 := Meta([], 5), 3 := Meta([], 5)];
  }

  lemma NothingFiltered(g: Graph, since: int)
    ensures NotOlder(g, [], since) == []
  {
  }
}
