/** Pathspec projection of trees before a diff (crates/gitility-core/src/diff.rs). */
module Projection {
  import opened Basics
  import opened Trees
  import Pathspec

  /** The matcher's patterns, the glob engine behind them, and `object_id` on tree payloads. */
  datatype Matcher = Matcher(wild: Pathspec.Wildmatch, patterns: seq<seq<byte>>, objectId: seq<Entry> -> Oid) {
    predicate Matches(path: Path) { Pathspec.Matches(wild, patterns, path) }

    predicate MayMatchDescendant(path: Path) { Pathspec.MayMatchDescendant(patterns, path) }

    ghost predicate CollisionFree() {
      forall a, b :: objectId(a) == objectId(b) ==> a == b
    }

    /** Exactly characterised by `Pathspec.SetPrunesSoundlyIff`. */
    ghost predicate PrunesSoundly() { Pathspec.SetPrunesSoundly(wild, patterns) }
  }

  // ----- flattening

  /** A leaf with its full path, or a subtree that could not be opened. */
  datatype Item = Leaf(path: Path, mode: nat, oid: Oid) | Unopened(path: Path, oid: Oid)

  /** Every leaf below a list of entries in depth-first order, opening at most `depth` levels of subtrees. */
  ghost function Flat(trees: TreeStore, entries: seq<Entry>, prefix: Path, depth: nat): seq<Item>
    decreases depth, |entries|
  {
    if entries == [] then [] else FlatFirst(trees, entries[0], prefix, depth) + Flat(trees, entries[1..], prefix, depth)
  }

  ghost function FlatFirst(trees: TreeStore, e: Entry, prefix: Path, depth: nat): seq<Item>
    decreases depth, 0
  {
    var path := JoinPath(prefix, e.name);
    if !IsTree(e) then [Leaf(path, e.mode, e.oid)]
    else if depth == 0 || e.oid !in trees then [Unopened(path, e.oid)]
    else Flat(trees, trees[e.oid], path, depth - 1)
  }

  /** The leaves a matcher selects. */
  ghost function Selected(m: Matcher, items: seq<Item>): seq<Item> {
    if items == [] then []
    else (if items[0].Leaf? && m.Matches(items[0].path) then [items[0]] else []) + Selected(m, items[1..])
  }

  /** `GixObjectStore::try_find`: projected trees shadow the store. */
  ghost function Through(projected: TreeStore, store: TreeStore): TreeStore {
    store + projected
  }

  // ----- the projection as a function

  /** The projected payload of a list of entries. */
  ghost function Projected(store: TreeStore, rank: Rank, m: Matcher, entries: seq<Entry>, prefix: Path): seq<Entry>
    requires Ranked(store, rank)
    decreases Height(rank, entries), |entries|
  {
    if entries == [] then []
    else
      HeightBelow(rank, entries[1..], Height(rank, entries));
      Kept(store, rank, m, entries, prefix) + Projected(store, rank, m, entries[1..], prefix)
  }

  /** What the first entry contributes. */
  ghost function Kept(store: TreeStore, rank: Rank, m: Matcher, entries: seq<Entry>, prefix: Path): seq<Entry>
    requires Ranked(store, rank) && entries != []
    decreases Height(rank, entries), |entries|, 0
  {
    var e := entries[0];
    var path := JoinPath(prefix, e.name);
    if IsTree(e) then
      if !m.MayMatchDescendant(path) || e.oid !in store then []
      else
        ChildHeight(store, rank, e);
        KeptTree(m, e, Projected(store, rank, m, store[e.oid], path))
    else if m.Matches(path) then [e] else []
  }

  /** A subtree survives under its new ID unless nothing in it does. */
  ghost function KeptTree(m: Matcher, e: Entry, child: seq<Entry>): seq<Entry> {
    if child == [] then [] else [e.(oid := m.objectId(child))]
  }

  /** Every subtree that is not pruned is in the store. */
  ghost predicate Readable(store: TreeStore, rank: Rank, m: Matcher, entries: seq<Entry>, prefix: Path)
    requires Ranked(store, rank)
    decreases Height(rank, entries), |entries|
  {
    if entries == [] then true
    else
      var e := entries[0];
      var path := JoinPath(prefix, e.name);
      HeightBelow(rank, entries[1..], Height(rank, entries));
      && (IsTree(e) && m.MayMatchDescendant(path) ==>
            e.oid in store && (ChildHeight(store, rank, e); Readable(store, rank, m, store[e.oid], path)))
      && Readable(store, rank, m, entries[1..], prefix)
  }

  /** Every non-empty projected subtree, at any depth, can be looked up under its new ID. */
  ghost predicate Served(projected: TreeStore, store: TreeStore, rank: Rank, m: Matcher, entries: seq<Entry>, prefix: Path)
    requires Ranked(store, rank)
    decreases Height(rank, entries), |entries|
  {
    if entries == [] then true
    else
      HeightBelow(rank, entries[1..], Height(rank, entries));
      ServedFirst(projected, store, rank, m, entries, prefix) && Served(projected, store, rank, m, entries[1..], prefix)
  }

  ghost predicate ServedFirst(projected: TreeStore, store: TreeStore, rank: Rank, m: Matcher, entries: seq<Entry>, prefix: Path)
    requires Ranked(store, rank) && entries != []
    decreases Height(rank, entries), |entries|, 0
  {
    var e := entries[0];
    var path := JoinPath(prefix, e.name);
    if !IsTree(e) || !m.MayMatchDescendant(path) || e.oid !in store then true
    else
      ChildHeight(store, rank, e);
      var child := Projected(store, rank, m, store[e.oid], path);
      child != [] ==>
        && m.objectId(child) in projected && projected[m.objectId(child)] == child
        && Served(projected, store, rank, m, store[e.oid], path)
  }

  // ----- unfolding

  lemma Unfold(projected: TreeStore, store: TreeStore, rank: Rank, m: Matcher, entries: seq<Entry>, prefix: Path)
    requires Ranked(store, rank) && entries != []
    ensures Projected(store, rank, m, entries, prefix)
      == Kept(store, rank, m, entries, prefix) + Projected(store, rank, m, entries[1..], prefix)
    ensures Served(projected, store, rank, m, entries, prefix)
      <==> ServedFirst(projected, store, rank, m, entries, prefix) && Served(projected, store, rank, m, entries[1..], prefix)
  {
  }

  lemma UnfoldFirst(projected: TreeStore, store: TreeStore, rank: Rank, m: Matcher, entries: seq<Entry>, prefix: Path)
    requires Ranked(store, rank) && entries != []
    ensures
      var e := entries[0];
      var path := JoinPath(prefix, e.name);
      if IsTree(e) && m.MayMatchDescendant(path) && e.oid in store then
        var child := Projected(store, rank, m, store[e.oid], path);
        && Kept(store, rank, m, entries, prefix) == KeptTree(m, e, child)
        && (ServedFirst(projected, store, rank, m, entries, prefix) <==>
              (child != [] ==>
                m.objectId(child) in projected && projected[m.objectId(child)] == child
                && Served(projected, store, rank, m, store[e.oid], path)))
      else
        && Kept(store, rank, m, entries, prefix) == (if !IsTree(e) && m.Matches(path) then [e] else [])
        && ServedFirst(projected, store, rank, m, entries, prefix)
  {
  }

  lemma SelectedNone(m: Matcher)
    ensures Selected(m, []) == []
  {
  }

  lemma SelectedCons(m: Matcher, item: Item, rest: seq<Item>)
    ensures Selected(m, [item] + rest) == (if item.Leaf? && m.Matches(item.path) then [item] else []) + Selected(m, rest)
  {
    assert ([item] + rest)[1..] == rest;
  }

  lemma {:induction false} SelectedConcat(m: Matcher, a: seq<Item>, b: seq<Item>)
    ensures Selected(m, a + b) == Selected(m, a) + Selected(m, b)
  {
    hide Selected, Matcher.Matches;
    if a == [] {
      assert a + b == b;
      SelectedNone(m);
    } else {
      var first, rest := a[0], a[1..];
      SelectedConcat(m, rest, b);
      SelectedCons(m, first, rest);
      SelectedCons(m, first, rest + b);
      assert [first] + rest == a;
      assert [first] + (rest + b) == a + b;
    }
  }

  lemma {:induction false} NothingSelected(m: Matcher, items: seq<Item>)
    requires forall i :: 0 <= i < |items| && items[i].Leaf? ==> !m.Matches(items[i].path)
    ensures Selected(m, items) == []
  {
    if items != [] {
      NothingSelected(m, items[1..]);
    }
  }

  // ----- pruning

  /** Every leaf listed below a directory has that directory's path as a whole-component prefix. */
  lemma {:induction false} LeavesBelow(trees: TreeStore, entries: seq<Entry>, prefix: Path, depth: nat, top: Path)
    requires prefix != [] && (prefix == top || Pathspec.StartsAtSlash(prefix, top))
    ensures forall i :: 0 <= i < |Flat(trees, entries, prefix, depth)| ==>
      Pathspec.StartsAtSlash(Flat(trees, entries, prefix, depth)[i].path, top)
    decreases depth, |entries|
  {
    hide Pathspec.StartsAtSlash, Flat, FlatFirst;
    if entries == [] {
      assert Flat(trees, [], prefix, depth) == [] by { FlatNone(trees, prefix, depth); }
    } else {
      LeavesBelow(trees, entries[1..], prefix, depth, top);
      var e := entries[0];
      var path := JoinPath(prefix, e.name);
      JoinedBelow(prefix, e.name, top);
      if !IsTree(e) {
        FlatLeaf(trees, e, prefix, depth);
      } else {
        FlatSubtree(trees, e, prefix, depth);
        if depth > 0 && e.oid in trees {
          LeavesBelow(trees, trees[e.oid], path, depth - 1, top);
        }
      }
      FlatUnfold(trees, entries, prefix, depth);
    }
  }

  lemma JoinedBelow(prefix: Path, name: seq<byte>, top: Path)
    requires prefix != [] && (prefix == top || Pathspec.StartsAtSlash(prefix, top))
    ensures Pathspec.StartsAtSlash(JoinPath(prefix, name), top)
  {
    assert prefix <= JoinPath(prefix, name);
  }

  /** A pruned subtree has no selected leaf. */
  lemma PrunedHoldsNothing(m: Matcher, trees: TreeStore, entries: seq<Entry>, path: Path, depth: nat)
    requires m.PrunesSoundly() && path != [] && !m.MayMatchDescendant(path)
    ensures Selected(m, Flat(trees, entries, path, depth)) == []
  {
    var items := Flat(trees, entries, path, depth);
    LeavesBelow(trees, entries, path, depth, path);
    forall i | 0 <= i < |items| && items[i].Leaf? ensures !m.Matches(items[i].path) {
      assert Pathspec.StartsAtSlash(items[i].path, path);
    }
    NothingSelected(m, items);
  }

  /** A root directory with an empty name would be pruned although a file in it matches. */
  lemma NamelessTreeIsPruned(m: Matcher, trees: TreeStore, e: Entry, file: Entry, depth: nat)
    requires m.patterns == [[0x66]] && file.name == [0x66] && !IsTree(file)
    requires IsTree(e) && e.name == [] && e.oid in trees && trees[e.oid] == [file] && depth > 0
    ensures !m.MayMatchDescendant(JoinPath([], e.name))
    ensures Selected(m, FlatFirst(trees, e, [], depth)) == [Leaf([0x66], file.mode, file.oid)]
    ensures !RootIsClear(m, trees, [e], [], depth)
  {
    var p: seq<byte> := [0x66];
    assert Pathspec.FixedPart(p[1..]) == [];
    assert Pathspec.FixedPart(p) == p;
    assert Pathspec.StripMagic(p) == (p, false);
    assert !Pathspec.PatternMayMatchDescendant(p, []);
    assert Pathspec.PatternMatches(m.wild, m.patterns[0], p);
    var leaf := Leaf(p, file.mode, file.oid);
    assert FlatFirst(trees, file, [], depth - 1) == [leaf];
    assert Flat(trees, [file][1..], [], depth - 1) == [];
    assert FlatFirst(trees, e, [], depth) == [leaf];
    assert Selected(m, [leaf][1..]) == [];
    assert !ClearEntry(m, trees, [e][0], [], depth);
  }

  // ----- the main theorem

  /** Not a nameless directory at the root, or one that stays open or holds nothing selected. */
  ghost predicate ClearEntry(m: Matcher, store: TreeStore, e: Entry, prefix: Path, depth: nat) {
    IsTree(e) && e.oid in store && prefix == [] && e.name == [] && depth > 0 ==>
      m.MayMatchDescendant([]) || Selected(m, Flat(store, store[e.oid], [], depth - 1)) == []
  }

  /** No nameless root directory is pruned although something in it is selected. */
  ghost predicate RootIsClear(m: Matcher, store: TreeStore, entries: seq<Entry>, prefix: Path, depth: nat) {
    forall i :: 0 <= i < |entries| ==> ClearEntry(m, store, entries[i], prefix, depth)
  }

  lemma ClearSplits(m: Matcher, store: TreeStore, entries: seq<Entry>, prefix: Path, depth: nat)
    requires entries != []
    ensures RootIsClear(m, store, entries, prefix, depth)
      <==> ClearEntry(m, store, entries[0], prefix, depth) && RootIsClear(m, store, entries[1..], prefix, depth)
  {
    hide ClearEntry;
    if RootIsClear(m, store, entries[1..], prefix, depth) && ClearEntry(m, store, entries[0], prefix, depth) {
      forall i | 0 <= i < |entries| ensures ClearEntry(m, store, entries[i], prefix, depth) {
        assert i > 0 ==> entries[i] == entries[1..][i - 1];
      }
    }
  }

  /** Below an open or named directory there is nothing to clear. */
  lemma ClearBelow(m: Matcher, store: TreeStore, entries: seq<Entry>, prefix: Path, depth: nat)
    requires prefix != [] || m.MayMatchDescendant([])
    ensures RootIsClear(m, store, entries, prefix, depth)
  {
  }

  /** A directory that is not opened and is clear selects nothing. */
  lemma PrunedEntry(m: Matcher, store: TreeStore, e: Entry, prefix: Path, depth: nat)
    requires m.PrunesSoundly() && IsTree(e) && e.oid in store && depth > 0
    requires !m.MayMatchDescendant(JoinPath(prefix, e.name)) && ClearEntry(m, store, e, prefix, depth)
    ensures Selected(m, Flat(store, store[e.oid], JoinPath(prefix, e.name), depth - 1)) == []
  {
    hide Flat, Selected, Matcher.MayMatchDescendant, Matcher.PrunesSoundly;
    var path := JoinPath(prefix, e.name);
    if path != [] {
      PrunedHoldsNothing(m, store, store[e.oid], path, depth - 1);
    }
  }

  /** Flattening the projection, read through the projected map, is filtering the flattened original. */
  lemma {:induction false} ProjectionFilters(
    projected: TreeStore, store: TreeStore, rank: Rank, m: Matcher, entries: seq<Entry>, prefix: Path, depth: nat)
    requires Ranked(store, rank) && m.PrunesSoundly() && RootIsClear(m, store, entries, prefix, depth)
    requires Served(projected, store, rank, m, entries, prefix) && depth >= Height(rank, entries)
    ensures Flat(Through(projected, store), Projected(store, rank, m, entries, prefix), prefix, depth)
      == Selected(m, Flat(store, entries, prefix, depth))
    decreases Height(rank, entries), |entries|
  {
    hide Flat, FlatFirst, Projected, Kept, Served, ServedFirst, Selected, Matcher.Matches, Matcher.MayMatchDescendant, Matcher.PrunesSoundly, ClearEntry, RootIsClear;
    var view := Through(projected, store);
    if entries == [] {
      FlatEmpty(store, view, rank, m, prefix, depth);
    } else {
      HeightBelow(rank, entries[1..], Height(rank, entries));
      Unfold(projected, store, rank, m, entries, prefix);
      ClearSplits(m, store, entries, prefix, depth);
      ProjectionFilters(projected, store, rank, m, entries[1..], prefix, depth);
      var kept := Kept(store, rank, m, entries, prefix);
      FlatUnfold(store, entries, prefix, depth);
      SelectedConcat(m, FlatFirst(store, entries[0], prefix, depth), Flat(store, entries[1..], prefix, depth));
      assert Flat(view, kept, prefix, depth) == Selected(m, FlatFirst(store, entries[0], prefix, depth)) by {
        FirstFilters(projected, store, rank, m, entries, prefix, depth);
      }
      FlatConcat(view, kept, Projected(store, rank, m, entries[1..], prefix), prefix, depth);
    }
  }

  lemma FlatEmpty(store: TreeStore, view: TreeStore, rank: Rank, m: Matcher, prefix: Path, depth: nat)
    requires Ranked(store, rank)
    ensures Flat(view, [], prefix, depth) == [] == Flat(store, [], prefix, depth)
    ensures Selected(m, []) == [] && Projected(store, rank, m, [], prefix) == []
  {
  }

  lemma FlatNone(trees: TreeStore, prefix: Path, depth: nat)
    ensures Flat(trees, [], prefix, depth) == []
  {
  }

  lemma FlatUnfold(trees: TreeStore, entries: seq<Entry>, prefix: Path, depth: nat)
    requires entries != []
    ensures Flat(trees, entries, prefix, depth) == FlatFirst(trees, entries[0], prefix, depth) + Flat(trees, entries[1..], prefix, depth)
  {
  }

  lemma FlatOne(trees: TreeStore, e: Entry, prefix: Path, depth: nat)
    ensures Flat(trees, [e], prefix, depth) == FlatFirst(trees, e, prefix, depth)
  {
    assert [e][1..] == [];
    assert Flat(trees, [], prefix, depth) == [];
  }

  lemma {:induction false} FlatConcat(trees: TreeStore, a: seq<Entry>, b: seq<Entry>, prefix: Path, depth: nat)
    ensures Flat(trees, a + b, prefix, depth) == Flat(trees, a, prefix, depth) + Flat(trees, b, prefix, depth)
    decreases |a|
  {
    hide FlatFirst;
    if a == [] {
      assert a + b == b;
    } else {
      FlatConcat(trees, a[1..], b, prefix, depth);
      assert (a + b)[1..] == a[1..] + b;
    }
  }

  lemma FlatLeaf(trees: TreeStore, e: Entry, prefix: Path, depth: nat)
    requires !IsTree(e)
    ensures FlatFirst(trees, e, prefix, depth) == [Leaf(JoinPath(prefix, e.name), e.mode, e.oid)]
  {
  }

  lemma FlatSubtree(trees: TreeStore, e: Entry, prefix: Path, depth: nat)
    requires IsTree(e)
    ensures depth > 0 && e.oid in trees ==>
      FlatFirst(trees, e, prefix, depth) == Flat(trees, trees[e.oid], JoinPath(prefix, e.name), depth - 1)
    ensures depth == 0 || e.oid !in trees ==> FlatFirst(trees, e, prefix, depth) == [Unopened(JoinPath(prefix, e.name), e.oid)]
  {
  }

  lemma SelectedOne(m: Matcher, item: Item)
    ensures Selected(m, [item]) == if item.Leaf? && m.Matches(item.path) then [item] else []
  {
    assert [item][1..] == [];
    assert Selected(m, []) == [];
  }

  lemma FirstFilters(projected: TreeStore, store: TreeStore, rank: Rank, m: Matcher, entries: seq<Entry>, prefix: Path, depth: nat)
    requires Ranked(store, rank) && m.PrunesSoundly() && entries != [] && ClearEntry(m, store, entries[0], prefix, depth)
    requires ServedFirst(projected, store, rank, m, entries, prefix) && depth >= Height(rank, entries)
    ensures Flat(Through(projected, store), Kept(store, rank, m, entries, prefix), prefix, depth)
      == Selected(m, FlatFirst(store, entries[0], prefix, depth))
    decreases Height(rank, entries), |entries|, 0
  {
    hide Flat, FlatFirst, Projected, Kept, Served, ServedFirst, Selected, Matcher.Matches, Matcher.MayMatchDescendant, Matcher.PrunesSoundly, ClearEntry, RootIsClear;
    var view := Through(projected, store);
    var e := entries[0];
    var path := JoinPath(prefix, e.name);
    UnfoldFirst(projected, store, rank, m, entries, prefix);
    FlatEmpty(store, view, rank, m, prefix, depth);
    FlatOne(view, e, prefix, depth);
    if !IsTree(e) {
      FlatLeaf(view, e, prefix, depth);
      FlatLeaf(store, e, prefix, depth);
      SelectedOne(m, Leaf(path, e.mode, e.oid));
    } else {
      FlatSubtree(store, e, prefix, depth);
      SelectedOne(m, Unopened(path, e.oid));
      if e.oid in store {
        if m.MayMatchDescendant(path) {
          SubtreeFilters(projected, store, rank, m, entries, prefix, depth);
        } else {
          PrunedEntry(m, store, e, prefix, depth);
        }
      }
    }
  }

  lemma SubtreeFilters(projected: TreeStore, store: TreeStore, rank: Rank, m: Matcher, entries: seq<Entry>, prefix: Path, depth: nat)
    requires Ranked(store, rank) && m.PrunesSoundly() && entries != []
    requires ServedFirst(projected, store, rank, m, entries, prefix) && depth >= Height(rank, entries)
    requires IsTree(entries[0]) && entries[0].oid in store && m.MayMatchDescendant(JoinPath(prefix, entries[0].name))
    ensures Flat(Through(projected, store), Kept(store, rank, m, entries, prefix), prefix, depth)
      == Selected(m, FlatFirst(store, entries[0], prefix, depth))
    decreases Height(rank, entries), |entries|, 0, 0
  {
    hide Flat, FlatFirst, Projected, Kept, Served, ServedFirst, Selected, Matcher.Matches, Matcher.MayMatchDescendant, Matcher.PrunesSoundly, ClearEntry, RootIsClear;
    var view := Through(projected, store);
    var e := entries[0];
    var path := JoinPath(prefix, e.name);
    var child := Projected(store, rank, m, store[e.oid], path);
    UnfoldFirst(projected, store, rank, m, entries, prefix);
    ChildHeight(store, rank, e);
    ClearBelow(m, store, store[e.oid], path, depth - 1);
    FlatSubtree(store, e, prefix, depth);
    if child == [] {
      EmptySelectsNothing(store, rank, m, store[e.oid], path, depth - 1);
      FlatEmpty(store, view, rank, m, prefix, depth);
    } else {
      ProjectionFilters(projected, store, rank, m, store[e.oid], path, depth - 1);
      var e' := e.(oid := m.objectId(child));
      FlatOne(view, e', prefix, depth);
      FlatSubtree(view, e', prefix, depth);
    }
  }

  /** Only subtrees without a selected leaf project to nothing. */
  lemma {:induction false} EmptySelectsNothing(store: TreeStore, rank: Rank, m: Matcher, entries: seq<Entry>, prefix: Path, depth: nat)
    requires Ranked(store, rank) && m.PrunesSoundly() && RootIsClear(m, store, entries, prefix, depth)
    requires Projected(store, rank, m, entries, prefix) == [] && depth >= Height(rank, entries)
    ensures Selected(m, Flat(store, entries, prefix, depth)) == []
    decreases Height(rank, entries), |entries|
  {
    hide Flat, FlatFirst, Projected, Kept, Served, ServedFirst, Selected, Matcher.Matches, Matcher.MayMatchDescendant, Matcher.PrunesSoundly, ClearEntry, RootIsClear;
    FlatEmpty(store, store, rank, m, prefix, depth);
    if entries != [] {
      var e := entries[0];
      var path := JoinPath(prefix, e.name);
      HeightBelow(rank, entries[1..], Height(rank, entries));
      Unfold(map[], store, rank, m, entries, prefix);
      UnfoldFirst(map[], store, rank, m, entries, prefix);
      ClearSplits(m, store, entries, prefix, depth);
      EmptySelectsNothing(store, rank, m, entries[1..], prefix, depth);
      FlatUnfold(store, entries, prefix, depth);
      SelectedConcat(m, FlatFirst(store, e, prefix, depth), Flat(store, entries[1..], prefix, depth));
      if !IsTree(e) {
        FlatLeaf(store, e, prefix, depth);
        SelectedOne(m, Leaf(path, e.mode, e.oid));
      } else {
        FlatSubtree(store, e, prefix, depth);
        SelectedOne(m, Unopened(path, e.oid));
        if e.oid in store {
          if m.MayMatchDescendant(path) {
            ChildHeight(store, rank, e);
            ClearBelow(m, store, store[e.oid], path, depth - 1);
            EmptySelectsNothing(store, rank, m, store[e.oid], path, depth - 1);
          } else {
            PrunedEntry(m, store, e, prefix, depth);
          }
        }
      }
    }
  }

  /** Where the root is not clear, the projection loses something selected. */
  lemma {:induction false} UnclearLoses(
    projected: TreeStore, store: TreeStore, rank: Rank, m: Matcher, entries: seq<Entry>, prefix: Path, depth: nat)
    requires Ranked(store, rank) && m.PrunesSoundly() && !RootIsClear(m, store, entries, prefix, depth)
    requires Served(projected, store, rank, m, entries, prefix) && depth >= Height(rank, entries)
    ensures |Flat(Through(projected, store), Projected(store, rank, m, entries, prefix), prefix, depth)|
      < |Selected(m, Flat(store, entries, prefix, depth))|
    decreases |entries|
  {
    hide Flat, FlatFirst, Projected, Kept, Served, ServedFirst, Selected, Matcher.Matches, Matcher.MayMatchDescendant, Matcher.PrunesSoundly,
      ClearEntry, RootIsClear;
    if entries == [] {
      NothingUnclear(m, store, prefix, depth);
    } else {
      var view := Through(projected, store);
      var e := entries[0];
      var kept, rest := Kept(store, rank, m, entries, prefix), Projected(store, rank, m, entries[1..], prefix);
      HeightBelow(rank, entries[1..], Height(rank, entries));
      Unfold(projected, store, rank, m, entries, prefix);
      ClearSplits(m, store, entries, prefix, depth);
      FlatUnfold(store, entries, prefix, depth);
      SelectedConcat(m, FlatFirst(store, e, prefix, depth), Flat(store, entries[1..], prefix, depth));
      FlatConcat(view, kept, rest, prefix, depth);
      if RootIsClear(m, store, entries[1..], prefix, depth) {
        ProjectionFilters(projected, store, rank, m, entries[1..], prefix, depth);
      } else {
        UnclearLoses(projected, store, rank, m, entries[1..], prefix, depth);
      }
      if ClearEntry(m, store, e, prefix, depth) {
        FirstFilters(projected, store, rank, m, entries, prefix, depth);
      } else {
        UnclearEntry(m, store, e, prefix, depth);
        UnfoldFirst(projected, store, rank, m, entries, prefix);
        FlatNone(view, prefix, depth);
      }
    }
  }

  lemma NothingUnclear(m: Matcher, store: TreeStore, prefix: Path, depth: nat)
    ensures RootIsClear(m, store, [], prefix, depth)
  {
  }

  lemma UnclearEntry(m: Matcher, store: TreeStore, e: Entry, prefix: Path, depth: nat)
    requires !ClearEntry(m, store, e, prefix, depth)
    ensures IsTree(e) && e.oid in store && !m.MayMatchDescendant(JoinPath(prefix, e.name))
    ensures Selected(m, FlatFirst(store, e, prefix, depth)) != []
  {
    hide Flat, Selected, Matcher.MayMatchDescendant;
    FlatSubtree(store, e, prefix, depth);
  }

  /** `output`, read through the projected map, flattens to the selected leaves of the original, in order. */
  ghost predicate ReadsBack(
    projected: TreeStore, store: TreeStore, m: Matcher, entries: seq<Entry>, output: seq<Entry>, prefix: Path, depth: nat)
  {
    Flat(Through(projected, store), output, prefix, depth) == Selected(m, Flat(store, entries, prefix, depth))
  }

  /**
   * The projection reads back as the filtered original if and only if no
   * nameless root directory is pruned although it holds something selected;
   * below the root any names will do.
   */
  lemma ProjectionFiltersIff(
    projected: TreeStore, store: TreeStore, rank: Rank, m: Matcher, entries: seq<Entry>, prefix: Path, depth: nat)
    requires Ranked(store, rank) && m.PrunesSoundly()
    requires Served(projected, store, rank, m, entries, prefix) && depth >= Height(rank, entries)
    ensures ReadsBack(projected, store, m, entries, Projected(store, rank, m, entries, prefix), prefix, depth)
      <==> RootIsClear(m, store, entries, prefix, depth)
    ensures (forall i :: 0 <= i < |entries| && IsTree(entries[i]) ==> entries[i].name != []) ==> RootIsClear(m, store, entries, prefix, depth)
  {
    hide Flat, Projected, Served, Selected, Matcher.MayMatchDescendant, Matcher.PrunesSoundly;
    if RootIsClear(m, store, entries, prefix, depth) {
      ProjectionFilters(projected, store, rank, m, entries, prefix, depth);
    } else {
      UnclearLoses(projected, store, rank, m, entries, prefix, depth);
    }
  }

  // ----- the memoised projector

  ghost predicate Grows(small: TreeStore, large: TreeStore) {
    forall oid :: oid in small ==> oid in large && large[oid] == small[oid]
  }

  lemma {:induction false} ServedGrows(
    small: TreeStore, large: TreeStore, store: TreeStore, rank: Rank, m: Matcher, entries: seq<Entry>, prefix: Path)
    requires Ranked(store, rank) && Grows(small, large) && Served(small, store, rank, m, entries, prefix)
    ensures Served(large, store, rank, m, entries, prefix)
    decreases Height(rank, entries), |entries|
  {
    hide Projected, Kept, Served, ServedFirst, Matcher.Matches, Matcher.MayMatchDescendant;
    if entries == [] {
      ServedNone(large, store, rank, m, prefix);
    } else {
      var e := entries[0];
      var path := JoinPath(prefix, e.name);
      Unfold(small, store, rank, m, entries, prefix);
      Unfold(large, store, rank, m, entries, prefix);
      UnfoldFirst(small, store, rank, m, entries, prefix);
      UnfoldFirst(large, store, rank, m, entries, prefix);
      HeightBelow(rank, entries[1..], Height(rank, entries));
      ServedGrows(small, large, store, rank, m, entries[1..], prefix);
      if IsTree(e) && m.MayMatchDescendant(path) && e.oid in store {
        ChildHeight(store, rank, e);
        if Projected(store, rank, m, store[e.oid], path) != [] {
          ServedGrows(small, large, store, rank, m, store[e.oid], path);
        }
      }
    }
  }

  lemma ServedNone(projected: TreeStore, store: TreeStore, rank: Rank, m: Matcher, prefix: Path)
    requires Ranked(store, rank)
    ensures Served(projected, store, rank, m, [], prefix) && Readable(store, rank, m, [], prefix)
    ensures Projected(store, rank, m, [], prefix) == []
  {
  }

  lemma ReadableUnfold(store: TreeStore, rank: Rank, m: Matcher, entries: seq<Entry>, prefix: Path)
    requires Ranked(store, rank) && entries != []
    ensures
      var e := entries[0];
      var path := JoinPath(prefix, e.name);
      Readable(store, rank, m, entries, prefix) <==>
        && (IsTree(e) && m.MayMatchDescendant(path) ==> e.oid in store && Readable(store, rank, m, store[e.oid], path))
        && Readable(store, rank, m, entries[1..], prefix)
  {
  }

  /** Projection, readability and lookup all distribute over concatenation. */
  lemma {:induction false} Splits(projected: TreeStore, store: TreeStore, rank: Rank, m: Matcher, a: seq<Entry>, b: seq<Entry>, prefix: Path)
    requires Ranked(store, rank)
    ensures Projected(store, rank, m, a + b, prefix) == Projected(store, rank, m, a, prefix) + Projected(store, rank, m, b, prefix)
    ensures Readable(store, rank, m, a + b, prefix) <==> Readable(store, rank, m, a, prefix) && Readable(store, rank, m, b, prefix)
    ensures Served(projected, store, rank, m, a + b, prefix)
      <==> Served(projected, store, rank, m, a, prefix) && Served(projected, store, rank, m, b, prefix)
    decreases |a|
  {
    hide Projected, Kept, Served, ServedFirst, Readable, Matcher.Matches, Matcher.MayMatchDescendant;
    if a == [] {
      assert a + b == b;
      ServedNone(projected, store, rank, m, prefix);
    } else {
      assert (a + b)[1..] == a[1..] + b && (a + b)[0] == a[0];
      Splits(projected, store, rank, m, a[1..], b, prefix);
      Unfold(projected, store, rank, m, a, prefix);
      Unfold(projected, store, rank, m, a + b, prefix);
      UnfoldFirst(projected, store, rank, m, a, prefix);
      UnfoldFirst(projected, store, rank, m, a + b, prefix);
      ReadableUnfold(store, rank, m, a, prefix);
      ReadableUnfold(store, rank, m, a + b, prefix);
    }
  }

  lemma OneEntry(projected: TreeStore, store: TreeStore, rank: Rank, m: Matcher, e: Entry, prefix: Path)
    requires Ranked(store, rank)
    ensures
      var path := JoinPath(prefix, e.name);
      if IsTree(e) && m.MayMatchDescendant(path) then
        && (Readable(store, rank, m, [e], prefix) <==> e.oid in store && Readable(store, rank, m, store[e.oid], path))
        && (e.oid in store ==>
              var child := Projected(store, rank, m, store[e.oid], path);
              && Projected(store, rank, m, [e], prefix) == KeptTree(m, e, child)
              && (Served(projected, store, rank, m, [e], prefix) <==>
                    (child != [] ==>
                      m.objectId(child) in projected && projected[m.objectId(child)] == child
                      && Served(projected, store, rank, m, store[e.oid], path))))
      else
        && Readable(store, rank, m, [e], prefix) && Served(projected, store, rank, m, [e], prefix)
        && Projected(store, rank, m, [e], prefix) == (if !IsTree(e) && m.Matches(path) then [e] else [])
  {
    hide Projected, Kept, Served, ServedFirst, Readable, Matcher.Matches, Matcher.MayMatchDescendant;
    assert [e][1..] == [] && [e][0] == e;
    ServedNone(projected, store, rank, m, prefix);
    Unfold(projected, store, rank, m, [e], prefix);
    UnfoldFirst(projected, store, rank, m, [e], prefix);
    ReadableUnfold(store, rank, m, [e], prefix);
  }

  /** A projection that is complete, correct and can be looked up. */
  ghost predicate Done(
    projected: TreeStore, store: TreeStore, rank: Rank, m: Matcher, entries: seq<Entry>, prefix: Path, output: seq<Entry>)
    requires Ranked(store, rank)
  {
    && Readable(store, rank, m, entries, prefix)
    && Served(projected, store, rank, m, entries, prefix)
    && output == Projected(store, rank, m, entries, prefix)
  }

  ghost predicate CacheCorrect(
    cache: map<(Oid, Path), seq<Entry>>, projected: TreeStore, store: TreeStore, rank: Rank, m: Matcher)
    requires Ranked(store, rank)
  {
    forall key :: key in cache ==> key.0 in store && Done(projected, store, rank, m, store[key.0], key.1, cache[key])
  }

  /** Every projected tree is filed under its own ID. */
  ghost predicate Addressed(projected: TreeStore, m: Matcher) {
    forall oid :: oid in projected ==> m.objectId(projected[oid]) == oid
  }

  lemma DoneGrows(small: TreeStore, large: TreeStore, store: TreeStore, rank: Rank, m: Matcher, entries: seq<Entry>, prefix: Path, output: seq<Entry>)
    requires Ranked(store, rank) && Grows(small, large) && Done(small, store, rank, m, entries, prefix, output)
    ensures Done(large, store, rank, m, entries, prefix, output)
  {
    hide Projected, Served, Readable;
    ServedGrows(small, large, store, rank, m, entries, prefix);
  }

  lemma CacheGrows(cache: map<(Oid, Path), seq<Entry>>, small: TreeStore, large: TreeStore, store: TreeStore, rank: Rank, m: Matcher)
    requires Ranked(store, rank) && Grows(small, large) && CacheCorrect(cache, small, store, rank, m)
    ensures CacheCorrect(cache, large, store, rank, m)
  {
    hide Done, Grows;
    forall key | key in cache ensures Done(large, store, rank, m, store[key.0], key.1, cache[key]) {
      DoneGrows(small, large, store, rank, m, store[key.0], key.1, cache[key]);
    }
  }

  lemma DoneNone(projected: TreeStore, store: TreeStore, rank: Rank, m: Matcher, prefix: Path)
    requires Ranked(store, rank)
    ensures Done(projected, store, rank, m, [], prefix, [])
  {
  }

  lemma DoneSkips(projected: TreeStore, store: TreeStore, rank: Rank, m: Matcher, all: seq<Entry>, i: nat, prefix: Path, output: seq<Entry>)
    requires Ranked(store, rank) && i < |all| && Done(projected, store, rank, m, all[..i], prefix, output)
    requires !(IsTree(all[i]) && m.MayMatchDescendant(JoinPath(prefix, all[i].name)))
    ensures Done(projected, store, rank, m, all[..i + 1], prefix,
              if !IsTree(all[i]) && m.Matches(JoinPath(prefix, all[i].name)) then output + [all[i]] else output)
  {
    hide Projected, Served, Readable, Matcher.Matches, Matcher.MayMatchDescendant;
    assert all[..i + 1] == all[..i] + [all[i]];
    Splits(projected, store, rank, m, all[..i], [all[i]], prefix);
    OneEntry(projected, store, rank, m, all[i], prefix);
  }

  lemma DoneAdds(
    projected: TreeStore, store: TreeStore, rank: Rank, m: Matcher, all: seq<Entry>, i: nat, prefix: Path, output: seq<Entry>, child: seq<Entry>)
    requires Ranked(store, rank) && i < |all| && Done(projected, store, rank, m, all[..i], prefix, output)
    requires IsTree(all[i]) && m.MayMatchDescendant(JoinPath(prefix, all[i].name)) && all[i].oid in store
    requires Done(projected, store, rank, m, store[all[i].oid], JoinPath(prefix, all[i].name), child)
    requires child != [] ==> m.objectId(child) in projected && projected[m.objectId(child)] == child
    ensures Done(projected, store, rank, m, all[..i + 1], prefix, output + KeptTree(m, all[i], child))
  {
    hide Projected, Served, Readable, Matcher.Matches, Matcher.MayMatchDescendant;
    assert all[..i + 1] == all[..i] + [all[i]];
    Splits(projected, store, rank, m, all[..i], [all[i]], prefix);
    OneEntry(projected, store, rank, m, all[i], prefix);
  }

  /** One unreadable subtree makes the whole list unreadable. */
  lemma ChildUnreadable(store: TreeStore, rank: Rank, m: Matcher, all: seq<Entry>, i: nat, prefix: Path)
    requires Ranked(store, rank) && i < |all|
    requires IsTree(all[i]) && m.MayMatchDescendant(JoinPath(prefix, all[i].name))
    requires all[i].oid in store ==> !Readable(store, rank, m, store[all[i].oid], JoinPath(prefix, all[i].name))
    ensures !Readable(store, rank, m, all, prefix)
  {
    hide Projected, Served, Readable, Matcher.Matches, Matcher.MayMatchDescendant;
    assert all == all[..i] + ([all[i]] + all[i + 1..]);
    Splits(map[], store, rank, m, all[..i], [all[i]] + all[i + 1..], prefix);
    Splits(map[], store, rank, m, [all[i]], all[i + 1..], prefix);
    OneEntry(map[], store, rank, m, all[i], prefix);
  }

  class Projector {
    const store: TreeStore
    ghost const rank: Rank
    const matcher: Matcher
    var cache: map<(Oid, Path), seq<Entry>>
    var projected: TreeStore

    ghost predicate Valid()
      reads this
    {
      && Ranked(store, rank) && matcher.CollisionFree()
      && Addressed(projected, matcher)
      && CacheCorrect(cache, projected, store, rank, matcher)
    }

    constructor (store: TreeStore, ghost rank: Rank, matcher: Matcher)
      requires Ranked(store, rank) && matcher.CollisionFree()
      ensures Valid() && this.store == store && this.rank == rank && this.matcher == matcher && projected == map[]
    {
      this.store, this.rank, this.matcher := store, rank, matcher;
      cache, projected := map[], map[];
    }

    /** `projected.entry(oid).or_insert(child)`: without collisions the entry is `child`. */
    method Serve(child: seq<Entry>) returns (oid: Oid)
      requires Valid()
      modifies this`projected
      ensures Valid() && Grows(old(projected), projected)
      ensures oid == matcher.objectId(child) && oid in projected && projected[oid] == child
    {
      hide Done, CacheCorrect;
      oid := matcher.objectId(child);
      if oid !in projected {
        projected := projected[oid := child];
      }
      CacheGrows(cache, old(projected), projected, store, rank, matcher);
    }

    /** `project_tree`: `None` exactly when a tree it has to read is missing; the cache changes nothing else. */
    method ProjectTree(oid: Oid, prefix: Path) returns (r: Option<seq<Entry>>)
      requires Valid()
      modifies this
      ensures Valid() && Grows(old(projected), projected)
      ensures r.None? <==> oid !in store || !Readable(store, rank, matcher, store[oid], prefix)
      ensures r.Some? ==> Done(projected, store, rank, matcher, store[oid], prefix, r.value)
      decreases rank(oid)
    {
      hide Done, CacheCorrect, Readable, Served, Projected, Matcher.CollisionFree, Addressed, Matcher.Matches, Matcher.MayMatchDescendant;
      ghost var start := projected;
      if (oid, prefix) in cache {
        var hit := cache[(oid, prefix)];
        CacheHit(cache, projected, store, rank, matcher, (oid, prefix));
        return Some(hit);
      }
      if oid !in store { return None; }
      var entries := store[oid];
      var output: seq<Entry> := [];
      DoneNone(projected, store, rank, matcher, prefix);
      assert entries[..0] == [];
      for i := 0 to |entries|
        invariant Valid() && Grows(start, projected)
        invariant Done(projected, store, rank, matcher, entries[..i], prefix, output)
      {
        var e := entries[i];
        var path := JoinPath(prefix, e.name);
        ghost var before := projected;
        if IsTree(e) {
          if !matcher.MayMatchDescendant(path) {
            DoneSkips(projected, store, rank, matcher, entries, i, prefix, output);
            continue;
          }
          var child := ProjectTree(e.oid, path);
          if child.None? {
            ChildUnreadable(store, rank, matcher, entries, i, prefix);
            return None;
          }
          ghost var middle := projected;
          if child.value != [] {
            var childOid := Serve(child.value);
            DoneGrows(middle, projected, store, rank, matcher, store[e.oid], path, child.value);
            GrowsTwice(before, middle, projected);
            DoneGrows(before, projected, store, rank, matcher, entries[..i], prefix, output);
            DoneAdds(projected, store, rank, matcher, entries, i, prefix, output, child.value);
            output := output + [e.(oid := childOid)];
          } else {
            DoneGrows(before, projected, store, rank, matcher, entries[..i], prefix, output);
            DoneAdds(projected, store, rank, matcher, entries, i, prefix, output, child.value);
            assert output + KeptTree(matcher, e, []) == output;
          }
        } else {
          DoneSkips(projected, store, rank, matcher, entries, i, prefix, output);
          if matcher.Matches(path) {
            output := output + [e];
          }
        }
      }
      assert entries[..|entries|] == entries;
      CacheStores(cache, projected, store, rank, matcher, oid, prefix, output);
      DoneReadable(projected, store, rank, matcher, entries, prefix, output);
      cache := cache[(oid, prefix) := output];
      return Some(output);
    }
  }

  lemma GrowsTwice(a: TreeStore, b: TreeStore, c: TreeStore)
    requires Grows(a, b) && Grows(b, c)
    ensures Grows(a, c)
  {
  }

  lemma DoneReadable(projected: TreeStore, store: TreeStore, rank: Rank, m: Matcher, entries: seq<Entry>, prefix: Path, output: seq<Entry>)
    requires Ranked(store, rank) && Done(projected, store, rank, m, entries, prefix, output)
    ensures Readable(store, rank, m, entries, prefix)
  {
  }

  lemma CacheHit(cache: map<(Oid, Path), seq<Entry>>, projected: TreeStore, store: TreeStore, rank: Rank, m: Matcher, key: (Oid, Path))
    requires Ranked(store, rank) && CacheCorrect(cache, projected, store, rank, m) && key in cache
    ensures key.0 in store && Done(projected, store, rank, m, store[key.0], key.1, cache[key])
    ensures Readable(store, rank, m, store[key.0], key.1)
  {
  }

  lemma CacheStores(
    cache: map<(Oid, Path), seq<Entry>>, projected: TreeStore, store: TreeStore, rank: Rank, m: Matcher, oid: Oid, prefix: Path, output: seq<Entry>)
    requires Ranked(store, rank) && CacheCorrect(cache, projected, store, rank, m)
    requires oid in store && Done(projected, store, rank, m, store[oid], prefix, output)
    ensures CacheCorrect(cache[(oid, prefix) := output], projected, store, rank, m)
  {
    hide Done;
  }

  datatype PreparedTrees = PreparedTrees(base: seq<Entry>, head: seq<Entry>, projected: TreeStore)

  /** One root reads back as its filtered original, exactly when it is clear, at every sufficient depth. */
  ghost predicate Filtered(store: TreeStore, rank: Rank, m: Matcher, root: Oid, output: seq<Entry>, projected: TreeStore)
    requires root in store
  {
    forall depth: nat :: Height(rank, store[root]) <= depth ==>
      (ReadsBack(projected, store, m, store[root], output, [], depth) <==> RootIsClear(m, store, store[root], [], depth))
  }

  lemma RootFiltered(store: TreeStore, rank: Rank, m: Matcher, root: Oid, output: seq<Entry>, projected: TreeStore)
    requires Ranked(store, rank) && m.PrunesSoundly() && root in store
    requires Done(projected, store, rank, m, store[root], [], output)
    ensures Filtered(store, rank, m, root, output, projected)
  {
    hide Served, Projected, Flat, Selected, Matcher.PrunesSoundly, RootIsClear;
    forall depth: nat | Height(rank, store[root]) <= depth
      ensures ReadsBack(projected, store, m, store[root], output, [], depth) <==> RootIsClear(m, store, store[root], [], depth)
    {
      ProjectionFiltersIff(projected, store, rank, m, store[root], [], depth);
    }
  }

  /** `project_diff_trees`: both roots, through one shared projected map. */
  method ProjectDiffTrees(store: TreeStore, ghost rank: Rank, m: Matcher, base: Oid, head: Oid) returns (r: Option<PreparedTrees>)
    requires Ranked(store, rank) && m.PrunesSoundly() && m.CollisionFree()
    ensures r.Some? <==>
      && base in store && Readable(store, rank, m, store[base], [])
      && head in store && Readable(store, rank, m, store[head], [])
    ensures r.Some? ==>
      && Filtered(store, rank, m, base, r.value.base, r.value.projected)
      && Filtered(store, rank, m, head, r.value.head, r.value.projected)
  {
    hide Done, Readable, Served, Projected, Flat, Selected, CacheCorrect, Projector.Valid, Matcher.CollisionFree, Matcher.PrunesSoundly, Filtered;
    var projector := new Projector(store, rank, m);
    var b := projector.ProjectTree(base, []);
    if b.None? { return None; }
    ghost var middle := projector.projected;
    var h := projector.ProjectTree(head, []);
    if h.None? { return None; }
    DoneGrows(middle, projector.projected, store, rank, m, store[base], [], b.value);
    RootFiltered(store, rank, m, base, b.value, projector.projected);
    RootFiltered(store, rank, m, head, h.value, projector.projected);
    return Some(PreparedTrees(b.value, h.value, projector.projected));
  }
}
