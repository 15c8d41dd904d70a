/** The stack-based blob walk of content search (crates/gitility-core/src/search.rs). */
module BlobWalks {
  import opened Basics
  import opened Trees

  /** What a walk meets: a selected file, or a subtree the store does not hold. */
  datatype Event = Found(path: Path, oid: Oid) | MissingTree(oid: Oid)

  datatype Frame = Frame(entries: seq<Entry>, prefix: Path)

  // ----- recursive depth-first order

  /** The events under a list of entries, in depth-first order. */
  ghost function Listed(store: TreeStore, rank: Rank, matches: Path -> bool, entries: seq<Entry>, prefix: Path): seq<Event>
    requires Ranked(store, rank)
    decreases Height(rank, entries), |entries|
  {
    if entries == [] then []
    else
      HeightBelow(rank, entries[1..], Height(rank, entries));
      Met(store, rank, matches, entries, prefix) + Listed(store, rank, matches, entries[1..], prefix)
  }

  /** The events of the first listed entry. */
  ghost function Met(store: TreeStore, rank: Rank, matches: Path -> bool, entries: seq<Entry>, prefix: Path): seq<Event>
    requires Ranked(store, rank) && entries != []
    decreases Height(rank, entries), |entries|, 0
  {
    var e := entries[0];
    var path := JoinPath(prefix, e.name);
    if IsTree(e) then
      if e.oid in store then
        ChildHeight(store, rank, e);
        Listed(store, rank, matches, store[e.oid], path)
      else [MissingTree(e.oid)]
    else if IsBlob(e) && matches(path) then [Found(path, e.oid)]
    else []
  }

  /** How many loop iterations a list of entries is worth. */
  ghost function Work(store: TreeStore, rank: Rank, entries: seq<Entry>): nat
    requires Ranked(store, rank)
    decreases Height(rank, entries), |entries|
  {
    if entries == [] then 1
    else
      HeightBelow(rank, entries[1..], Height(rank, entries));
      var e := entries[0];
      1 + Work(store, rank, entries[1..])
      + (if IsTree(e) && e.oid in store then ChildHeight(store, rank, e); Work(store, rank, store[e.oid]) else 0)
  }

  ghost function StackWork(store: TreeStore, rank: Rank, stack: seq<Frame>): nat
    requires Ranked(store, rank)
  {
    if stack == [] then 0
    else StackWork(store, rank, stack[..|stack| - 1]) + Work(store, rank, stack[|stack| - 1].entries)
  }

  /** The events still to come from a stack of frames, innermost last. */
  ghost function Pending(store: TreeStore, rank: Rank, matches: Path -> bool, stack: seq<Frame>): seq<Event>
    requires Ranked(store, rank)
  {
    if stack == [] then []
    else
      var top := stack[|stack| - 1];
      Listed(store, rank, matches, top.entries, top.prefix) + Pending(store, rank, matches, stack[..|stack| - 1])
  }

  class BlobWalk {
    const store: TreeStore
    ghost const rank: Rank
    const matches: Path -> bool
    var stack: seq<Frame>

    ghost predicate Valid() { Ranked(store, rank) }

    ghost function Remaining(): seq<Event>
      requires Valid()
      reads this
    {
      Pending(store, rank, matches, stack)
    }

    /** `BlobWalk::new` after its root tree was read. */
    constructor (store: TreeStore, ghost rank: Rank, matches: Path -> bool, root: Oid, scope: Path)
      requires Ranked(store, rank) && root in store
      ensures Valid() && this.store == store && this.rank == rank && this.matches == matches
      ensures Remaining() == Listed(store, rank, matches, store[root], scope)
    {
      this.store, this.rank, this.matches := store, rank, matches;
      stack := [Frame(store[root], scope)];
      new;
      assert stack[..0] == [];
      assert Pending(store, rank, matches, []) == [];
    }

    /** `BlobWalk::next`: the next event of the depth-first order. */
    method Next() returns (r: Option<Event>)
      requires Valid()
      modifies this
      ensures old(Remaining()) == [] ==> r == None && Remaining() == []
      ensures old(Remaining()) != [] ==> r == Some(old(Remaining())[0])
      ensures r.Some? && r.value.Found? ==> Remaining() == old(Remaining())[1..]
    {
      hide Listed, Met, Work, Pending, StackWork;
      PendingEmpty(store, rank, matches);
      while true
        invariant Remaining() == old(Remaining())
        decreases StackWork(store, rank, stack)
      {
        if stack == [] { return None; }
        var n := |stack| - 1;
        var frame := stack[n];
        var below := stack[..n];
        assert stack == below + [frame];
        PendingPush(store, rank, matches, below, frame);
        ListedUnfolds(store, rank, matches, frame.entries, frame.prefix);
        WorkUnfolds(store, rank, frame.entries);
        if frame.entries == [] {
          stack := below;
          continue;
        }
        var entry := frame.entries[0];
        var path := JoinPath(frame.prefix, entry.name);
        var advanced := Frame(frame.entries[1..], frame.prefix);
        MetIs(store, rank, matches, frame.entries, frame.prefix);
        PendingPush(store, rank, matches, below, advanced);
        if IsTree(entry) {
          if entry.oid !in store {
            stack := below + [advanced];
            return Some(MissingTree(entry.oid));
          }
          PendingPush(store, rank, matches, below + [advanced], Frame(store[entry.oid], path));
          stack := below + [advanced, Frame(store[entry.oid], path)];
          assert stack == below + [advanced] + [Frame(store[entry.oid], path)];
          continue;
        }
        stack := below + [advanced];
        if !IsBlob(entry) || !matches(path) { continue; }
        return Some(Found(path, entry.oid));
      }
    }
  }

  lemma ListedUnfolds(store: TreeStore, rank: Rank, matches: Path -> bool, entries: seq<Entry>, prefix: Path)
    requires Ranked(store, rank)
    ensures entries == [] ==> Listed(store, rank, matches, entries, prefix) == []
    ensures entries != [] ==>
      Listed(store, rank, matches, entries, prefix) == Met(store, rank, matches, entries, prefix) + Listed(store, rank, matches, entries[1..], prefix)
  {
  }

  lemma MetIs(store: TreeStore, rank: Rank, matches: Path -> bool, entries: seq<Entry>, prefix: Path)
    requires Ranked(store, rank) && entries != []
    ensures
      var e := entries[0];
      var path := JoinPath(prefix, e.name);
      Met(store, rank, matches, entries, prefix) ==
        if IsTree(e) then
          (if e.oid in store then Listed(store, rank, matches, store[e.oid], path) else [MissingTree(e.oid)])
        else if IsBlob(e) && matches(path) then [Found(path, e.oid)] else []
  {
  }

  lemma WorkUnfolds(store: TreeStore, rank: Rank, entries: seq<Entry>)
    requires Ranked(store, rank)
    ensures Work(store, rank, entries) > 0
    ensures entries != [] ==> Work(store, rank, entries) > Work(store, rank, entries[1..])
    ensures entries != [] && IsTree(entries[0]) && entries[0].oid in store ==>
      Work(store, rank, entries) > Work(store, rank, entries[1..]) + Work(store, rank, store[entries[0].oid])
  {
  }

  lemma PendingEmpty(store: TreeStore, rank: Rank, matches: Path -> bool)
    requires Ranked(store, rank)
    ensures Pending(store, rank, matches, []) == []
  {
  }

  lemma PendingPush(store: TreeStore, rank: Rank, matches: Path -> bool, stack: seq<Frame>, frame: Frame)
    requires Ranked(store, rank)
    ensures Pending(store, rank, matches, stack + [frame])
      == Listed(store, rank, matches, frame.entries, frame.prefix) + Pending(store, rank, matches, stack)
    ensures StackWork(store, rank, stack + [frame]) == StackWork(store, rank, stack) + Work(store, rank, frame.entries)
  {
    assert (stack + [frame])[..|stack|] == stack;
  }

  // ----- byte order of the traversal

  ghost predicate AllSorted(store: TreeStore) {
    forall oid :: oid in store ==> GitSorted(store[oid])
  }

  /** Found paths come in strictly increasing byte order. */
  ghost predicate PathsIncrease(events: seq<Event>) {
    forall i, j :: 0 <= i < j < |events| && events[i].Found? && events[j].Found? ==> Less(events[i].path, events[j].path)
  }

  ghost predicate AllUnder(prefix: Path, e: Entry, events: seq<Event>) {
    forall i :: 0 <= i < |events| && events[i].Found? ==> Under(prefix, e, events[i].path)
  }

  /** Every found path lies under one of the listed entries. */
  ghost predicate UnderSome(prefix: Path, entries: seq<Entry>, events: seq<Event>) {
    forall i :: 0 <= i < |events| && events[i].Found? ==>
      exists k :: 0 <= k < |entries| && Under(prefix, entries[k], events[i].path)
  }

  lemma GitSortedTail(entries: seq<Entry>)
    requires GitSorted(entries) && entries != []
    ensures GitSorted(entries[1..])
  {
  }

  lemma {:induction false} ListedInOrder(store: TreeStore, rank: Rank, matches: Path -> bool, entries: seq<Entry>, prefix: Path)
    requires Ranked(store, rank) && AllSorted(store) && GitSorted(entries)
    ensures PathsIncrease(Listed(store, rank, matches, entries, prefix))
    ensures UnderSome(prefix, entries, Listed(store, rank, matches, entries, prefix))
    decreases Height(rank, entries), |entries|
  {
    hide Listed, Met, GitSorted, Less, PathsIncrease, UnderSome, AllUnder;
    ListedUnfolds(store, rank, matches, entries, prefix);
    if entries == [] {
      NoPaths(prefix);
    } else {
      HeightBelow(rank, entries[1..], Height(rank, entries));
      GitSortedTail(entries);
      ListedInOrder(store, rank, matches, entries[1..], prefix);
      var e := entries[0];
      var first := Met(store, rank, matches, entries, prefix);
      MetIs(store, rank, matches, entries, prefix);
      NameIsPlain(entries);
      if IsTree(e) && e.oid in store {
        ChildHeight(store, rank, e);
        ListedInOrder(store, rank, matches, store[e.oid], JoinPath(prefix, e.name));
        ChildUnder(prefix, e, store[e.oid], first);
      } else {
        LeafUnder(prefix, e, first);
      }
      OrderJoins(prefix, entries, first, Listed(store, rank, matches, entries[1..], prefix));
    }
  }

  ghost predicate PathsValid(events: seq<Event>) {
    forall i :: 0 <= i < |events| && events[i].Found? ==> ValidPath(events[i].path)
  }

  lemma PathsValidJoin(a: seq<Event>, b: seq<Event>)
    requires PathsValid(a) && PathsValid(b)
    ensures PathsValid(a + b)
  {
  }

  /** Every path the walk finds passes `validate_path`. */
  lemma {:induction false} ListedValid(store: TreeStore, rank: Rank, matches: Path -> bool, entries: seq<Entry>, prefix: Path)
    requires Ranked(store, rank) && AllSorted(store) && GitSorted(entries) && ValidPath(prefix)
    ensures PathsValid(Listed(store, rank, matches, entries, prefix))
    decreases Height(rank, entries), |entries|
  {
    hide Listed, Met, GitSorted, ValidPath, Less;
    ListedUnfolds(store, rank, matches, entries, prefix);
    if entries != [] {
      HeightBelow(rank, entries[1..], Height(rank, entries));
      GitSortedTail(entries);
      ListedValid(store, rank, matches, entries[1..], prefix);
      var e := entries[0];
      MetIs(store, rank, matches, entries, prefix);
      NameIsPlain(entries);
      JoinValid(prefix, e.name);
      if IsTree(e) && e.oid in store {
        ChildHeight(store, rank, e);
        ListedValid(store, rank, matches, store[e.oid], JoinPath(prefix, e.name));
      }
      PathsValidJoin(Met(store, rank, matches, entries, prefix), Listed(store, rank, matches, entries[1..], prefix));
    }
  }

  lemma NoPaths(prefix: Path)
    ensures PathsIncrease([]) && UnderSome(prefix, [], [])
  {
  }

  lemma NameIsPlain(entries: seq<Entry>)
    requires GitSorted(entries) && entries != []
    ensures PlainName(entries[0].name)
  {
  }

  lemma LeafUnder(prefix: Path, e: Entry, events: seq<Event>)
    requires |events| <= 1 && (events != [] && events[0].Found? ==> !IsTree(e) && events[0].path == JoinPath(prefix, e.name))
    ensures AllUnder(prefix, e, events) && PathsIncrease(events)
  {
    JoinBase(prefix, e.name);
  }

  /** Paths listed under a subtree lie under its entry. */
  lemma ChildUnder(prefix: Path, e: Entry, children: seq<Entry>, events: seq<Event>)
    requires PlainName(e.name) && IsTree(e) && UnderSome(JoinPath(prefix, e.name), children, events)
    ensures AllUnder(prefix, e, events)
  {
    JoinBase(prefix, e.name);
    var path := JoinPath(prefix, e.name);
    assert Base(path) == Base(prefix) + SortKey(e);
    forall i | 0 <= i < |events| && events[i].Found? ensures Under(prefix, e, events[i].path) {
      var k :| 0 <= k < |children| && Under(path, children[k], events[i].path);
      assert Base(path) + SortKey(children[k]) <= events[i].path;
      assert Base(path) == (Base(path) + SortKey(children[k]))[..|Base(path)|];
    }
  }

  lemma OrderJoins(prefix: Path, entries: seq<Entry>, first: seq<Event>, rest: seq<Event>)
    requires entries != [] && GitSorted(entries)
    requires PathsIncrease(first) && AllUnder(prefix, entries[0], first)
    requires PathsIncrease(rest) && UnderSome(prefix, entries[1..], rest)
    ensures PathsIncrease(first + rest) && UnderSome(prefix, entries, first + rest)
  {
    hide Less, Under, SortKey, PlainName;
    var all := first + rest;
    forall i | 0 <= i < |rest| && rest[i].Found?
      ensures exists k :: 1 <= k < |entries| && Under(prefix, entries[k], rest[i].path)
    {
      var k :| 0 <= k < |entries[1..]| && Under(prefix, entries[1..][k], rest[i].path);
      assert entries[k + 1] == entries[1..][k];
    }
    forall i | 0 <= i < |all| && all[i].Found? ensures exists k :: 0 <= k < |entries| && Under(prefix, entries[k], all[i].path) {
      if i < |first| {
        assert Under(prefix, entries[0], all[i].path);
      } else {
        assert all[i] == rest[i - |first|];
      }
    }
    forall i, j | 0 <= i < j < |all| && all[i].Found? && all[j].Found? ensures Less(all[i].path, all[j].path) {
      if i < |first| && j >= |first| {
        assert all[j] == rest[j - |first|];
        var k :| 1 <= k < |entries| && Under(prefix, entries[k], all[j].path);
        UnderOrdered(prefix, entries[0], entries[k], all[i].path, all[j].path);
      } else if i >= |first| {
        assert all[i] == rest[i - |first|] && all[j] == rest[j - |first|];
      }
    }
  }

  // ----- what a walk finds

  /** Entries that lead down from a list of entries, each inside the stored tree of the one before it. */
  ghost predicate Trail(store: TreeStore, entries: seq<Entry>, trail: seq<Entry>)
    decreases |trail|
  {
    trail != [] && trail[0] in entries
    && (|trail| > 1 ==> IsTree(trail[0]) && trail[0].oid in store && Trail(store, store[trail[0].oid], trail[1..]))
  }

  /** The names of a trail, joined. */
  ghost function TrailPath(prefix: Path, trail: seq<Entry>): Path
    decreases |trail|
  {
    if trail == [] then prefix else TrailPath(JoinPath(prefix, trail[0].name), trail[1..])
  }

  /** The trail leads to this event: a file of the path and object ID, or a directory that is not stored. */
  ghost predicate LeadsToEvent(store: TreeStore, entries: seq<Entry>, prefix: Path, trail: seq<Entry>, event: Event) {
    && Trail(store, entries, trail)
    && var last := trail[|trail| - 1];
       match event
       case Found(path, oid) => IsBlob(last) && last.oid == oid && TrailPath(prefix, trail) == path
       case MissingTree(oid) => IsTree(last) && last.oid == oid && oid !in store
  }

  predicate Selected(matches: Path -> bool, event: Event) {
    event.Found? ==> matches(event.path)
  }

  lemma TrailOne(store: TreeStore, entries: seq<Entry>, prefix: Path, e: Entry, event: Event)
    requires e in entries
    ensures Trail(store, entries, [e]) && TrailPath(prefix, [e]) == JoinPath(prefix, e.name)
  {
    assert [e][1..] == [];
  }

  lemma TrailDown(store: TreeStore, entries: seq<Entry>, prefix: Path, e: Entry, below: seq<Entry>, event: Event)
    requires e in entries && IsTree(e) && e.oid in store && below != []
    ensures LeadsToEvent(store, entries, prefix, [e] + below, event) <==> LeadsToEvent(store, store[e.oid], JoinPath(prefix, e.name), below, event)
  {
    assert ([e] + below)[1..] == below;
  }

  /** What the first listed entry contributes. */
  lemma MetLeads(store: TreeStore, rank: Rank, matches: Path -> bool, entries: seq<Entry>, prefix: Path, event: Event) returns (trail: seq<Entry>)
    requires Ranked(store, rank) && entries != [] && event in Met(store, rank, matches, entries, prefix)
    ensures LeadsToEvent(store, entries, prefix, trail, event) && Selected(matches, event)
    decreases Height(rank, entries), |entries|, 0
  {
    hide Listed, Met, Trail, TrailPath;
    var e := entries[0];
    MetIs(store, rank, matches, entries, prefix);
    if IsTree(e) && e.oid in store {
      ChildHeight(store, rank, e);
      var below := ListedLeads(store, rank, matches, store[e.oid], JoinPath(prefix, e.name), event);
      TrailNotEmpty(store, store[e.oid], below);
      TrailDown(store, entries, prefix, e, below, event);
      trail := [e] + below;
    } else {
      TrailOne(store, entries, prefix, e, event);
      trail := [e];
    }
  }

  lemma TrailNotEmpty(store: TreeStore, entries: seq<Entry>, trail: seq<Entry>)
    requires Trail(store, entries, trail)
    ensures trail != [] && trail[0] in entries
    ensures |trail| > 1 ==> IsTree(trail[0]) && trail[0].oid in store && Trail(store, store[trail[0].oid], trail[1..])
  {
  }

  lemma {:induction false} ListedLeads(store: TreeStore, rank: Rank, matches: Path -> bool, entries: seq<Entry>, prefix: Path, event: Event)
    returns (trail: seq<Entry>)
    requires Ranked(store, rank) && event in Listed(store, rank, matches, entries, prefix)
    ensures LeadsToEvent(store, entries, prefix, trail, event) && Selected(matches, event)
    decreases Height(rank, entries), |entries|, 1
  {
    hide Listed, Met, TrailPath;
    ListedUnfolds(store, rank, matches, entries, prefix);
    if event in Met(store, rank, matches, entries, prefix) {
      trail := MetLeads(store, rank, matches, entries, prefix, event);
    } else {
      HeightBelow(rank, entries[1..], Height(rank, entries));
      trail := ListedLeads(store, rank, matches, entries[1..], prefix, event);
    }
  }

  lemma {:induction false} TrailIsListed(
    store: TreeStore, rank: Rank, matches: Path -> bool, entries: seq<Entry>, prefix: Path, trail: seq<Entry>, event: Event)
    requires Ranked(store, rank) && LeadsToEvent(store, entries, prefix, trail, event) && Selected(matches, event)
    ensures event in Listed(store, rank, matches, entries, prefix)
    decreases Height(rank, entries), |entries|
  {
    hide Listed, Met, Trail, TrailPath;
    TrailNotEmpty(store, entries, trail);
    ListedUnfolds(store, rank, matches, entries, prefix);
    var e := entries[0];
    if trail[0] == e {
      MetIs(store, rank, matches, entries, prefix);
      if |trail| > 1 {
        ChildHeight(store, rank, e);
        assert trail == [e] + trail[1..];
        TrailDown(store, entries, prefix, e, trail[1..], event);
        TrailIsListed(store, rank, matches, store[e.oid], JoinPath(prefix, e.name), trail[1..], event);
      } else {
        assert trail == [e];
        TrailOne(store, entries, prefix, e, event);
      }
    } else {
      HeightBelow(rank, entries[1..], Height(rank, entries));
      assert entries == [e] + entries[1..];
      TrailRest(store, entries, trail);
      TrailIsListed(store, rank, matches, entries[1..], prefix, trail, event);
    }
  }

  lemma TrailRest(store: TreeStore, entries: seq<Entry>, trail: seq<Entry>)
    requires entries != [] && Trail(store, entries, trail) && trail[0] != entries[0]
    ensures Trail(store, entries[1..], trail)
  {
  }

  /**
   * A walk meets exactly the selected files that a trail of stored directories
   * leads to, under their joined names, and the directories that are missing.
   */
  lemma ListedIff(store: TreeStore, rank: Rank, matches: Path -> bool, entries: seq<Entry>, prefix: Path, event: Event)
    requires Ranked(store, rank)
    ensures event in Listed(store, rank, matches, entries, prefix) <==>
      Selected(matches, event) && exists trail :: LeadsToEvent(store, entries, prefix, trail, event)
  {
    hide Listed, LeadsToEvent;
    if event in Listed(store, rank, matches, entries, prefix) {
      var trail := ListedLeads(store, rank, matches, entries, prefix, event);
    }
    if trail :| Selected(matches, event) && LeadsToEvent(store, entries, prefix, trail, event) {
      TrailIsListed(store, rank, matches, entries, prefix, trail, event);
    }
  }
}
