/** Read-through store composition and its payload cache (crates/gitility-core/src/layered_odb.rs). */
module LayeredOdb {
  import opened Basics
  import opened Cursors
  import opened Recency
  import opened Lru

  datatype ObjectKind = CommitKind | TreeKind | BlobKind | TagKind
  datatype Oid = Oid(hash: HashKind, digest: nat)
  type Payload = s: seq<byte> | |s| <= U64_MAX
  datatype Obj = Obj(kind: ObjectKind, data: Payload)

  /** One immutable store below the cache. */
  type Layer = map<Oid, Obj>

  datatype ReadError = InvalidOid | ResultTooLarge

  // ----- the answer without any cache

  function FirstHolding(layers: seq<Layer>, oid: Oid): Option<Obj> {
    if layers == [] then None
    else if oid in layers[0] then Some(layers[0][oid])
    else FirstHolding(layers[1..], oid)
  }

  lemma {:induction false} FirstHoldingSplit(layers: seq<Layer>, i: nat, oid: Oid)
    requires i <= |layers|
    ensures FirstHolding(layers, oid)
         == if FirstHolding(layers[..i], oid).Some? then FirstHolding(layers[..i], oid) else FirstHolding(layers[i..], oid)
  {
    if i == 0 {
      assert layers[0..] == layers;
    } else {
      FirstHoldingSplit(layers[1..], i - 1, oid);
      assert layers[..i][1..] == layers[1..][..i - 1] && layers[1..][i - 1..] == layers[i..];
    }
  }

  lemma FirstHoldingNext(layers: seq<Layer>, i: nat, oid: Oid)
    requires i < |layers| && FirstHolding(layers[..i], oid).None?
    ensures oid in layers[i] ==> FirstHolding(layers, oid) == Some(layers[i][oid])
    ensures oid !in layers[i] ==> FirstHolding(layers[..i + 1], oid).None?
  {
    FirstHoldingSplit(layers, i, oid);
    FirstHoldingSplit(layers[..i + 1], i, oid);
    assert layers[..i + 1][..i] == layers[..i] && layers[..i + 1][i..] == [layers[i]];
    assert [layers[i]][1..] == [];
  }

  function Size(answer: Option<Obj>): nat {
    if answer.Some? then |answer.value.data| else 0
  }

  /** The payload bytes the layers hold for a list of object IDs. */
  function Total(layers: seq<Layer>, oids: seq<Oid>): nat {
    if oids == [] then 0 else Total(layers, oids[..|oids| - 1]) + Size(FirstHolding(layers, oids[|oids| - 1]))
  }

  predicate TooLarge(total: nat, max: Option<u64>) {
    max.Some? && total > max.value
  }

  /** A ceiling a 64-bit saturating total can still exceed. */
  predicate Attainable(max: Option<u64>) {
    max.Some? ==> max.value < U64_MAX
  }

  /** First appearances, in order. */
  function Dedup(oids: seq<Oid>): (r: seq<Oid>)
    ensures forall x :: x in r <==> x in oids
    ensures Distinct(r)
  {
    if oids == [] then []
    else
      var n := |oids| - 1;
      assert oids == oids[..n] + [oids[n]];
      var init := Dedup(oids[..n]);
      if oids[n] in init then init else init + [oids[n]]
  }

  function Answers(layers: seq<Layer>, oids: seq<Oid>): seq<Option<Obj>> {
    seq(|oids|, i requires 0 <= i < |oids| => FirstHolding(layers, oids[i]))
  }

  /** What one store answers for itself. */
  function Held(layer: Layer, oid: Oid): Option<Obj> {
    if oid in layer then Some(layer[oid]) else None
  }

  function HeldTotal(layer: Layer, oids: seq<Oid>): nat {
    if oids == [] then 0 else HeldTotal(layer, oids[..|oids| - 1]) + Size(Held(layer, oids[|oids| - 1]))
  }

  /** A store's bounded batch read: fails exactly when its own payload bytes exceed the bound. */
  method ReadLayer(layer: Layer, oids: seq<Oid>, max: Option<u64>) returns (r: Result<seq<Option<Obj>>, ReadError>)
    ensures r.Ok? ==> |r.value| == |oids| && forall i :: 0 <= i < |oids| ==> r.value[i] == Held(layer, oids[i])
    ensures r.Err? ==> r.error == ResultTooLarge && TooLarge(HeldTotal(layer, oids), max)
    ensures r.Ok? && Attainable(max) ==> !TooLarge(HeldTotal(layer, oids), max)
  {
    var results: seq<Option<Obj>> := [];
    var total: u64 := 0;
    assert oids[..0] == [];
    for i := 0 to |oids|
      invariant |results| == i && forall j :: 0 <= j < i ==> results[j] == Held(layer, oids[j])
      invariant total == Min(HeldTotal(layer, oids[..i]), U64_MAX) && (max.Some? ==> total <= max.value)
    {
      assert oids[..i + 1][..i] == oids[..i];
      var value := Held(layer, oids[i]);
      if value.Some? {
        total := SaturatingAdd(total, |value.value.data|);
        if max.Some? && total > max.value {
          HeldTotalPrefix(layer, oids, i + 1);
          return Err(ResultTooLarge);
        }
      }
      results := results + [value];
    }
    assert oids[..|oids|] == oids;
    return Ok(results);
  }

  lemma {:induction false} HeldTotalPrefix(layer: Layer, oids: seq<Oid>, i: nat)
    requires i <= |oids|
    ensures HeldTotal(layer, oids[..i]) <= HeldTotal(layer, oids)
    decreases |oids|
  {
    if i == |oids| {
      assert oids[..i] == oids;
    } else {
      HeldTotalPrefix(layer, oids[..|oids| - 1], i);
      assert oids[..|oids| - 1][..i] == oids[..i];
    }
  }

  // ----- the cache layer

  datatype CacheOptions = CacheOptions(maxBytes: u64, maxEntries: u64, maxObjectBytes: u64)

  predicate ValidOptions(o: CacheOptions) {
    o.maxBytes > 0 && o.maxEntries > 0 && o.maxObjectBytes > 0
  }

  /** Pop from the old end until fewer than `limit` entries remain. */
  function PoppedBelow<K, V>(r: Recency<K, V>, limit: nat): Recency<K, V>
    requires limit > 0
    decreases |r.entries|
  {
    if |r.entries| < limit then r else PoppedBelow(Popped(r), limit)
  }

  /** `CacheLayer::insert` on the recency sequence. */
  function CacheInserted(r: Recency<Oid, Obj>, o: CacheOptions, oid: Oid, obj: Obj): Recency<Oid, Obj>
    requires ValidOptions(o)
  {
    if Oversized(o, obj) then r
    else
      var present := Lookup(r, oid).Some?;
      var cleared := Removed(r, oid);
      var room := if present then cleared else PoppedBelow(cleared, o.maxEntries);
      Inserted(room, oid, obj, |obj.data|).0
  }

  /** Entry and byte bounds, with an exact byte count below the 64-bit ceiling. */
  ghost predicate Bounded(r: Recency<Oid, Obj>, o: CacheOptions) {
    && r.capacity == o.maxBytes && UniqueKeys(r.entries)
    && |r.entries| <= o.maxEntries && r.used <= o.maxBytes
    && (o.maxBytes < U64_MAX ==> Accounted(r))
  }

  /** Every resident payload is what the stores below the cache answer. */
  ghost predicate Faithful(r: Recency<Oid, Obj>, below: seq<Layer>) {
    forall e :: e in r.entries ==> FirstHolding(below, e.key) == Some(e.value) && e.weight == |e.value.data|
  }

  class CacheLayer {
    const options: CacheOptions
    const objects: LruCache<Oid, Obj>
    var evictions: u64

    ghost predicate Valid()
      reads this, objects
    {
      ValidOptions(options) && objects.Valid() && objects.capacity == options.maxBytes && Bounded(objects.Abs(), options)
    }

    constructor (options: CacheOptions)
      requires ValidOptions(options)
      ensures Valid() && fresh(objects) && this.options == options && objects.Abs() == Fresh(options.maxBytes)
    {
      this.options := options;
      objects := new LruCache(options.maxBytes);
      evictions := 0;
    }

    method Get(oid: Oid) returns (r: Option<Obj>)
      requires Valid()
      modifies objects
      ensures Valid() && r == Lookup(old(objects.Abs()), oid) && objects.Abs() == Touched(old(objects.Abs()), oid)
    {
      BoundedTouched(objects.Abs(), options, oid);
      r := objects.Get(oid);
    }

    method Insert(oid: Oid, obj: Obj)
      requires Valid()
      modifies this, objects
      ensures Valid() && objects.Abs() == CacheInserted(old(objects.Abs()), options, oid, obj)
    {
      hide Removed, Inserted, Rep, Contents, Bounded;
      BoundedInserted(objects.Abs(), options, oid, obj);
      var bytes: u64 := |obj.data|;
      if bytes > options.maxObjectBytes || bytes > options.maxBytes { return; }
      var replaced := objects.Remove(oid);
      if replaced.None? {
        var n := objects.Len();
        while n >= options.maxEntries
          invariant objects.Valid() && n == |objects.Abs().entries|
          invariant PoppedBelow(objects.Abs(), options.maxEntries) == PoppedBelow(Removed(old(objects.Abs()), oid), options.maxEntries)
          decreases n
        {
          var popped := objects.PopLru();
          evictions := SaturatingAdd(evictions, 1);
          n := objects.Len();
        }
      }
      var evicted := objects.InsertCountingEvictions(oid, obj, bytes);
      evictions := SaturatingAdd(evictions, evicted);
    }
  }

  // ----- the cache invariants on recency sequences

  ghost predicate Within<T>(a: seq<T>, b: seq<T>) {
    forall x :: x in a ==> x in b
  }

  lemma DropAtWithin<T>(s: seq<T>, p: nat)
    requires p < |s|
    ensures Within(DropAt(s, p), s)
  {
  }

  lemma {:induction false} MadeRoomWithin<K, V>(r: Recency<K, V>, weight: u64)
    ensures
      var room := MadeRoom(r, weight).0;
      && Within(room.entries, r.entries) && |room.entries| <= |r.entries| && room.capacity == r.capacity
      && (UniqueKeys(r.entries) ==> UniqueKeys(room.entries))
      && (SaturatingAdd(room.used, weight) <= r.capacity || room.entries == [])
    decreases |r.entries|
  {
    if !(SaturatingAdd(r.used, weight) <= r.capacity || r.entries == []) {
      DropAtWithin(r.entries, 0);
      if UniqueKeys(r.entries) {
        DropAtKeepsKeys(r.entries, 0);
      }
      MadeRoomWithin(WithoutAt(r, 0), weight);
    }
  }

  lemma RemovedWithin<K, V>(r: Recency<K, V>, key: K)
    ensures Within(Removed(r, key).entries, r.entries) && Removed(r, key).capacity == r.capacity
    ensures |Removed(r, key).entries| <= |r.entries| && Removed(r, key).used <= r.used
    ensures Lookup(r, key).Some? ==> |Removed(r, key).entries| < |r.entries|
  {
  }

  lemma BoundedTouched(r: Recency<Oid, Obj>, o: CacheOptions, oid: Oid)
    requires Bounded(r, o)
    ensures Bounded(Touched(r, oid), o) && Within(Touched(r, oid).entries, r.entries)
  {
    var p := Position(r.entries, oid);
    if p < |r.entries| {
      DropAtKeepsKeys(r.entries, p);
    }
    if o.maxBytes < U64_MAX {
      StepAccounted(r, Op.Get(oid));
    }
  }

  lemma BoundedRemoved(r: Recency<Oid, Obj>, o: CacheOptions, oid: Oid)
    requires Bounded(r, o)
    ensures Bounded(Removed(r, oid), o)
  {
    RemovedWithin(r, oid);
    RemovedKey(r, oid);
    if o.maxBytes < U64_MAX {
      StepAccounted(r, Op.Remove(oid));
    }
  }

  lemma {:induction false} PoppedBelowBounded(r: Recency<Oid, Obj>, o: CacheOptions, limit: nat)
    requires Bounded(r, o) && limit > 0
    ensures
      var p := PoppedBelow(r, limit);
      Bounded(p, o) && |p.entries| < limit && Within(p.entries, r.entries)
    decreases |r.entries|
  {
    if |r.entries| >= limit {
      DropAtWithin(r.entries, 0);
      DropAtKeepsKeys(r.entries, 0);
      if o.maxBytes < U64_MAX {
        StepAccounted(r, Op.PopLru);
      }
      PoppedBelowBounded(Popped(r), o, limit);
    }
  }

  lemma InsertedBounded(r: Recency<Oid, Obj>, o: CacheOptions, oid: Oid, obj: Obj)
    requires Bounded(r, o) && |r.entries| < o.maxEntries && |obj.data| <= o.maxBytes
    requires forall i :: 0 <= i < |r.entries| ==> r.entries[i].key != oid
    ensures Bounded(Inserted(r, oid, obj, |obj.data|).0, o)
    ensures forall e :: e in Inserted(r, oid, obj, |obj.data|).0.entries ==>
      e in r.entries || e == Entry(oid, obj, |obj.data|)
  {
    assert Removed(r, oid) == r;
    MadeRoomWithin(r, |obj.data|);
    if o.maxBytes < U64_MAX {
      StepAccounted(r, Op.Insert(oid, obj, |obj.data|));
    } else {
      var room := MadeRoom(r, |obj.data|).0;
      forall i | 0 <= i < |room.entries| ensures room.entries[i].key != oid {
        assert room.entries[i] in r.entries;
      }
    }
  }

  /** Insertion keeps both bounds and adds at most the inserted entry. */
  lemma BoundedInserted(r: Recency<Oid, Obj>, o: CacheOptions, oid: Oid, obj: Obj)
    requires ValidOptions(o) && Bounded(r, o)
    ensures Bounded(CacheInserted(r, o, oid, obj), o)
    ensures forall e :: e in CacheInserted(r, o, oid, obj).entries ==> e in r.entries || e == Entry(oid, obj, |obj.data|)
  {
    if !Oversized(o, obj) {
      hide Inserted;
      var cleared := Removed(r, oid);
      BoundedRemoved(r, o, oid);
      RemovedWithin(r, oid);
      RemovedKey(r, oid);
      var room := if Lookup(r, oid).Some? then cleared else PoppedBelow(cleared, o.maxEntries);
      PoppedBelowBounded(cleared, o, o.maxEntries);
      forall i | 0 <= i < |room.entries| ensures room.entries[i].key != oid {
        assert room.entries[i] in cleared.entries;
      }
      InsertedBounded(room, o, oid, obj);
    }
  }

  predicate Oversized(o: CacheOptions, obj: Obj) {
    |obj.data| > o.maxObjectBytes || |obj.data| > o.maxBytes
  }

  lemma {:induction false} PoppedBelowSuffix<K, V>(r: Recency<K, V>, limit: nat)
    requires limit > 0
    ensures
      var p := PoppedBelow(r, limit);
      var n := |r.entries| - |p.entries|;
      0 <= n && p.entries == r.entries[n..] && p.capacity == r.capacity && |p.entries| == Min(|r.entries|, limit - 1)
    decreases |r.entries|
  {
    if |r.entries| >= limit {
      DropFirst(r.entries);
      PoppedBelowSuffix(Popped(r), limit);
    }
  }

  /** Whether the entries from the `n`-th on leave room for one more of this weight. */
  predicate LeavesRoom(entries: seq<Entry<Oid, Obj>>, n: nat, o: CacheOptions, weight: nat)
    requires n <= |entries|
  {
    |entries| - n < o.maxEntries && TotalWeight(entries[n..]) + weight <= o.maxBytes
  }

  /** An object over either size bound leaves the cache as it was. */
  lemma OversizedIsNotStored(r: Recency<Oid, Obj>, o: CacheOptions, oid: Oid, obj: Obj)
    requires ValidOptions(o) && (|obj.data| > o.maxObjectBytes || |obj.data| > o.maxBytes)
    ensures CacheInserted(r, o, oid, obj) == r
  {
  }

  /** Storing an object appends it behind what is left when oldest entries go until neither bound is in the way. */
  lemma StoredIs(r: Recency<Oid, Obj>, o: CacheOptions, oid: Oid, obj: Obj) returns (n: nat)
    requires ValidOptions(o) && Bounded(r, o) && |obj.data| <= o.maxObjectBytes && |obj.data| <= o.maxBytes
    ensures
      var others := Removed(r, oid).entries;
      && n <= |others| && CacheInserted(r, o, oid, obj).entries == others[n..] + [Entry(oid, obj, |obj.data|)]
      && (o.maxBytes < U64_MAX ==> LeavesRoom(others, n, o, |obj.data|) && forall m :: 0 <= m < n ==> !LeavesRoom(others, m, o, |obj.data|))
  {
    hide Inserted, MadeRoom, TotalWeight, PoppedBelow, Removed, UniqueKeys, LeavesRoom;
    var cleared, w := Removed(r, oid), |obj.data|;
    RemovedWithin(r, oid);
    RemovedKey(r, oid);
    BoundedRemoved(r, o, oid);
    PoppedBelowSuffix(cleared, o.maxEntries);
    PoppedBelowBounded(cleared, o, o.maxEntries);
    assert cleared.entries[0..] == cleared.entries;
    var room := if Lookup(r, oid).Some? then cleared else PoppedBelow(cleared, o.maxEntries);
    var k := |cleared.entries| - |room.entries|;
    MadeRoomSuffix(room, w);
    InsertedTail(room, oid, obj, w);
    var j := MadeRoom(room, w).1;
    n := k + j;
    assert room.entries[j..] == cleared.entries[n..];
    if o.maxBytes < U64_MAX {
      MadeRoomShortest(room, w);
      RoomIs(cleared.entries, room.entries, k, j, o, w);
    }
  }

  lemma InsertedTail(r: Recency<Oid, Obj>, oid: Oid, obj: Obj, weight: u64)
    requires forall i :: 0 <= i < |r.entries| ==> r.entries[i].key != oid
    requires 0 < r.capacity && weight <= r.capacity
    ensures Inserted(r, oid, obj, weight).0.entries == MadeRoom(r, weight).0.entries + [Entry(oid, obj, weight)]
  {
    hide MadeRoom;
    assert Removed(r, oid) == r;
  }

  /** Popping to the entry bound and then evicting to the byte bound is the shortest prefix for both. */
  lemma RoomIs(s: seq<Entry<Oid, Obj>>, room: seq<Entry<Oid, Obj>>, k: nat, j: nat, o: CacheOptions, weight: u64)
    requires k <= |s| && room == s[k..] && j <= |room|
    requires |room| < o.maxEntries && (k > 0 ==> |room| == o.maxEntries - 1)
    requires TotalWeight(room[j..]) + weight <= o.maxBytes
    requires forall m :: 0 <= m < j ==> TotalWeight(room[m..]) + weight > o.maxBytes
    ensures LeavesRoom(s, k + j, o, weight) && forall m :: 0 <= m < k + j ==> !LeavesRoom(s, m, o, weight)
  {
    hide TotalWeight;
    assert room[j..] == s[k + j..];
    forall m | 0 <= m < k + j ensures !LeavesRoom(s, m, o, weight) {
      if m >= k {
        assert room[m - k..] == s[m..];
      }
    }
  }

  // ----- least recently used objects

  function CacheStep(r: Recency<Oid, Obj>, o: CacheOptions, op: Op<Oid, Obj>): Recency<Oid, Obj>
    requires ValidOptions(o)
  {
    match op
    case Get(oid) => Touched(r, oid)
    case Insert(oid, obj, _) => CacheInserted(r, o, oid, obj)
    case _ => r
  }

  /** A lookup, or storing an object the cache takes. */
  predicate CacheUse(o: CacheOptions, op: Op<Oid, Obj>) {
    op.Get? || (op.Insert? && |op.value.data| <= o.maxObjectBytes && |op.value.data| <= o.maxBytes && op.weight == |op.value.data|)
  }

  function CacheRun(o: CacheOptions, ops: seq<Op<Oid, Obj>>): Recency<Oid, Obj>
    requires ValidOptions(o)
  {
    if ops == [] then Fresh(o.maxBytes) else CacheStep(CacheRun(o, ops[..|ops| - 1]), o, ops[|ops| - 1])
  }

  /** After any uses the cache holds objects as stored, within its bounds, in the order of their last use. */
  lemma {:induction false} CacheByLastUse(o: CacheOptions, ops: seq<Op<Oid, Obj>>)
    requires ValidOptions(o) && forall i :: 0 <= i < |ops| ==> CacheUse(o, ops[i])
    ensures Bounded(CacheRun(o, ops), o)
    ensures ByLastUse(CacheRun(o, ops).entries, ops) && AsInserted(CacheRun(o, ops).entries, ops)
  {
    hide ByLastUse, AsInserted, CacheStep, Bounded;
    if ops == [] {
      FreshBounded(o);
      NothingUsed<Oid, Obj>();
    } else {
      var n := |ops| - 1;
      CacheByLastUse(o, ops[..n]);
      CacheStepByLastUse(CacheRun(o, ops[..n]), o, ops[..n], ops[n]);
      assert ops[..n] + [ops[n]] == ops;
    }
  }

  lemma FreshBounded(o: CacheOptions)
    requires ValidOptions(o)
    ensures Bounded(Fresh(o.maxBytes), o)
  {
  }

  lemma CacheStepByLastUse(r: Recency<Oid, Obj>, o: CacheOptions, ops: seq<Op<Oid, Obj>>, op: Op<Oid, Obj>)
    requires ValidOptions(o) && Bounded(r, o) && CacheUse(o, op)
    requires ByLastUse(r.entries, ops) && AsInserted(r.entries, ops)
    ensures Bounded(CacheStep(r, o, op), o)
    ensures ByLastUse(CacheStep(r, o, op).entries, ops + [op]) && AsInserted(CacheStep(r, o, op).entries, ops + [op])
  {
    hide ByLastUse, AsInserted, CacheInserted, Bounded, LeavesRoom, Touched;
    match op
    case Get(oid) =>
      BoundedTouched(r, o, oid);
      StepByLastUse(r, ops, op);
    case Insert(oid, obj, w) =>
      BoundedInserted(r, o, oid, obj);
      var n := StoredIs(r, o, oid, obj);
      RestByLastUse(r, oid, n, ops, op);
      UsedLast(Removed(r, oid).entries[n..], Entry(oid, obj, w), ops, op);
  }

  lemma FaithfulInserted(r: Recency<Oid, Obj>, o: CacheOptions, oid: Oid, obj: Obj, below: seq<Layer>)
    requires ValidOptions(o) && Bounded(r, o) && Faithful(r, below) && FirstHolding(below, oid) == Some(obj)
    ensures Faithful(CacheInserted(r, o, oid, obj), below)
  {
    hide CacheInserted;
    BoundedInserted(r, o, oid, obj);
  }

  lemma FaithfulTouched(r: Recency<Oid, Obj>, o: CacheOptions, oid: Oid, below: seq<Layer>)
    requires Bounded(r, o) && Faithful(r, below)
    ensures Faithful(Touched(r, oid), below)
    ensures Lookup(r, oid).Some? ==> FirstHolding(below, oid) == Lookup(r, oid)
  {
    BoundedTouched(r, o, oid);
  }

  // ----- the layered store

  /** The batch read's moving state. */
  datatype Progress = Progress(unresolved: seq<Oid>, resolved: map<Oid, Option<Obj>>, resultBytes: u64)

  /** `p` has answered everything the first `i` layers can answer, and nothing wrongly. */
  ghost predicate Sound(layers: seq<Layer>, i: nat, wanted: seq<Oid>, p: Progress)
    requires i <= |layers|
  {
    && (forall oid :: oid in p.unresolved ==> FirstHolding(layers[..i], oid).None?)
    && (forall oid :: oid in p.resolved ==> FirstHolding(layers, oid) == p.resolved[oid])
    && (forall oid :: oid in wanted ==> oid in p.resolved || oid in p.unresolved)
  }

  /** `spent` resolved bytes so far, within `max`; what is unresolved accounts for the rest. */
  ghost predicate Counted(layers: seq<Layer>, wanted: seq<Oid>, p: Progress, spent: nat, max: Option<u64>) {
    && p.resultBytes == Min(spent, U64_MAX) && (max.Some? ==> p.resultBytes <= max.value)
    && spent + Total(layers, p.unresolved) == Total(layers, wanted)
  }

  lemma {:induction false} TotalConcat(layers: seq<Layer>, a: seq<Oid>, b: seq<Oid>)
    ensures Total(layers, a + b) == Total(layers, a) + Total(layers, b)
    decreases |b|
  {
    if b == [] {
      assert a + b == a;
    } else {
      var n := |b| - 1;
      TotalConcat(layers, a, b[..n]);
      assert (a + b)[..|a + b| - 1] == a + b[..n];
    }
  }

  lemma TotalCons(layers: seq<Layer>, oids: seq<Oid>, i: nat)
    requires i < |oids|
    ensures Total(layers, oids[i..]) == Size(FirstHolding(layers, oids[i])) + Total(layers, oids[i + 1..])
  {
    assert oids[i..] == [oids[i]] + oids[i + 1..];
    TotalConcat(layers, [oids[i]], oids[i + 1..]);
    assert [oids[i]][..0] == [];
  }

  lemma TotalSnoc(layers: seq<Layer>, oids: seq<Oid>, oid: Oid)
    ensures Total(layers, oids + [oid]) == Total(layers, oids) + Size(FirstHolding(layers, oid))
  {
    assert (oids + [oid])[..|oids|] == oids;
  }

  lemma {:induction false} TotalZero(layers: seq<Layer>, oids: seq<Oid>)
    requires forall oid :: oid in oids ==> FirstHolding(layers, oid).None?
    ensures Total(layers, oids) == 0
  {
    if oids != [] {
      TotalZero(layers, oids[..|oids| - 1]);
    }
  }

  /** The bytes layer `i` itself holds for unresolved IDs are part of what is left. */
  lemma {:induction false} HeldIsLeft(layers: seq<Layer>, i: nat, oids: seq<Oid>)
    requires i < |layers| && forall oid :: oid in oids ==> FirstHolding(layers[..i], oid).None?
    ensures HeldTotal(layers[i], oids) <= Total(layers, oids)
  {
    if oids != [] {
      HeldIsLeft(layers, i, oids[..|oids| - 1]);
      FirstHoldingNext(layers, i, oids[|oids| - 1]);
    }
  }

  class LayeredOdb {
    const hash: HashKind
    const layers: seq<Layer>
    /** The cache's position in front of a store, when there is one. */
    const cacheIndex: nat
    const cache: CacheLayer?

    ghost predicate Valid()
      reads this, cache, if cache == null then {} else {cache.objects}
    {
      cache != null ==> cacheIndex < |layers| && cache.Valid() && Faithful(cache.objects.Abs(), layers[cacheIndex..])
    }

    /** `LayeredOdb::new` after its argument checks. */
    constructor (hash: HashKind, layers: seq<Layer>, cached: Option<(nat, CacheOptions)>)
      requires cached.Some? ==> cached.value.0 < |layers| && ValidOptions(cached.value.1)
      ensures Valid() && this.hash == hash && this.layers == layers
      ensures cache != null ==> fresh(cache) && fresh(cache.objects)
    {
      this.hash, this.layers := hash, layers;
      if cached.Some? {
        cacheIndex := cached.value.0;
        var c := new CacheLayer(cached.value.1);
        cache := c;
      } else {
        cacheIndex, cache := 0, null;
      }
    }

    lemma CachePlace()
      requires Valid() && cache != null
      ensures cacheIndex < |layers|
    {
    }

    /** A cached answer is what the stores from the cache's position on would answer. */
    method CacheGet(oid: Oid) returns (cached: Option<Obj>)
      requires Valid() && cache != null
      modifies cache.objects
      ensures Valid() && (cached.Some? ==> cached == FirstHolding(layers[cacheIndex..], oid))
    {
      hide Rep, Contents, FirstHolding;
      FaithfulTouched(cache.objects.Abs(), cache.options, oid, layers[cacheIndex..]);
      cached := cache.Get(oid);
    }

    /** Serve what the cache holds, at the cache's own position. */
    method CachePass(ghost wanted: seq<Oid>, p: Progress, ghost spent: nat, max: Option<u64>)
      returns (r: Result<Progress, ReadError>, ghost spent': nat)
      requires Valid() && cache != null
      requires Sound(layers, cacheIndex, wanted, p) && Counted(layers, wanted, p, spent, max)
      modifies cache, cache.objects
      ensures Valid()
      ensures r.Ok? ==> Sound(layers, cacheIndex, wanted, r.value) && Counted(layers, wanted, r.value, spent', max)
      ensures r.Err? ==> r.error == ResultTooLarge && TooLarge(Total(layers, wanted), max)
    {
      hide Rep, Contents, FirstHolding, Sound, Counted, LayeredOdb.Valid, Total;
      CachePlace();
      var still: seq<Oid> := [];
      var resolved, bytes: u64 := p.resolved, p.resultBytes;
      spent' := spent;
      assert still + p.unresolved[0..] == p.unresolved;
      for j := 0 to |p.unresolved|
        invariant Valid()
        invariant Sound(layers, cacheIndex, wanted, Progress(still + p.unresolved[j..], resolved, bytes))
        invariant Counted(layers, wanted, Progress(still + p.unresolved[j..], resolved, bytes), spent', max)
      {
        var oid := p.unresolved[j];
        ghost var rest := p.unresolved[j + 1..];
        HeadAt(p.unresolved, j);
        AnswerStep(layers, cacheIndex, wanted, still, oid, rest, resolved, bytes, spent', max);
        var cached := CacheGet(oid);
        if cached.Some? {
          spent' := spent' + |cached.value.data|;
          bytes := SaturatingAdd(bytes, |cached.value.data|);
          if max.Some? && bytes > max.value {
            return Err(ResultTooLarge), spent';
          }
          resolved := resolved[oid := cached];
        } else {
          Shifts(still, oid, rest);
          still := still + [oid];
        }
      }
      assert still + p.unresolved[|p.unresolved|..] == still;
      return Ok(Progress(still, resolved, bytes)), spent';
    }

    /** Copy store `i`'s answer into a cache at or before its position. */
    method Remember(i: nat, oid: Oid, obj: Obj)
      requires Valid() && i < |layers| && FirstHolding(layers[..i], oid).None? && oid in layers[i] && layers[i][oid] == obj
      modifies cache, if cache == null then {} else {cache.objects}
      ensures Valid()
    {
      hide Rep, Contents, FirstHolding, CacheInserted;
      if cache != null && cacheIndex <= i {
        BelowHolds(layers, cacheIndex, i, oid);
        FaithfulInserted(cache.objects.Abs(), cache.options, oid, obj, layers[cacheIndex..]);
        cache.Insert(oid, obj);
      }
    }

    /** Ask store `i` for what is left, copying what it answers into a cache before it. */
    method LayerPass(i: nat, ghost wanted: seq<Oid>, p: Progress, ghost spent: nat, max: Option<u64>)
      returns (r: Result<Progress, ReadError>, ghost spent': nat)
      requires Valid() && i < |layers|
      requires Sound(layers, i, wanted, p) && Counted(layers, wanted, p, spent, max)
      modifies cache, if cache == null then {} else {cache.objects}
      ensures Valid()
      ensures r.Ok? ==> Sound(layers, i + 1, wanted, r.value) && Counted(layers, wanted, r.value, spent', max)
      ensures r.Err? ==> r.error == ResultTooLarge && TooLarge(Total(layers, wanted), max)
    {
      hide Rep, Contents, FirstHolding, HeldTotal, Sound, Counted, LayeredOdb.Valid, Total;
      LeftWithin(layers, i, wanted, p, spent, max);
      var remaining := if max.Some? then Some(max.value - p.resultBytes) else None;
      spent' := spent;
      var values := ReadLayer(layers[i], p.unresolved, remaining);
      if values.Err? { return Err(values.error), spent'; }
      var still: seq<Oid> := [];
      var resolved, bytes: u64 := p.resolved, p.resultBytes;
      assert still + p.unresolved[0..] == p.unresolved;
      for j := 0 to |p.unresolved|
        invariant Valid()
        invariant Sound(layers, i, wanted, Progress(still + p.unresolved[j..], resolved, bytes))
        invariant forall oid :: oid in still ==> FirstHolding(layers[..i + 1], oid).None?
        invariant Counted(layers, wanted, Progress(still + p.unresolved[j..], resolved, bytes), spent', max)
      {
        var oid, value := p.unresolved[j], values.value[j];
        ghost var rest := p.unresolved[j + 1..];
        HeadAt(p.unresolved, j);
        AnswerStep(layers, i, wanted, still, oid, rest, resolved, bytes, spent', max);
        FirstHoldingNext(layers, i, oid);
        if value.Some? {
          spent' := spent' + |value.value.data|;
          bytes := SaturatingAdd(bytes, |value.value.data|);
          if max.Some? && bytes > max.value {
            return Err(ResultTooLarge), spent';
          }
          Remember(i, oid, value.value);
          resolved := resolved[oid := value];
        } else {
          Shifts(still, oid, rest);
          still := still + [oid];
        }
      }
      assert still + p.unresolved[|p.unresolved|..] == still;
      SoundNext(layers, i, wanted, Progress(still, resolved, bytes));
      return Ok(Progress(still, resolved, bytes)), spent';
    }

    /**
     * `try_find_many_bounded`: every position gets the first holding layer's
     * answer, as if there were no cache, or the batch fails for its size.
     */
    method TryFindManyBounded(oids: seq<Oid>, max: Option<u64>) returns (r: Result<seq<Option<Obj>>, ReadError>)
      requires Valid()
      modifies cache, if cache == null then {} else {cache.objects}
      ensures Valid()
      ensures r == Err(InvalidOid) <==> exists oid :: oid in oids && oid.hash != hash
      ensures r == Err(ResultTooLarge) ==> TooLarge(Total(layers, Dedup(oids)), max)
      ensures r.Ok? && Attainable(max) ==> !TooLarge(Total(layers, Dedup(oids)), max)
      ensures r.Ok? ==> r.value == Answers(layers, oids)
    {
      hide Rep, Contents, Total, FirstHolding;
      for i := 0 to |oids|
        invariant forall j :: 0 <= j < i ==> oids[j].hash == hash
      {
        if oids[i].hash != hash { return Err(InvalidOid); }
      }
      var wanted := Unique(oids);
      var p := Progress(wanted, map[], 0);
      ghost var spent := 0;
      NothingYet(layers, wanted);
      var i := 0;
      while i < |layers|
        invariant 0 <= i <= |layers| && Valid()
        invariant Sound(layers, i, wanted, p) && Counted(layers, wanted, p, spent, max)
      {
        var step;
        if cache != null && cacheIndex == i {
          step, spent := CachePass(wanted, p, spent, max);
          if step.Err? { return Err(step.error); }
          p := step.value;
        }
        if p.unresolved == [] { break; }
        step, spent := LayerPass(i, wanted, p, spent, max);
        if step.Err? { return Err(step.error); }
        p := step.value;
        i := i + 1;
      }
      LeftAreMissing(layers, i, wanted, p);
      var resolved := p.resolved + map oid | oid in p.unresolved :: None;
      r := Ok(seq(|oids|, k requires 0 <= k < |oids| => if oids[k] in resolved then resolved[oids[k]] else None));
      forall k | 0 <= k < |oids| ensures r.value[k] == FirstHolding(layers, oids[k]) {
        assert oids[k] in wanted;
      }
    }
  }

  /** The first-appearance filter over a `seen` set. */
  method Unique(oids: seq<Oid>) returns (r: seq<Oid>)
    ensures r == Dedup(oids)
  {
    r := [];
    var seen: set<Oid> := {};
    assert oids[..0] == [];
    for i := 0 to |oids|
      invariant r == Dedup(oids[..i]) && forall x :: x in seen <==> x in r
    {
      assert oids[..i + 1][..i] == oids[..i];
      if oids[i] !in seen {
        seen := seen + {oids[i]};
        r := r + [oids[i]];
      }
    }
    assert oids[..|oids|] == oids;
  }

  lemma HeadAt(oids: seq<Oid>, j: nat)
    requires j < |oids|
    ensures oids[j..] == [oids[j]] + oids[j + 1..]
  {
  }

  lemma Shifts(still: seq<Oid>, oid: Oid, rest: seq<Oid>)
    ensures still + ([oid] + rest) == still + [oid] + rest
  {
  }

  lemma NothingYet(layers: seq<Layer>, wanted: seq<Oid>)
    ensures Sound(layers, 0, wanted, Progress(wanted, map[], 0))
  {
    assert layers[..0] == [];
  }

  /** When every layer was asked, or nothing is left, the unresolved IDs are held nowhere. */
  lemma LeftAreMissing(layers: seq<Layer>, i: nat, wanted: seq<Oid>, p: Progress)
    requires i <= |layers| && Sound(layers, i, wanted, p) && (i == |layers| || p.unresolved == [])
    ensures forall oid :: oid in p.unresolved ==> FirstHolding(layers, oid).None?
    ensures Total(layers, p.unresolved) == 0
  {
    if i == |layers| {
      assert layers[..i] == layers;
    }
    TotalZero(layers, p.unresolved);
  }

  lemma BelowHolds(layers: seq<Layer>, c: nat, i: nat, oid: Oid)
    requires c <= i < |layers| && FirstHolding(layers[..i], oid).None? && oid in layers[i]
    ensures FirstHolding(layers[c..], oid) == Some(layers[i][oid])
  {
    FirstHoldingNext(layers, i, oid);
    FirstHoldingSplit(layers, c, oid);
    FirstHoldingSplit(layers[..i], c, oid);
    assert layers[..i][..c] == layers[..c];
  }

  /** What answering one more ID does to the moving state. */
  lemma AnswerStep(layers: seq<Layer>, i: nat, wanted: seq<Oid>, still: seq<Oid>, oid: Oid, rest: seq<Oid>,
                   resolved: map<Oid, Option<Obj>>, bytes: u64, spent: nat, max: Option<u64>)
    requires i <= |layers|
    requires Sound(layers, i, wanted, Progress(still + ([oid] + rest), resolved, bytes))
    requires Counted(layers, wanted, Progress(still + ([oid] + rest), resolved, bytes), spent, max)
    ensures FirstHolding(layers[..i], oid).None?
    ensures FirstHolding(layers, oid) == FirstHolding(layers[i..], oid)
    ensures FirstHolding(layers, oid).Some? ==>
      var answer := FirstHolding(layers, oid);
      var bytes' := SaturatingAdd(bytes, |answer.value.data|);
      var next := Progress(still + rest, resolved[oid := answer], bytes');
      && Sound(layers, i, wanted, next)
      && (max.Some? && bytes' > max.value ==> TooLarge(Total(layers, wanted), max))
      && (!(max.Some? && bytes' > max.value) ==> Counted(layers, wanted, next, spent + |answer.value.data|, max))
  {
    hide FirstHolding, Total;
    var all := still + ([oid] + rest);
    assert all[|still|] == oid;
    TotalMoves(layers, still, oid, rest);
    FirstHoldingSplit(layers, i, oid);
    var answer := FirstHolding(layers, oid);
    var next := Progress(still + rest, resolved[oid := answer], SaturatingAdd(bytes, Size(answer)));
    forall x | x in next.unresolved ensures FirstHolding(layers[..i], x).None? {
      assert x in all;
    }
    forall x | x in wanted ensures x in next.resolved || x in next.unresolved {
      assert x in resolved || x in all;
    }
  }

  lemma LeftWithin(layers: seq<Layer>, i: nat, wanted: seq<Oid>, p: Progress, spent: nat, max: Option<u64>)
    requires i < |layers| && Sound(layers, i, wanted, p) && Counted(layers, wanted, p, spent, max)
    ensures max.Some? ==> p.resultBytes <= max.value
    ensures max.Some? && HeldTotal(layers[i], p.unresolved) > max.value - p.resultBytes ==> TooLarge(Total(layers, wanted), max)
  {
    HeldIsLeft(layers, i, p.unresolved);
  }

  lemma SoundNext(layers: seq<Layer>, i: nat, wanted: seq<Oid>, p: Progress)
    requires i < |layers| && Sound(layers, i, wanted, p)
    requires forall oid :: oid in p.unresolved ==> FirstHolding(layers[..i + 1], oid).None?
    ensures Sound(layers, i + 1, wanted, p)
  {
  }

  lemma TotalMoves(layers: seq<Layer>, still: seq<Oid>, oid: Oid, rest: seq<Oid>)
    ensures Total(layers, still + ([oid] + rest)) == Size(FirstHolding(layers, oid)) + Total(layers, still + rest)
  {
    TotalConcat(layers, still, [oid] + rest);
    TotalConcat(layers, still, rest);
    TotalCons(layers, [oid] + rest, 0);
    assert ([oid] + rest)[0..] == [oid] + rest && ([oid] + rest)[1..] == rest;
  }
}
