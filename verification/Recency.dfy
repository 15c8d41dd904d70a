/**
 * The recency sequence an LRU cache stands for, oldest entry first, with the
 * 64-bit weight counter the cache keeps beside it.
 */
module Recency {
  import opened Basics

  datatype Entry<K, V> = Entry(key: K, value: V, weight: u64)

  datatype Recency<K, V> = Recency(entries: seq<Entry<K, V>>, used: u64, capacity: u64)

  function Fresh<K, V>(capacity: u64): Recency<K, V> {
    Recency([], 0, capacity)
  }

  /** The position of `key`, or the length when it is absent. */
  function Position<K(==), V>(entries: seq<Entry<K, V>>, key: K): (p: nat)
    ensures p <= |entries|
    ensures p < |entries| ==> entries[p].key == key
    ensures forall i :: 0 <= i < p ==> entries[i].key != key
  {
    if entries == [] then 0
    else if entries[0].key == key then 0
    else
      var p := Position(entries[1..], key);
      assert forall i :: 0 < i <= p ==> entries[i] == entries[1..][i - 1];
      p + 1
  }

  function DropAt<T>(s: seq<T>, p: nat): seq<T>
    requires p < |s|
  {
    s[..p] + s[p + 1..]
  }

  function TotalWeight<K, V>(entries: seq<Entry<K, V>>): nat {
    if entries == [] then 0 else entries[0].weight + TotalWeight(entries[1..])
  }

  ghost predicate UniqueKeys<K, V>(entries: seq<Entry<K, V>>) {
    forall i, j :: 0 <= i < j < |entries| ==> entries[i].key != entries[j].key
  }

  // ----- the operations

  function Lookup<K(==), V>(r: Recency<K, V>, key: K): Option<V> {
    var p := Position(r.entries, key);
    if p < |r.entries| then Some(r.entries[p].value) else None
  }

  /** A hit moves its entry to the most recent end; a miss changes nothing. */
  function Touched<K(==), V>(r: Recency<K, V>, key: K): Recency<K, V> {
    var p := Position(r.entries, key);
    if p < |r.entries| then r.(entries := DropAt(r.entries, p) + [r.entries[p]]) else r
  }

  function WithoutAt<K, V>(r: Recency<K, V>, p: nat): Recency<K, V>
    requires p < |r.entries|
  {
    r.(entries := DropAt(r.entries, p), used := SaturatingSub(r.used, r.entries[p].weight))
  }

  function Removed<K(==), V>(r: Recency<K, V>, key: K): Recency<K, V> {
    var p := Position(r.entries, key);
    if p < |r.entries| then WithoutAt(r, p) else r
  }

  /** Evict from the old end until `weight` more fits; also counts the evictions. */
  function MadeRoom<K, V>(r: Recency<K, V>, weight: u64): (Recency<K, V>, nat)
    decreases |r.entries|
  {
    if SaturatingAdd(r.used, weight) <= r.capacity || r.entries == [] then (r, 0)
    else
      var (rest, n) := MadeRoom(WithoutAt(r, 0), weight);
      (rest, n + 1)
  }

  predicate Bypasses(capacity: u64, weight: u64) {
    capacity == 0 || weight > capacity
  }

  function Inserted<K(==), V>(r: Recency<K, V>, key: K, value: V, weight: u64): (Recency<K, V>, nat) {
    var cleared := Removed(r, key);
    if Bypasses(r.capacity, weight) then (cleared, 0)
    else
      var (room, n) := MadeRoom(cleared, weight);
      (room.(entries := room.entries + [Entry(key, value, weight)], used := SaturatingAdd(room.used, weight)), n)
  }

  function Popped<K, V>(r: Recency<K, V>): Recency<K, V> {
    if r.entries == [] then r else WithoutAt(r, 0)
  }

  function Cleared<K, V>(r: Recency<K, V>): Recency<K, V> {
    r.(entries := [], used := 0)
  }

  // ----- runs

  datatype Op<K, V> = Get(key: K) | Insert(key: K, value: V, weight: u64) | PopLru | Remove(key: K) | Clear

  function Step<K(==), V>(r: Recency<K, V>, op: Op<K, V>): Recency<K, V> {
    match op
    case Get(k) => Touched(r, k)
    case Insert(k, v, w) => Inserted(r, k, v, w).0
    case PopLru => Popped(r)
    case Remove(k) => Removed(r, k)
    case Clear => Cleared(r)
  }

  function Run<K(==), V>(r: Recency<K, V>, ops: seq<Op<K, V>>): Recency<K, V> {
    if ops == [] then r else Step(Run(r, ops[..|ops| - 1]), ops[|ops| - 1])
  }

  /** The counter is the true total, within capacity, over distinct keys. */
  ghost predicate Accounted<K, V>(r: Recency<K, V>) {
    UniqueKeys(r.entries) && r.used == TotalWeight(r.entries) <= r.capacity
  }

  // ----- weight arithmetic

  lemma {:induction false} TotalWeightConcat<K, V>(a: seq<Entry<K, V>>, b: seq<Entry<K, V>>)
    ensures TotalWeight(a + b) == TotalWeight(a) + TotalWeight(b)
  {
    if a == [] {
      assert a + b == b;
    } else {
      TotalWeightConcat(a[1..], b);
      assert (a + b)[1..] == a[1..] + b;
    }
  }

  lemma TotalWeightDrop<K, V>(s: seq<Entry<K, V>>, p: nat)
    requires p < |s|
    ensures TotalWeight(s) == TotalWeight(DropAt(s, p)) + s[p].weight
  {
    assert s == s[..p] + s[p..] && s[p..][1..] == s[p + 1..];
    TotalWeightConcat(s[..p], s[p..]);
    TotalWeightConcat(s[..p], s[p + 1..]);
  }

  lemma TotalWeightSnoc<K, V>(s: seq<Entry<K, V>>, e: Entry<K, V>)
    ensures TotalWeight(s + [e]) == TotalWeight(s) + e.weight
  {
    TotalWeightConcat(s, [e]);
    assert [e][1..] == [];
  }

  lemma DropAtKeepsKeys<K, V>(s: seq<Entry<K, V>>, p: nat)
    requires p < |s| && UniqueKeys(s)
    ensures UniqueKeys(DropAt(s, p))
    ensures forall i :: 0 <= i < |s| - 1 ==> DropAt(s, p)[i].key != s[p].key
  {
    var d := DropAt(s, p);
    assert forall i :: 0 <= i < |d| ==> d[i] == if i < p then s[i] else s[i + 1];
  }

  lemma WithoutAtAccounted<K, V>(r: Recency<K, V>, p: nat)
    requires p < |r.entries| && Accounted(r)
    ensures Accounted(WithoutAt(r, p))
  {
    TotalWeightDrop(r.entries, p);
    DropAtKeepsKeys(r.entries, p);
  }

  lemma EmptyWeight<K, V>(s: seq<Entry<K, V>>)
    ensures s == [] ==> TotalWeight(s) == 0
  {
  }

  lemma DropFirst<T>(s: seq<T>)
    requires s != []
    ensures DropAt(s, 0) == s[1..]
  {
  }

  /** Below the 64-bit ceiling, eviction removes the shortest old prefix that makes room. */
  lemma {:induction false} MadeRoomShortest<K, V>(r: Recency<K, V>, weight: u64)
    requires Accounted(r) && weight <= r.capacity < U64_MAX
    ensures
      var (room, n) := MadeRoom(r, weight);
      && n <= |r.entries| && room.entries == r.entries[n..] && room.capacity == r.capacity
      && Accounted(room) && room.used + weight <= r.capacity
      && forall m :: 0 <= m < n ==> TotalWeight(r.entries[m..]) + weight > r.capacity
    decreases |r.entries|
  {
    hide TotalWeight, UniqueKeys, DropAt;
    if SaturatingAdd(r.used, weight) <= r.capacity || r.entries == [] {
      EmptyWeight(r.entries);
      assert r.entries[0..] == r.entries;
    } else {
      WithoutAtAccounted(r, 0);
      var rest := WithoutAt(r, 0);
      DropFirst(r.entries);
      MadeRoomShortest(rest, weight);
      var n := MadeRoom(rest, weight).1;
      assert rest.entries[n..] == r.entries[n + 1..];
      forall m | 0 <= m < n + 1 ensures TotalWeight(r.entries[m..]) + weight > r.capacity {
        if m == 0 {
          assert r.entries[0..] == r.entries;
        } else {
          assert r.entries[m..] == rest.entries[m - 1..];
        }
      }
    }
  }

  lemma RemovedAccounted<K, V>(r: Recency<K, V>, key: K)
    requires Accounted(r)
    ensures Accounted(Removed(r, key))
  {
    var p := Position(r.entries, key);
    if p < |r.entries| {
      WithoutAtAccounted(r, p);
    }
  }

  lemma RemovedKey<K, V>(r: Recency<K, V>, key: K)
    requires UniqueKeys(r.entries)
    ensures UniqueKeys(Removed(r, key).entries)
    ensures forall i :: 0 <= i < |Removed(r, key).entries| ==> Removed(r, key).entries[i].key != key
  {
    var p := Position(r.entries, key);
    if p < |r.entries| {
      DropAtKeepsKeys(r.entries, p);
    }
  }

  /**
   * Insertion: the key's old entry goes, the shortest old prefix that leaves
   * room is evicted and counted, and the new entry becomes the most recent.
   */
  lemma InsertEvictsShortestPrefix<K, V>(r: Recency<K, V>, key: K, value: V, weight: u64)
    requires Accounted(r) && weight <= r.capacity < U64_MAX && 0 < r.capacity
    ensures
      var old_ := Removed(r, key).entries;
      var (after, n) := Inserted(r, key, value, weight);
      && n <= |old_| && after.entries == old_[n..] + [Entry(key, value, weight)]
      && TotalWeight(old_[n..]) + weight <= r.capacity
      && (forall m :: 0 <= m < n ==> TotalWeight(old_[m..]) + weight > r.capacity)
      && Accounted(after) && after.capacity == r.capacity
  {
    hide TotalWeight, MadeRoom;
    var cleared := Removed(r, key);
    RemovedAccounted(r, key);
    RemovedKey(r, key);
    MadeRoomShortest(cleared, weight);
    var room := MadeRoom(cleared, weight).0;
    TotalWeightSnoc(room.entries, Entry(key, value, weight));
  }

  lemma StepAccounted<K, V>(r: Recency<K, V>, op: Op<K, V>)
    requires Accounted(r) && r.capacity < U64_MAX
    ensures Accounted(Step(r, op)) && Step(r, op).capacity == r.capacity
  {
    hide TotalWeight, MadeRoom;
    match op {
      case Get(k) =>
        var p := Position(r.entries, k);
        if p < |r.entries| {
          var d := DropAt(r.entries, p);
          DropAtKeepsKeys(r.entries, p);
          TotalWeightDrop(r.entries, p);
          TotalWeightSnoc(d, r.entries[p]);
        }
      case Insert(k, v, w) =>
        if Bypasses(r.capacity, w) {
          RemovedAccounted(r, k);
        } else {
          InsertEvictsShortestPrefix(r, k, v, w);
        }
      case PopLru =>
        if r.entries != [] { WithoutAtAccounted(r, 0); }
      case Remove(k) =>
        RemovedAccounted(r, k);
      case Clear =>
        EmptyWeight(Step(r, op).entries);
    }
  }

  lemma {:induction false} RunAccounted<K, V>(r: Recency<K, V>, ops: seq<Op<K, V>>)
    requires Accounted(r) && r.capacity < U64_MAX
    ensures Accounted(Run(r, ops)) && Run(r, ops).capacity == r.capacity
    decreases |ops|
  {
    if ops != [] {
      RunAccounted(r, ops[..|ops| - 1]);
      StepAccounted(Run(r, ops[..|ops| - 1]), ops[|ops| - 1]);
    }
  }

  /** At capacity 2^64 - 1 the saturating sum hides an overflow. */
  lemma SaturationHidesOverflow<K, V>(a: K, b: K, v: V)
    requires a != b
    ensures !Accounted(Run(Fresh<K, V>(U64_MAX), [Insert(a, v, U64_MAX), Insert(b, v, 1)]))
  {
    var first, second := Insert(a, v, U64_MAX), Insert(b, v, 1);
    var ops := [first, second];
    var empty := Fresh<K, V>(U64_MAX);
    assert ops[..1] == [first] && [first][..0] == [];
    assert Run(empty, [first]) == Step(Run(empty, []), first);
    var one := Run(empty, [first]);
    assert one.entries == [Entry(a, v, U64_MAX)] && one.used == U64_MAX;
    assert Position(one.entries, b) == 1;
    assert MadeRoom(one, 1) == (one, 0);
    var two := Run(empty, ops);
    assert two.entries == [Entry(a, v, U64_MAX), Entry(b, v, 1)];
    assert two.entries[1..] == [Entry(b, v, 1)] && two.entries[1..][1..] == [];
    assert TotalWeight([Entry(b, v, 1)]) == 1;
    assert TotalWeight(two.entries) == U64_MAX + 1;
  }

  /** Every run keeps the counter exact and bounded exactly when the capacity is below 2^64 - 1. */
  lemma AccountedIffBelowCeiling<K(!new), V(!new)>(capacity: u64, a: K, b: K, v: V)
    requires a != b
    ensures (forall ops :: Accounted(Run(Fresh<K, V>(capacity), ops))) <==> capacity < U64_MAX
  {
    if capacity < U64_MAX {
      forall ops ensures Accounted(Run(Fresh<K, V>(capacity), ops)) {
        RunAccounted(Fresh<K, V>(capacity), ops);
      }
    } else {
      SaturationHidesOverflow<K, V>(a, b, v);
    }
  }

  // ----- least recently used

  predicate Uses<K(==), V>(op: Op<K, V>, key: K) {
    (op.Get? || op.Insert?) && op.key == key
  }

  /** The place of the last lookup or insertion of `key`, or -1 when there is none. */
  function LastUse<K(==), V>(ops: seq<Op<K, V>>, key: K): (i: int)
    ensures -1 <= i < |ops|
    ensures i >= 0 ==> Uses(ops[i], key)
    ensures forall j :: i < j < |ops| ==> !Uses(ops[j], key)
  {
    if ops == [] then -1
    else if Uses(ops[|ops| - 1], key) then |ops| - 1
    else LastUse(ops[..|ops| - 1], key)
  }

  /** Entries from the longest unused key to the most recently used one, and all of them used. */
  ghost predicate ByLastUse<K, V>(entries: seq<Entry<K, V>>, ops: seq<Op<K, V>>) {
    && (forall i :: 0 <= i < |entries| ==> LastUse(ops, entries[i].key) >= 0)
    && (forall i, j :: 0 <= i < j < |entries| ==> LastUse(ops, entries[i].key) < LastUse(ops, entries[j].key))
  }

  /** The last insertion of a key: its place, or -1 when it was removed or cleared since or never inserted. */
  function LastInsert<K(==), V>(ops: seq<Op<K, V>>, key: K): (i: int)
    ensures -1 <= i < |ops|
    ensures i >= 0 ==> ops[i].Insert? && ops[i].key == key
    ensures i >= 0 ==> forall j :: i < j < |ops| ==> !ops[j].Clear? && ((ops[j].Insert? || ops[j].Remove?) ==> ops[j].key != key)
  {
    if ops == [] then -1
    else
      var n := |ops| - 1;
      var last := ops[n];
      if last.Insert? && last.key == key then n
      else if last.Clear? || (last.Remove? && last.key == key) then -1
      else LastInsert(ops[..n], key)
  }

  /** Every entry is the one its key was last inserted with. */
  ghost predicate AsInserted<K, V>(entries: seq<Entry<K, V>>, ops: seq<Op<K, V>>) {
    forall i :: 0 <= i < |entries| ==>
      var at := LastInsert(ops, entries[i].key);
      at >= 0 && ops[at] == Insert(entries[i].key, entries[i].value, entries[i].weight)
  }

  lemma LastSnoc<K, V>(ops: seq<Op<K, V>>, op: Op<K, V>, key: K)
    ensures LastUse(ops + [op], key) == if Uses(op, key) then |ops| else LastUse(ops, key)
    ensures LastInsert(ops + [op], key) ==
      if op.Insert? && op.key == key then |ops|
      else if op.Clear? || (op.Remove? && op.key == key) then -1
      else LastInsert(ops, key)
  {
    assert (ops + [op])[..|ops|] == ops;
  }

  lemma {:induction false} MadeRoomSuffix<K, V>(r: Recency<K, V>, weight: u64)
    ensures MadeRoom(r, weight).1 <= |r.entries| && MadeRoom(r, weight).0.entries == r.entries[MadeRoom(r, weight).1..]
    ensures MadeRoom(r, weight).0.capacity == r.capacity
    decreases |r.entries|
  {
    if SaturatingAdd(r.used, weight) > r.capacity && r.entries != [] {
      DropFirst(r.entries);
      MadeRoomSuffix(WithoutAt(r, 0), weight);
    }
  }

  /** What a step keeps of the old entries, in their order: a choice of positions, none of the key used. */
  ghost predicate Kept<K, V>(old_: seq<Entry<K, V>>, kept: seq<Entry<K, V>>, at: seq<nat>) {
    && |at| == |kept|
    && (forall i :: 0 <= i < |at| ==> at[i] < |old_| && kept[i] == old_[at[i]])
    && (forall i, j :: 0 <= i < j < |at| ==> at[i] < at[j])
  }

  lemma KeptByLastUse<K, V>(old_: seq<Entry<K, V>>, kept: seq<Entry<K, V>>, at: seq<nat>, ops: seq<Op<K, V>>, op: Op<K, V>)
    requires ByLastUse(old_, ops) && AsInserted(old_, ops) && Kept(old_, kept, at)
    requires op.Get? || op.Insert? || op.Remove? ==> forall i :: 0 <= i < |kept| ==> kept[i].key != op.key
    requires op.Clear? ==> kept == []
    ensures ByLastUse(kept, ops + [op]) && AsInserted(kept, ops + [op])
  {
    hide LastUse, LastInsert;
    forall i | 0 <= i < |kept|
      ensures LastUse(ops + [op], kept[i].key) == LastUse(ops, kept[i].key)
      ensures LastInsert(ops + [op], kept[i].key) == LastInsert(ops, kept[i].key)
    {
      LastSnoc(ops, op, kept[i].key);
    }
  }

  lemma AllKept<K, V>(s: seq<Entry<K, V>>, n: nat) returns (at: seq<nat>)
    requires n <= |s|
    ensures Kept(s, s[n..], at)
  {
    at := seq(|s| - n, i requires 0 <= i < |s| - n => i + n);
  }

  /** All but one position, from the `n`-th of them on. */
  lemma DropKept<K, V>(s: seq<Entry<K, V>>, p: nat, n: nat) returns (at: seq<nat>)
    requires p < |s| && n < |s|
    ensures Kept(s, DropAt(s, p)[n..], at)
  {
    at := seq(|s| - 1 - n, i requires 0 <= i < |s| - 1 - n => if i + n < p then i + n else i + n + 1);
  }

  lemma LastUseDistinct<K, V>(entries: seq<Entry<K, V>>, ops: seq<Op<K, V>>)
    requires ByLastUse(entries, ops)
    ensures UniqueKeys(entries)
  {
    hide LastUse;
    forall i, j | 0 <= i < j < |entries| ensures entries[i].key != entries[j].key {
      assert LastUse(ops, entries[i].key) < LastUse(ops, entries[j].key);
    }
  }

  /** Without the key of the step, and without any number of the oldest entries. */
  lemma RestByLastUse<K, V>(r: Recency<K, V>, key: K, n: nat, ops: seq<Op<K, V>>, op: Op<K, V>)
    requires ByLastUse(r.entries, ops) && AsInserted(r.entries, ops) && n <= |Removed(r, key).entries|
    requires (op.Get? || op.Insert? || op.Remove?) && op.key == key
    ensures ByLastUse(Removed(r, key).entries[n..], ops + [op]) && AsInserted(Removed(r, key).entries[n..], ops + [op])
    ensures forall i :: 0 <= i < |Removed(r, key).entries[n..]| ==> Removed(r, key).entries[n..][i].key != key
  {
    hide ByLastUse, AsInserted, Kept;
    LastUseDistinct(r.entries, ops);
    RemovedKey(r, key);
    var p := Position(r.entries, key);
    var at: seq<nat>;
    if p < |r.entries| {
      at := DropKept(r.entries, p, n);
    } else {
      at := AllKept(r.entries, n);
    }
    KeptByLastUse(r.entries, Removed(r, key).entries[n..], at, ops, op);
  }

  /** The entry just used becomes the last. */
  lemma UsedLast<K, V>(rest: seq<Entry<K, V>>, e: Entry<K, V>, ops: seq<Op<K, V>>, op: Op<K, V>)
    requires ByLastUse(rest, ops + [op]) && AsInserted(rest, ops + [op]) && Uses(op, e.key)
    requires forall i :: 0 <= i < |rest| ==> rest[i].key != e.key
    requires if op.Get? then AsInserted([e], ops) else op == Insert(e.key, e.value, e.weight)
    ensures ByLastUse(rest + [e], ops + [op]) && AsInserted(rest + [e], ops + [op])
  {
    hide LastUse, LastInsert;
    LastSnoc(ops, op, e.key);
    assert op.Get? ==> [e][0] == e;
    forall i | 0 <= i < |rest| ensures LastUse(ops + [op], rest[i].key) < |ops| {
      LastSnoc(ops, op, rest[i].key);
    }
  }

  lemma StepByLastUse<K, V>(r: Recency<K, V>, ops: seq<Op<K, V>>, op: Op<K, V>)
    requires ByLastUse(r.entries, ops) && AsInserted(r.entries, ops)
    ensures ByLastUse(Step(r, op).entries, ops + [op]) && AsInserted(Step(r, op).entries, ops + [op])
  {
    hide LastUse, LastInsert, ByLastUse, MadeRoom;
    match op {
      case Get(k) =>
        RestByLastUse(r, k, 0, ops, op);
        var p := Position(r.entries, k);
        assert Removed(r, k).entries[0..] == Removed(r, k).entries;
        if p < |r.entries| {
          UsedLast(DropAt(r.entries, p), r.entries[p], ops, op);
        }
      case Insert(k, v, w) =>
        if Bypasses(r.capacity, w) {
          RestByLastUse(r, k, 0, ops, op);
          assert Removed(r, k).entries[0..] == Removed(r, k).entries;
        } else {
          var n := MadeRoom(Removed(r, k), w).1;
          MadeRoomSuffix(Removed(r, k), w);
          RestByLastUse(r, k, n, ops, op);
          UsedLast(Removed(r, k).entries[n..], Entry(k, v, w), ops, op);
        }
      case PopLru =>
        var n := if r.entries == [] then 0 else 1;
        var at := AllKept(r.entries, n);
        if n == 1 { DropFirst(r.entries); }
        assert Step(r, op).entries == r.entries[n..];
        KeptByLastUse(r.entries, r.entries[n..], at, ops, op);
      case Remove(k) =>
        RestByLastUse(r, k, 0, ops, op);
        assert Removed(r, k).entries[0..] == Removed(r, k).entries;
      case Clear =>
        KeptByLastUse(r.entries, [], [], ops, op);
    }
  }

  /**
   * Least recently used: after any run, at any capacity, entries stand in the
   * order of the last lookup or insertion of their keys, each as last inserted.
   */
  lemma {:induction false} RunByLastUse<K, V>(capacity: u64, ops: seq<Op<K, V>>)
    ensures ByLastUse(Run(Fresh<K, V>(capacity), ops).entries, ops)
    ensures AsInserted(Run(Fresh<K, V>(capacity), ops).entries, ops)
    decreases |ops|
  {
    hide ByLastUse, AsInserted, Step;
    if ops == [] {
      NothingUsed<K, V>();
    } else {
      var n := |ops| - 1;
      RunByLastUse(capacity, ops[..n]);
      StepByLastUse(Run(Fresh<K, V>(capacity), ops[..n]), ops[..n], ops[n]);
      assert ops[..n] + [ops[n]] == ops;
    }
  }

  lemma NothingUsed<K, V>()
    ensures ByLastUse<K, V>([], []) && AsInserted<K, V>([], [])
  {
  }

  ghost predicate Holds<K, V>(r: Recency<K, V>, key: K) {
    exists i :: 0 <= i < |r.entries| && r.entries[i].key == key
  }

  lemma HoldsIff<K, V>(r: Recency<K, V>, key: K)
    ensures Holds(r, key) <==> Position(r.entries, key) < |r.entries|
    ensures Holds(r, key) <==> Lookup(r, key).Some?
  {
    if Holds(r, key) {
      var i := HeldAt(r, key);
    }
  }

  /** Dropping one position of distinct keys loses exactly its key. */
  lemma DropHolds<K, V>(s: seq<Entry<K, V>>, p: nat, key: K)
    requires UniqueKeys(s) && p < |s|
    ensures (exists i :: 0 <= i < |s| - 1 && DropAt(s, p)[i].key == key) <==> (exists i :: 0 <= i < |s| && s[i].key == key) && key != s[p].key
  {
    DropAtKeepsKeys(s, p);
    var d := DropAt(s, p);
    assert forall i :: 0 <= i < |d| ==> d[i] == if i < p then s[i] else s[i + 1];
    if i :| 0 <= i < |s| && s[i].key == key && key != s[p].key {
      assert d[if i < p then i else i - 1].key == key;
    }
  }

  /** What a step other than an insertion loses: nothing by looking up, else the one key it is asked to drop. */
  lemma StepHolds<K, V>(r: Recency<K, V>, op: Op<K, V>, key: K)
    requires UniqueKeys(r.entries) && !op.Insert?
    ensures Holds(Step(r, op), key) <==>
      match op
      case Get(_) => Holds(r, key)
      case PopLru => Holds(r, key) && key != r.entries[0].key
      case Remove(k) => Holds(r, key) && key != k
      case _ => false
  {
    match op {
      case Get(k) =>
        var p := Position(r.entries, k);
        if p < |r.entries| {
          DropHolds(r.entries, p, key);
          var d, after := DropAt(r.entries, p), Touched(r, k);
          assert after.entries[|d|].key == k;
          assert forall i :: 0 <= i < |d| ==> after.entries[i] == d[i];
        }
      case PopLru =>
        if r.entries != [] { DropHolds(r.entries, 0, key); }
      case Remove(k) =>
        var p := Position(r.entries, k);
        if p < |r.entries| { DropHolds(r.entries, p, key); }
      case _ =>
    }
  }

  /** An entry that cannot fit, or any entry without capacity, only removes what its key held. */
  lemma BypassRemoves<K, V>(r: Recency<K, V>, key: K, value: V, weight: u64)
    requires r.capacity == 0 || weight > r.capacity
    ensures Inserted(r, key, value, weight) == (Removed(r, key), 0)
  {
  }

  /** An insertion evicts the keys unused for longest: whatever goes was used before whatever stays. */
  lemma EvictedUnusedLongest<K, V>(capacity: u64, ops: seq<Op<K, V>>, op: Op<K, V>, gone: K, stays: K)
    requires op.Insert? && gone != op.key && stays != op.key
    requires
      var before, after := Run(Fresh<K, V>(capacity), ops), Run(Fresh<K, V>(capacity), ops + [op]);
      Holds(before, gone) && !Holds(after, gone) && Holds(before, stays) && Holds(after, stays)
    ensures LastUse(ops, gone) < LastUse(ops, stays)
  {
    hide Run, LastUse, LastInsert, MadeRoom, AsInserted;
    var before := Run(Fresh<K, V>(capacity), ops);
    RunByLastUse(capacity, ops);
    LastUseDistinct(before.entries, ops);
    RunSnoc(Fresh<K, V>(capacity), ops, op);
    var i := HeldAt(before, gone);
    var j := HeldAt(before, stays);
    if j < i {
      InsertKeepsLater(before, op.key, op.value, op.weight, j, i);
    }
  }

  lemma RunSnoc<K, V>(r: Recency<K, V>, ops: seq<Op<K, V>>, op: Op<K, V>)
    ensures Run(r, ops + [op]) == Step(Run(r, ops), op)
  {
    assert (ops + [op])[..|ops|] == ops;
  }

  lemma HeldAt<K, V>(r: Recency<K, V>, key: K) returns (i: nat)
    requires Holds(r, key)
    ensures i < |r.entries| && r.entries[i].key == key
  {
    i :| 0 <= i < |r.entries| && r.entries[i].key == key;
  }

  /** Removing another key keeps two entries in their order. */
  lemma RemovedHolds<K, V>(r: Recency<K, V>, key: K, j: nat, i: nat) returns (j': nat, i': nat)
    requires j < i < |r.entries| && r.entries[j].key != key && r.entries[i].key != key
    ensures j' < i' < |Removed(r, key).entries|
    ensures Removed(r, key).entries[j'] == r.entries[j] && Removed(r, key).entries[i'] == r.entries[i]
  {
    var p := Position(r.entries, key);
    j', i' := if j < p then j else j - 1, if i < p then i else i - 1;
  }

  /** If an insertion keeps an entry, it keeps the ones behind it. */
  lemma InsertKeepsLater<K, V>(r: Recency<K, V>, key: K, value: V, weight: u64, j: nat, i: nat)
    requires UniqueKeys(r.entries) && j < i < |r.entries| && r.entries[j].key != key && r.entries[i].key != key
    requires Holds(Inserted(r, key, value, weight).0, r.entries[j].key)
    ensures Holds(Inserted(r, key, value, weight).0, r.entries[i].key)
  {
    hide MadeRoom, Removed;
    var cleared, after := Removed(r, key), Inserted(r, key, value, weight).0;
    RemovedKey(r, key);
    var j', i' := RemovedHolds(r, key, j, i);
    if Bypasses(r.capacity, weight) {
      assert after.entries[i'].key == r.entries[i].key;
    } else {
      MadeRoomSuffix(cleared, weight);
      var n := MadeRoom(cleared, weight).1;
      var k := HeldAt(after, r.entries[j].key);
      SuffixKeepsLater(cleared.entries, n, after.entries, k, j', i');
    }
  }

  lemma SuffixKeepsLater<K, V>(s: seq<Entry<K, V>>, n: nat, after: seq<Entry<K, V>>, k: nat, j: nat, i: nat)
    requires UniqueKeys(s) && n <= |s| && |after| == |s| - n + 1 && after[..|s| - n] == s[n..]
    requires j < i < |s| && k < |after| && after[k].key == s[j].key != after[|s| - n].key
    ensures n <= i && after[i - n] == s[i]
  {
    assert after[..|s| - n][k] == s[n + k];
    assert n + k == j;
    assert after[..|s| - n][i - n] == s[i];
  }

  /** Two slots: looking up the older key saves it, and the other one is evicted. */
  lemma LookupSavesEntry<K, V>(a: K, b: K, c: K, v: V)
    requires a != b && a != c && b != c
    ensures Run(Fresh<K, V>(2), [Insert(a, v, 1), Insert(b, v, 1), Get(a), Insert(c, v, 1)]).entries == [Entry(a, v, 1), Entry(c, v, 1)]
  {
    hide Run, Step;
    var ea, eb, ec := Entry(a, v, 1), Entry(b, v, 1), Entry(c, v, 1);
    InsertNew(Fresh<K, V>(2), ea);
    InsertNew(Recency([ea], 1, 2), eb);
    LookupOlder(ea, eb);
    InsertOver(eb, ea, ec);
    assert [] + [ea] == [ea] && [ea] + [eb] == [ea, eb];
    RunFour(Fresh<K, V>(2), Insert(a, v, 1), Insert(b, v, 1), Get(a), Insert(c, v, 1));
  }

  lemma InsertNew<K, V>(r: Recency<K, V>, e: Entry<K, V>)
    requires r.used + e.weight <= r.capacity && r.capacity > 0
    requires forall i :: 0 <= i < |r.entries| ==> r.entries[i].key != e.key
    ensures Step(r, Insert(e.key, e.value, e.weight)) == r.(entries := r.entries + [e], used := r.used + e.weight)
  {
    hide MadeRoom;
    assert Position(r.entries, e.key) == |r.entries|;
    RoomUnfolds(r, e.weight);
  }

  lemma LookupOlder<K, V>(a: Entry<K, V>, b: Entry<K, V>)
    ensures Step(Recency([a, b], 2, 2), Get(a.key)) == Recency([b, a], 2, 2)
  {
    assert Position([a, b], a.key) == 0;
  }

  lemma InsertOver<K, V>(a: Entry<K, V>, b: Entry<K, V>, c: Entry<K, V>)
    requires a.key != c.key && b.key != c.key && a.weight == b.weight == c.weight == 1
    ensures Step(Recency([a, b], 2, 2), Insert(c.key, c.value, 1)).entries == [b, c]
  {
    hide MadeRoom;
    var r := Recency([a, b], 2, 2);
    assert Position(r.entries, c.key) == 2;
    RoomUnfolds(r, 1);
    RoomUnfolds(WithoutAt(r, 0), 1);
  }

  lemma RoomUnfolds<K, V>(r: Recency<K, V>, weight: u64)
    ensures MadeRoom(r, weight) ==
      if SaturatingAdd(r.used, weight) <= r.capacity || r.entries == [] then (r, 0)
      else (MadeRoom(WithoutAt(r, 0), weight).0, MadeRoom(WithoutAt(r, 0), weight).1 + 1)
  {
  }

  lemma RunFour<K, V>(r: Recency<K, V>, a: Op<K, V>, b: Op<K, V>, c: Op<K, V>, d: Op<K, V>)
    ensures Run(r, [a, b, c, d]) == Step(Step(Step(Step(r, a), b), c), d)
  {
    hide Run, Step;
    RunSnoc(r, [], a);
    RunSnoc(r, [a], b);
    RunSnoc(r, [a, b], c);
    RunSnoc(r, [a, b, c], d);
    assert [] + [a] == [a] && [a] + [b] == [a, b] && [a, b] + [c] == [a, b, c] && [a, b, c] + [d] == [a, b, c, d];
    RunNone(r);
  }

  lemma RunNone<K, V>(r: Recency<K, V>)
    ensures Run(r, []) == r
  {
  }
}
