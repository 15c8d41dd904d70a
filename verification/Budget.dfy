/** Sequential use of one budget: suspensions and the graph seam (crates/gitility-core/src/budget.rs). */
module Budgets {
  import opened Basics
  import Charges

  type Oid = nat

  datatype Limits = Limits(maxObjects: u64, maxObjectBytes: u64, maxTotalObjectBytes: u64)

  datatype Counters = Counters(
    objects: u64,
    objectsRead: u64,
    objectBytes: u64,
    suspended: nat,
    duplicates: nat,
    graphReads: set<Oid>)

  /** What a query does with its budget; `Then` stops at the first failure. */
  datatype Work =
    | Done
    | Then(first: Work, second: Work)
    | Read(oid: Oid, bytes: u64)
    | Visit
    | ViaGraph(oid: Oid, read: Work)
    | Replay(body: Work)

  function Add(counter: u64, amount: u64): u64 {
    (counter + amount) % Charges.WRAP
  }

  /** The verdict of one `charge`, made without interference. */
  predicate Passes(counter: u64, amount: u64, ceiling: u64) {
    Charges.Passes(Charges.Charge(counter, amount, None), ceiling)
  }

  function Visited(c: Counters, l: Limits): (Counters, bool) {
    if c.suspended != 0 then (c, true) else (c.(objects := Add(c.objects, 1)), Passes(c.objects, 1, l.maxObjects))
  }

  function PayloadRead(c: Counters, l: Limits, bytes: u64): (Counters, bool) {
    if c.duplicates != 0 then (c, true)
    else
      (c.(objectsRead := Add(c.objectsRead, 1), objectBytes := Add(c.objectBytes, bytes)),
       Passes(c.objectBytes, bytes, l.maxTotalObjectBytes))
  }

  function ObjectCharged(c: Counters, l: Limits, bytes: u64): (Counters, bool) {
    if bytes > l.maxObjectBytes then (c, false)
    else
      var (visited, ok) := Visited(c, l);
      if ok then PayloadRead(visited, l, bytes) else (visited, false)
  }

  /** The counters after some work, and whether it succeeded. */
  function Exec(c: Counters, l: Limits, w: Work): (Counters, bool)
    decreases w
  {
    match w
    case Done => (c, true)
    case Then(first, second) =>
      var (c1, ok) := Exec(c, l, first);
      if ok then Exec(c1, l, second) else (c1, false)
    case Read(_, bytes) => ObjectCharged(c, l, bytes)
    case Visit => Visited(c, l)
    case ViaGraph(oid, read) =>
      var (c1, ok) := Exec(Entered(c, oid), l, read);
      (c1.(suspended := SaturatingSub(c1.suspended, 1), duplicates := SaturatingSub(c1.duplicates, if oid in c.graphReads then 1 else 0)), ok)
    case Replay(body) =>
      var (c1, ok) := Exec(c.(suspended := c.suspended + 1, duplicates := c.duplicates + 1), l, body);
      (c1.(suspended := SaturatingSub(c1.suspended, 1), duplicates := SaturatingSub(c1.duplicates, 1)), ok)
  }

  /** The counters inside `without_object_charge`. */
  function Entered(c: Counters, oid: Oid): Counters {
    c.(graphReads := c.graphReads + {oid}, suspended := c.suspended + 1, duplicates := c.duplicates + if oid in c.graphReads then 1 else 0)
  }

  /** The budget object. */
  class Budget {
    const limits: Limits
    var objects: u64
    var objectsRead: u64
    var objectBytes: u64
    var objectChargeSuspensions: nat
    var duplicateGraphReadSuspensions: nat
    var graphReads: set<Oid>

    function Abs(): Counters
      reads this
    {
      Counters(objects, objectsRead, objectBytes, objectChargeSuspensions, duplicateGraphReadSuspensions, graphReads)
    }

    constructor (limits: Limits)
      ensures this.limits == limits && Abs() == Counters(0, 0, 0, 0, 0, {})
    {
      this.limits := limits;
      objects, objectsRead, objectBytes := 0, 0, 0;
      objectChargeSuspensions, duplicateGraphReadSuspensions, graphReads := 0, 0, {};
    }

    /** `charge_object_visit` and `charge_header`. */
    method ChargeObjectVisit() returns (ok: bool)
      modifies this
      ensures (Abs(), ok) == Visited(old(Abs()), limits)
    {
      if objectChargeSuspensions != 0 { return true; }
      ok := Passes(objects, 1, limits.maxObjects);
      objects := Add(objects, 1);
    }

    /** `charge_object`. */
    method ChargeObject(bytes: u64) returns (ok: bool)
      modifies this
      ensures (Abs(), ok) == ObjectCharged(old(Abs()), limits, bytes)
    {
      if bytes > limits.maxObjectBytes { return false; }
      ok := ChargeObjectVisit();
      if ok && duplicateGraphReadSuspensions == 0 {
        objectsRead := Add(objectsRead, 1);
        ok := Passes(objectBytes, bytes, limits.maxTotalObjectBytes);
        objectBytes := Add(objectBytes, bytes);
      }
    }

    /** Work with the suspensions of `without_object_charge` and `without_object_recharge`: depths come back, failed or not. */
    method Perform(w: Work) returns (ok: bool)
      modifies this
      ensures (Abs(), ok) == Exec(old(Abs()), limits, w)
      ensures objectChargeSuspensions == old(objectChargeSuspensions)
      ensures duplicateGraphReadSuspensions == old(duplicateGraphReadSuspensions)
      decreases w, 1
    {
      hide Exec;
      DepthsRestored(Abs(), limits, w);
      ExecUnfolds(Abs(), limits, w);
      match w {
        case Done => ok := true;
        case Then(first, second) =>
          ok := Perform(first);
          if ok { ok := Perform(second); }
        case Read(_, bytes) => ok := ChargeObject(bytes);
        case Visit => ok := ChargeObjectVisit();
        case ViaGraph(oid, read) => ok := WithoutObjectCharge(oid, read);
        case Replay(body) => ok := WithoutObjectRecharge(body);
      }
    }

    method WithoutObjectCharge(oid: Oid, read: Work) returns (ok: bool)
      modifies this
      ensures (Abs(), ok) == Exec(old(Abs()), limits, ViaGraph(oid, read))
      decreases read, 2
    {
      hide Exec;
      ExecUnfolds(Abs(), limits, ViaGraph(oid, read));
      var duplicate := oid in graphReads;
      graphReads := graphReads + {oid};
      objectChargeSuspensions := objectChargeSuspensions + 1;
      if duplicate { duplicateGraphReadSuspensions := duplicateGraphReadSuspensions + 1; }
      assert Abs() == Entered(old(Abs()), oid);
      ok := Perform(read);
      objectChargeSuspensions := objectChargeSuspensions - 1;
      if duplicate { duplicateGraphReadSuspensions := duplicateGraphReadSuspensions - 1; }
    }

    method WithoutObjectRecharge(body: Work) returns (ok: bool)
      modifies this
      ensures (Abs(), ok) == Exec(old(Abs()), limits, Replay(body))
      decreases body, 2
    {
      hide Exec;
      ExecUnfolds(Abs(), limits, Replay(body));
      objectChargeSuspensions := objectChargeSuspensions + 1;
      duplicateGraphReadSuspensions := duplicateGraphReadSuspensions + 1;
      ok := Perform(body);
      objectChargeSuspensions := objectChargeSuspensions - 1;
      duplicateGraphReadSuspensions := duplicateGraphReadSuspensions - 1;
    }
  }

  lemma ExecUnfolds(c: Counters, l: Limits, w: Work)
    ensures Exec(c, l, w) ==
      match w
      case Done => (c, true)
      case Then(first, second) =>
        (var (c1, ok) := Exec(c, l, first);
         if ok then Exec(c1, l, second) else (c1, false))
      case Read(_, bytes) => ObjectCharged(c, l, bytes)
      case Visit => Visited(c, l)
      case ViaGraph(oid, read) =>
        (var (c1, ok) := Exec(Entered(c, oid), l, read);
         (c1.(suspended := SaturatingSub(c1.suspended, 1), duplicates := SaturatingSub(c1.duplicates, if oid in c.graphReads then 1 else 0)), ok))
      case Replay(body) =>
        (var (c1, ok) := Exec(c.(suspended := c.suspended + 1, duplicates := c.duplicates + 1), l, body);
         (c1.(suspended := SaturatingSub(c1.suspended, 1), duplicates := SaturatingSub(c1.duplicates, 1)), ok))
  {
  }

  // ----- what the suspensions guarantee

  lemma {:induction false} DepthsRestored(c: Counters, l: Limits, w: Work)
    ensures Exec(c, l, w).0.suspended == c.suspended && Exec(c, l, w).0.duplicates == c.duplicates
    ensures c.graphReads <= Exec(c, l, w).0.graphReads
    decreases w
  {
    match w
    case Then(first, second) =>
      DepthsRestored(c, l, first);
      DepthsRestored(Exec(c, l, first).0, l, second);
    case ViaGraph(oid, read) =>
      DepthsRestored(Entered(c, oid), l, read);
    case Replay(body) =>
      DepthsRestored(c.(suspended := c.suspended + 1, duplicates := c.duplicates + 1), l, body);
    case _ =>
  }

  /** Replayed work spends neither objects nor payload bytes. */
  lemma {:induction false} ReplayIsFree(c: Counters, l: Limits, w: Work)
    requires c.suspended > 0 && c.duplicates > 0
    ensures
      var c' := Exec(c, l, w).0;
      c'.objects == c.objects && c'.objectsRead == c.objectsRead && c'.objectBytes == c.objectBytes
    decreases w
  {
    match w
    case Then(first, second) =>
      ReplayIsFree(c, l, first);
      DepthsRestored(c, l, first);
      ReplayIsFree(Exec(c, l, first).0, l, second);
    case ViaGraph(oid, read) =>
      ReplayIsFree(Entered(c, oid), l, read);
    case Replay(body) =>
      ReplayIsFree(c.(suspended := c.suspended + 1, duplicates := c.duplicates + 1), l, body);
    case _ =>
  }

  type Sizes = Oid -> u64

  /** Payloads are read only through the graph seam, each with its object's size; a read may also find nothing. */
  predicate SeamOnly(w: Work, size: Sizes) {
    match w
    case Then(first, second) => SeamOnly(first, size) && SeamOnly(second, size)
    case Read(_, _) => false
    case ViaGraph(oid, read) => read.Done? || read == Read(oid, size(oid))
    case Replay(body) => SeamOnly(body, size)
    case _ => true
  }

  ghost function TotalSize(oids: set<Oid>, size: Sizes): nat {
    if oids == {} then 0 else var oid :| oid in oids; size(oid) + TotalSize(oids - {oid}, size)
  }

  lemma {:induction false} TotalSizeWithout(oids: set<Oid>, size: Sizes, oid: Oid)
    requires oid in oids
    ensures TotalSize(oids, size) == size(oid) + TotalSize(oids - {oid}, size)
    decreases |oids|
  {
    var other :| other in oids && TotalSize(oids, size) == size(other) + TotalSize(oids - {other}, size);
    if other != oid {
      TotalSizeWithout(oids - {other}, size, oid);
      TotalSizeWithout(oids - {oid}, size, other);
      assert oids - {other} - {oid} == oids - {oid} - {other};
    }
  }

  lemma TotalSizeAdd(oids: set<Oid>, size: Sizes, oid: Oid)
    ensures oid in oids ==> oids + {oid} == oids
    ensures oid !in oids ==> TotalSize(oids + {oid}, size) == size(oid) + TotalSize(oids, size) && |oids + {oid}| == |oids| + 1
  {
    hide TotalSize;
    if oid !in oids {
      var more := oids + {oid};
      assert more - {oid} == oids;
      TotalSizeWithout(more, size, oid);
    }
  }

  /** Bytes and reads spent beyond one charge per object in `graphReads`. */
  ghost function ExcessBytes(c: Counters, size: Sizes): int {
    c.objectBytes - TotalSize(c.graphReads, size)
  }

  ghost function ExcessReads(c: Counters): int {
    c.objectsRead - |c.graphReads|
  }

  lemma AddAtMost(counter: u64, amount: u64)
    ensures Add(counter, amount) <= counter + amount
    ensures counter + amount <= U64_MAX ==> Add(counter, amount) == counter + amount
  {
  }

  /** Reads through the graph seam charge each object's payload at most once, replayed, repeated, failing or not. */
  lemma {:induction false} ChargedAtMostOnce(c: Counters, l: Limits, w: Work, size: Sizes)
    requires SeamOnly(w, size)
    ensures ExcessBytes(Exec(c, l, w).0, size) <= ExcessBytes(c, size)
    ensures ExcessReads(Exec(c, l, w).0) <= ExcessReads(c)
    decreases w
  {
    match w
    case Then(first, second) =>
      ChargedAtMostOnce(c, l, first, size);
      ChargedAtMostOnce(Exec(c, l, first).0, l, second, size);
    case ViaGraph(oid, read) =>
      SeamRead(c, l, oid, read, size);
    case Replay(body) =>
      var inner := c.(suspended := c.suspended + 1, duplicates := c.duplicates + 1);
      ChargedAtMostOnce(inner, l, body, size);
    case _ =>
  }

  lemma SeamRead(c: Counters, l: Limits, oid: Oid, read: Work, size: Sizes)
    requires SeamOnly(ViaGraph(oid, read), size)
    ensures
      var c' := Exec(c, l, ViaGraph(oid, read)).0;
      && ExcessBytes(c', size) <= ExcessBytes(c, size) && ExcessReads(c') <= ExcessReads(c)
      && (read.Read? && c.duplicates == 0 && size(oid) <= l.maxObjectBytes && ExcessBytes(c, size) + TotalSize(c'.graphReads, size) <= U64_MAX ==>
            ExcessBytes(c', size) == ExcessBytes(c, size))
      && (read.Read? && c.duplicates == 0 && size(oid) <= l.maxObjectBytes && ExcessReads(c) + |c'.graphReads| <= U64_MAX ==>
            ExcessReads(c') == ExcessReads(c))
  {
    hide TotalSize;
    TotalSizeAdd(c.graphReads, size, oid);
    AddAtMost(c.objectBytes, size(oid));
    AddAtMost(c.objectsRead, 1);
    if read.Read? {
      assert Exec(Entered(c, oid), l, read) == ObjectCharged(Entered(c, oid), l, size(oid));
    } else {
      assert Exec(Entered(c, oid), l, read) == (Entered(c, oid), true);
    }
  }

  /** Every seam read finds an object within the size cap, and nothing is replayed. */
  predicate Plain(w: Work, size: Sizes, l: Limits) {
    match w
    case Then(first, second) => Plain(first, size, l) && Plain(second, size, l)
    case Visit => true
    case Done => true
    case ViaGraph(oid, read) => read == Read(oid, size(oid)) && size(oid) <= l.maxObjectBytes
    case _ => false
  }

  lemma {:induction false} SubsetSize(small: set<Oid>, large: set<Oid>, size: Sizes)
    requires small <= large
    ensures TotalSize(small, size) <= TotalSize(large, size)
    decreases |large|
  {
    if small != large {
      var oid :| oid in large && oid !in small;
      SubsetSize(small, large - {oid}, size);
      TotalSizeWithout(large, size, oid);
    }
  }

  lemma SubsetCount(small: set<Oid>, large: set<Oid>)
    requires small <= large
    ensures |small| <= |large|
  {
    assert large == small + (large - small);
  }

  /** Without replays, and before the counters wrap, each object is read and charged exactly once. */
  lemma {:induction false} ChargedExactlyOnce(c: Counters, l: Limits, w: Work, size: Sizes)
    requires Plain(w, size, l) && c.duplicates == 0
    requires ExcessBytes(c, size) + TotalSize(Exec(c, l, w).0.graphReads, size) <= U64_MAX
    requires ExcessReads(c) + |Exec(c, l, w).0.graphReads| <= U64_MAX
    ensures ExcessBytes(Exec(c, l, w).0, size) == ExcessBytes(c, size)
    ensures ExcessReads(Exec(c, l, w).0) == ExcessReads(c)
    decreases w
  {
    hide TotalSize;
    match w
    case Then(first, second) =>
      var c1 := Exec(c, l, first).0;
      DepthsRestored(c, l, first);
      DepthsRestored(c1, l, second);
      SubsetSize(c1.graphReads, Exec(c, l, w).0.graphReads, size);
      SubsetCount(c1.graphReads, Exec(c, l, w).0.graphReads);
      ChargedExactlyOnce(c, l, first, size);
      if Exec(c, l, first).1 {
        ChargedExactlyOnce(c1, l, second, size);
      }
    case ViaGraph(oid, read) =>
      SeamRead(c, l, oid, read, size);
    case _ =>
  }

  /** A job that starts fresh and reads only through the seam spends at most the size of what it visited. */
  lemma FreshJobSpends(l: Limits, w: Work, size: Sizes)
    requires SeamOnly(w, size)
    ensures
      var c := Exec(Counters(0, 0, 0, 0, 0, {}), l, w).0;
      c.objectBytes <= TotalSize(c.graphReads, size) && c.objectsRead <= |c.graphReads|
  {
    ChargedAtMostOnce(Counters(0, 0, 0, 0, 0, {}), l, w, size);
    assert TotalSize({}, size) == 0;
  }

  // ----- the ceilings

  /** A counter under a ceiling below the largest one still has room for `amount` more. */
  predicate Fits(counter: nat, amount: nat, ceiling: u64) {
    ceiling == U64_MAX || counter + amount <= ceiling
  }

  lemma PassesIff(counter: u64, amount: u64, ceiling: u64)
    ensures Passes(counter, amount, ceiling) <==> Fits(counter, amount, ceiling)
    ensures Passes(counter, amount, ceiling) ==> Add(counter, amount) <= ceiling
    ensures Passes(counter, amount, ceiling) && ceiling < U64_MAX ==> Add(counter, amount) == counter + amount
  {
  }

  predicate WithinCeilings(c: Counters, l: Limits) {
    c.objects <= l.maxObjects && c.objectBytes <= l.maxTotalObjectBytes
  }

  /** No read of an object larger than the cap, suspended or not. */
  predicate ReadsWithin(w: Work, cap: u64) {
    match w
    case Then(first, second) => ReadsWithin(first, cap) && ReadsWithin(second, cap)
    case Read(_, bytes) => bytes <= cap
    case ViaGraph(_, read) => ReadsWithin(read, cap)
    case Replay(body) => ReadsWithin(body, cap)
    case _ => true
  }

  /** Work that succeeds leaves both counters within their ceilings and has read no object above the size cap. */
  lemma {:induction false} SuccessWithinCeilings(c: Counters, l: Limits, w: Work)
    requires WithinCeilings(c, l) && Exec(c, l, w).1
    ensures WithinCeilings(Exec(c, l, w).0, l) && ReadsWithin(w, l.maxObjectBytes)
    decreases w
  {
    hide Passes, Add;
    match w
    case Then(first, second) =>
      SuccessWithinCeilings(c, l, first);
      SuccessWithinCeilings(Exec(c, l, first).0, l, second);
    case Read(_, bytes) =>
      PassesIff(c.objects, 1, l.maxObjects);
      PassesIff(c.objectBytes, bytes, l.maxTotalObjectBytes);
    case Visit =>
      PassesIff(c.objects, 1, l.maxObjects);
    case ViaGraph(oid, read) =>
      SuccessWithinCeilings(Entered(c, oid), l, read);
    case Replay(body) =>
      SuccessWithinCeilings(c.(suspended := c.suspended + 1, duplicates := c.duplicates + 1), l, body);
    case Done =>
  }

  /** Visits, plain reads and seam reads that find their object, in any order, without replays. */
  predicate Direct(w: Work, size: Sizes) {
    match w
    case Then(first, second) => Direct(first, size) && Direct(second, size)
    case ViaGraph(oid, read) => read == Read(oid, size(oid))
    case Replay(_) => false
    case _ => true
  }

  /** Header visits and plain reads; a seam read is no visit. */
  function Visits(w: Work): nat {
    match w
    case Then(first, second) => Visits(first) + Visits(second)
    case Visit => 1
    case Read(_, _) => 1
    case _ => 0
  }

  function PlainBytes(w: Work): nat {
    match w
    case Then(first, second) => PlainBytes(first) + PlainBytes(second)
    case Read(_, bytes) => bytes
    case _ => 0
  }

  function SeamOids(w: Work): set<Oid> {
    match w
    case Then(first, second) => SeamOids(first) + SeamOids(second)
    case ViaGraph(oid, _) => {oid}
    case _ => {}
  }

  lemma {:induction false} TotalSizeUnion(a: set<Oid>, b: set<Oid>, size: Sizes)
    requires a !! b
    ensures TotalSize(a + b, size) == TotalSize(a, size) + TotalSize(b, size)
    decreases |a|
  {
    hide TotalSize;
    NoSize(size);
    if a == {} {
      assert a + b == b;
    } else {
      var oid :| oid in a;
      TotalSizeUnion(a - {oid}, b, size);
      TotalSizeWithout(a, size, oid);
      TotalSizeWithout(a + b, size, oid);
      assert a + b - {oid} == a - {oid} + b;
    }
  }

  lemma NoSize(size: Sizes)
    ensures TotalSize({}, size) == 0
  {
  }

  /** Every plain read, and every object not read through the seam before, once. */
  ghost function NewBytes(w: Work, known: set<Oid>, size: Sizes): nat {
    PlainBytes(w) + TotalSize(SeamOids(w) - known, size)
  }

  lemma NewBytesThen(first: Work, second: Work, known: set<Oid>, size: Sizes)
    ensures NewBytes(Then(first, second), known, size)
      == NewBytes(first, known, size) + NewBytes(second, known + SeamOids(first), size)
  {
    hide TotalSize;
    var a, b := SeamOids(first) - known, SeamOids(second) - (known + SeamOids(first));
    TotalSizeUnion(a, b, size);
    assert SeamOids(Then(first, second)) - known == a + b;
  }

  /** What direct work adds to the counters when it succeeds. */
  ghost predicate Spends(c: Counters, l: Limits, w: Work, size: Sizes, c': Counters) {
    && c'.suspended == c.suspended && c'.duplicates == c.duplicates && c'.graphReads == c.graphReads + SeamOids(w)
    && (l.maxObjects < U64_MAX ==> c'.objects == c.objects + Visits(w))
    && (l.maxTotalObjectBytes < U64_MAX ==> c'.objectBytes == c.objectBytes + NewBytes(w, c.graphReads, size))
  }

  ghost predicate Affordable(c: Counters, l: Limits, w: Work, size: Sizes) {
    && ReadsWithin(w, l.maxObjectBytes)
    && Fits(c.objects, Visits(w), l.maxObjects)
    && Fits(c.objectBytes, NewBytes(w, c.graphReads, size), l.maxTotalObjectBytes)
  }

  /** A seam read outside every suspension, step by step. */
  lemma SeamReadIs(c: Counters, l: Limits, oid: Oid, bytes: u64)
    requires c.suspended == 0 && c.duplicates == 0
    ensures
      var (c', ok) := Exec(c, l, ViaGraph(oid, Read(oid, bytes)));
      var known := c.(graphReads := c.graphReads + {oid});
      if bytes > l.maxObjectBytes then (c', ok) == (known, false)
      else if oid in c.graphReads then (c', ok) == (known, true)
      else
        && ok == Passes(c.objectBytes, bytes, l.maxTotalObjectBytes)
        && c' == known.(objectsRead := Add(c.objectsRead, 1), objectBytes := Add(c.objectBytes, bytes))
  {
    hide Passes, Add;
    var read := Read(oid, bytes);
    assert Exec(Entered(c, oid), l, read) == ObjectCharged(Entered(c, oid), l, bytes);
  }

  lemma SeamReadIff(c: Counters, l: Limits, oid: Oid, size: Sizes)
    requires c.suspended == 0 && c.duplicates == 0 && WithinCeilings(c, l)
    ensures
      var w := ViaGraph(oid, Read(oid, size(oid)));
      Exec(c, l, w).1 <==> Affordable(c, l, w, size)
    ensures
      var w := ViaGraph(oid, Read(oid, size(oid)));
      Exec(c, l, w).1 ==> Spends(c, l, w, size, Exec(c, l, w).0)
  {
    hide TotalSize, Passes, Add, Exec;
    var read := Read(oid, size(oid));
    var w := ViaGraph(oid, read);
    assert ReadsWithin(w, l.maxObjectBytes) <==> ReadsWithin(read, l.maxObjectBytes);
    SeamReadIs(c, l, oid, size(oid));
    PassesIff(c.objectBytes, size(oid), l.maxTotalObjectBytes);
    NoSize(size);
    TotalSizeAdd({}, size, oid);
    assert {} + {oid} == {oid};
    assert SeamOids(w) - c.graphReads == if oid in c.graphReads then {} else {oid};
  }

  /** Direct work succeeds if and only if every object is within the cap and its visits and bytes fit their ceilings. */
  lemma {:induction false} DirectWorkIff(c: Counters, l: Limits, w: Work, size: Sizes)
    requires Direct(w, size) && c.suspended == 0 && c.duplicates == 0 && WithinCeilings(c, l)
    ensures Exec(c, l, w).1 <==> Affordable(c, l, w, size)
    ensures Exec(c, l, w).1 ==> Spends(c, l, w, size, Exec(c, l, w).0)
    decreases w
  {
    hide TotalSize, Passes, Add;
    match w
    case Then(first, second) =>
      DirectWorkIff(c, l, first, size);
      NewBytesThen(first, second, c.graphReads, size);
      if Exec(c, l, first).1 {
        SuccessWithinCeilings(c, l, first);
        DirectWorkIff(Exec(c, l, first).0, l, second, size);
      }
    case ViaGraph(oid, read) =>
      SeamReadIff(c, l, oid, size);
    case Read(_, bytes) =>
      PassesIff(c.objects, 1, l.maxObjects);
      PassesIff(c.objectBytes, bytes, l.maxTotalObjectBytes);
      NoSeamBytes(w, c.graphReads, size);
    case Visit =>
      PassesIff(c.objects, 1, l.maxObjects);
      NoSeamBytes(w, c.graphReads, size);
    case Done =>
      NoSeamBytes(w, c.graphReads, size);
  }

  lemma NoSeamBytes(w: Work, known: set<Oid>, size: Sizes)
    requires SeamOids(w) == {}
    ensures NewBytes(w, known, size) == PlainBytes(w)
  {
    NoSize(size);
    assert SeamOids(w) - known == {};
  }

  /**
   * A fresh job without replays, under ceilings below the largest one, succeeds
   * exactly when no object is over the cap, visits and plain reads fit
   * `max_objects`, and the plain reads and the distinct objects read through
   * the seam fit `max_total_object_bytes`.
   */
  lemma FreshJobIff(l: Limits, w: Work, size: Sizes)
    requires Direct(w, size) && l.maxObjects < U64_MAX && l.maxTotalObjectBytes < U64_MAX
    ensures Exec(Counters(0, 0, 0, 0, 0, {}), l, w).1 <==>
      && ReadsWithin(w, l.maxObjectBytes)
      && Visits(w) <= l.maxObjects
      && PlainBytes(w) + TotalSize(SeamOids(w), size) <= l.maxTotalObjectBytes
  {
    hide TotalSize;
    DirectWorkIff(Counters(0, 0, 0, 0, 0, {}), l, w, size);
    assert SeamOids(w) - {} == SeamOids(w);
  }

  /** `n` visits in a row. */
  function Repeated(n: nat): Work {
    if n == 0 then Done else Then(Visit, Repeated(n - 1))
  }

  /** A fresh job is granted `n` visits exactly up to `max_objects`; the largest ceiling refuses none. */
  lemma {:induction false} VisitsIff(l: Limits, n: nat)
    ensures Exec(Counters(0, 0, 0, 0, 0, {}), l, Repeated(n)).1 <==> n <= l.maxObjects || l.maxObjects == U64_MAX
  {
    hide Exec, TotalSize, Repeated, Direct;
    var c: Counters := Counters(0, 0, 0, 0, 0, {});
    var size: Sizes := _ => 0;
    RepeatedVisits(n, size, l);
    DirectWorkIff(c, l, Repeated(n), size);
    NoSize(size);
    assert SeamOids(Repeated(n)) - c.graphReads == {};
  }

  lemma {:induction false} RepeatedVisits(n: nat, size: Sizes, l: Limits)
    ensures Direct(Repeated(n), size) && Visits(Repeated(n)) == n && SeamOids(Repeated(n)) == {} && PlainBytes(Repeated(n)) == 0
    ensures ReadsWithin(Repeated(n), l.maxObjectBytes)
  {
    if n > 0 {
      RepeatedVisits(n - 1, size, l);
    }
  }
}
