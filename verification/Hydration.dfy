/** Crash-safe pack hydration (crates/gitility-core/src/packfetch.rs). */
module Hydration {
  import opened Basics

  type Bytes = seq<byte>
  type Id = seq<byte>
  type Key = seq<byte>

  // ----- the destination directory

  datatype Artifact = Pack | Index

  /** The files of one pack ID. */
  datatype Files = Files(pack: Option<Bytes>, index: Option<Bytes>)

  const ABSENT: Files := Files(None, None)

  type Dir = map<Id, Files>

  function At(dir: Dir, id: Id): Files {
    if id in dir then dir[id] else ABSENT
  }

  predicate Complete(f: Files) {
    f.pack.Some? && f.index.Some?
  }

  /** The visible file steps: unlinking a file, and renaming a finished temporary file into place. */
  datatype FileOp = Remove(id: Id, artifact: Artifact) | Publish(id: Id, artifact: Artifact, bytes: Bytes)

  function Put(f: Files, artifact: Artifact, content: Option<Bytes>): Files {
    if artifact.Pack? then f.(pack := content) else f.(index := content)
  }

  function Applied(dir: Dir, op: FileOp): Dir {
    dir[op.id := Put(At(dir, op.id), op.artifact, if op.Remove? then None else Some(op.bytes))]
  }

  function AppliedAll(dir: Dir, ops: seq<FileOp>): Dir {
    if ops == [] then dir else Applied(AppliedAll(dir, ops[..|ops| - 1]), ops[|ops| - 1])
  }

  // ----- verification

  /** A content hash with its digest length. */
  datatype Hasher = Hasher(hash: Bytes -> Bytes, digestLen: nat) {
    ghost predicate CollisionFree() {
      forall a, b :: hash(a) == hash(b) ==> a == b
    }
  }

  /** `verify_pair_bytes`. */
  predicate PairOk(h: Hasher, id: Id, pack: Bytes, index: Bytes) {
    var d := h.digestLen;
    && |pack| >= d && |index| >= d * 2
    && h.hash(pack[..|pack| - d]) == pack[|pack| - d..] == id
    && index[|index| - d * 2..|index| - d] == id
    && h.hash(index[..|index| - d]) == index[|index| - d..]
  }

  predicate FilesOk(h: Hasher, id: Id, f: Files) {
    Complete(f) && PairOk(h, id, f.pack.value, f.index.value)
  }

  /** A verified pack is the only one with its ID. */
  lemma VerifiedPackUnique(h: Hasher, id: Id, pack: Bytes, index: Bytes, pack': Bytes, index': Bytes)
    requires h.CollisionFree() && PairOk(h, id, pack, index) && PairOk(h, id, pack', index')
    ensures pack == pack'
  {
    var d := h.digestLen;
    assert pack == pack[..|pack| - d] + id;
    assert pack' == pack'[..|pack'| - d] + id;
  }

  /** The pack checksum an index stores. */
  function StoredPackChecksum(h: Hasher, index: Bytes): Bytes
    requires |index| >= h.digestLen * 2
  {
    index[|index| - h.digestLen * 2..|index| - h.digestLen]
  }

  /** The index names the pack beside it: the checksum it stores is the hash of the pack's body, which is the pack ID. */
  predicate IndexNamesPack(h: Hasher, id: Id, f: Files) {
    && f.pack.Some? && |f.pack.value| >= h.digestLen
    && f.index.Some? && |f.index.value| >= h.digestLen * 2
    && StoredPackChecksum(h, f.index.value) == h.hash(f.pack.value[..|f.pack.value| - h.digestLen]) == id
  }

  lemma VerifiedNames(h: Hasher, id: Id, f: Files)
    requires FilesOk(h, id, f)
    ensures IndexNamesPack(h, id, f)
  {
  }

  /** One index verifies for one pack ID, so a pack never verifies with the index of another. */
  lemma IndexHasOnePack(h: Hasher, id: Id, pack: Bytes, id': Id, pack': Bytes, index: Bytes)
    requires PairOk(h, id, pack, index) && PairOk(h, id', pack', index)
    ensures id == id' && (h.CollisionFree() ==> pack == pack')
  {
    if h.CollisionFree() {
      VerifiedPackUnique(h, id, pack, index, pack', index);
    }
  }

  /** A pack as it is written: its body and the hash of it. */
  function PackOf(h: Hasher, body: Bytes): Bytes {
    body + h.hash(body)
  }

  /** An index as it is written: its table, the checksum of its pack, and the hash of both. */
  function IndexOf(h: Hasher, table: Bytes, packChecksum: Bytes): Bytes {
    table + packChecksum + h.hash(table + packChecksum)
  }

  /** Verification accepts exactly a written pack with its own checksum as ID beside a written index of that checksum. */
  lemma VerifiedIff(h: Hasher, id: Id, pack: Bytes, index: Bytes)
    requires forall bytes :: |h.hash(bytes)| == h.digestLen
    ensures PairOk(h, id, pack, index) <==>
      exists body, table :: pack == PackOf(h, body) && id == h.hash(body) && index == IndexOf(h, table, id)
  {
    var d := h.digestLen;
    if PairOk(h, id, pack, index) {
      var body, table := pack[..|pack| - d], index[..|index| - d * 2];
      assert index[..|index| - d] == table + id;
      assert pack == PackOf(h, body) && index == IndexOf(h, table, id);
    }
    if body, table :| pack == PackOf(h, body) && id == h.hash(body) && index == IndexOf(h, table, id) {
      WrittenVerifies(h, body, table);
    }
  }

  lemma WrittenVerifies(h: Hasher, body: Bytes, table: Bytes)
    requires forall bytes :: |h.hash(bytes)| == h.digestLen
    ensures PairOk(h, h.hash(body), PackOf(h, body), IndexOf(h, table, h.hash(body)))
  {
    var d, id := h.digestLen, h.hash(body);
    var pack, index := PackOf(h, body), IndexOf(h, table, id);
    assert |id| == d && |h.hash(table + id)| == d;
    assert pack[..|pack| - d] == body && pack[|pack| - d..] == id;
    assert index[..|index| - d] == table + id && index[|index| - d..] == h.hash(table + id);
    assert index[|index| - d * 2..|index| - d] == id;
  }

  /** No change of one byte, in either file of a verified pair, verifies. */
  lemma DamagedPairFails(h: Hasher, id: Id, pack: Bytes, index: Bytes, i: nat, b: byte)
    requires h.CollisionFree() && PairOk(h, id, pack, index)
    ensures i < |pack| && b != pack[i] ==> !PairOk(h, id, pack[i := b], index)
    ensures i < |index| && b != index[i] ==> !PairOk(h, id, pack, index[i := b])
  {
    hide PairOk;
    if i < |pack| && b != pack[i] && PairOk(h, id, pack[i := b], index) {
      VerifiedPackUnique(h, id, pack, index, pack[i := b], index);
    }
    if i < |index| && b != index[i] && PairOk(h, id, pack, index[i := b]) {
      Checksummed(h, id, pack, index);
      Checksummed(h, id, pack, index[i := b]);
      DamagedTail(h, index, |index| - h.digestLen, i, b);
    }
  }

  lemma Checksummed(h: Hasher, id: Id, pack: Bytes, index: Bytes)
    requires PairOk(h, id, pack, index)
    ensures |index| >= h.digestLen && h.hash(index[..|index| - h.digestLen]) == index[|index| - h.digestLen..]
  {
  }

  /** Bytes that end in the hash of what is before it do so no longer after a change of one byte. */
  lemma DamagedTail(h: Hasher, bytes: Bytes, n: nat, i: nat, b: byte)
    requires h.CollisionFree() && n <= |bytes| && h.hash(bytes[..n]) == bytes[n..] && i < |bytes| && b != bytes[i]
    ensures h.hash(bytes[i := b][..n]) != bytes[i := b][n..]
  {
    var damaged := bytes[i := b];
    if i < n {
      assert damaged[..n][i] != bytes[..n][i];
      assert damaged[n..] == bytes[n..];
    } else {
      assert damaged[..n] == bytes[..n];
      assert damaged[n..][i - n] != bytes[n..][i - n];
    }
  }

  /** Every complete pair was there at the start, or its two files verify together. */
  ghost predicate NoMix(h: Hasher, start: Dir, dir: Dir) {
    forall id :: Complete(At(dir, id)) ==> At(dir, id) == At(start, id) || FilesOk(h, id, At(dir, id))
  }

  /** What a crash after any number of the steps leaves behind has no mixed pair. */
  ghost predicate CrashSafe(h: Hasher, start: Dir, ops: seq<FileOp>) {
    forall k :: 0 <= k <= |ops| ==> NoMix(h, start, AppliedAll(start, ops[..k]))
  }

  /** After a crash at any step, a complete pair was there at the start or its index names the pack beside it. */
  lemma CrashLeavesNamed(h: Hasher, start: Dir, ops: seq<FileOp>, k: nat, id: Id)
    requires CrashSafe(h, start, ops) && k <= |ops| && Complete(At(AppliedAll(start, ops[..k]), id))
    ensures
      var left := At(AppliedAll(start, ops[..k]), id);
      left == At(start, id) || IndexNamesPack(h, id, left)
  {
    hide PairOk, AppliedAll, IndexNamesPack;
    var dir := AppliedAll(start, ops[..k]);
    assert NoMix(h, start, dir);
    if FilesOk(h, id, At(dir, id)) {
      VerifiedNames(h, id, At(dir, id));
    }
  }

  lemma CrashSafeSnoc(h: Hasher, start: Dir, ops: seq<FileOp>, op: FileOp)
    requires CrashSafe(h, start, ops) && NoMix(h, start, Applied(AppliedAll(start, ops), op))
    ensures CrashSafe(h, start, ops + [op]) && AppliedAll(start, ops + [op]) == Applied(AppliedAll(start, ops), op)
  {
    hide NoMix, Applied;
    var more := ops + [op];
    assert more[..|ops|] == ops && more[..|more|] == more;
    forall k | 0 <= k <= |more| ensures NoMix(h, start, AppliedAll(start, more[..k])) {
      if k <= |ops| {
        assert more[..k] == ops[..k];
      }
    }
  }

  lemma AppliedSnoc(start: Dir, ops: seq<FileOp>, op: FileOp)
    ensures AppliedAll(start, ops + [op]) == Applied(AppliedAll(start, ops), op)
  {
    assert (ops + [op])[..|ops|] == ops;
  }

  lemma CrashSafeNow(h: Hasher, start: Dir, ops: seq<FileOp>)
    requires CrashSafe(h, start, ops)
    ensures NoMix(h, start, AppliedAll(start, ops))
  {
    assert ops[..|ops|] == ops;
  }

  /** Hydrations that follow one another, each interrupted anywhere, never mix either. */
  lemma NoMixTransitive(h: Hasher, a: Dir, b: Dir, c: Dir)
    requires NoMix(h, a, b) && NoMix(h, b, c)
    ensures NoMix(h, a, c)
  {
    hide FilesOk, At;
  }

  // ----- manifests

  datatype Descriptor = Descriptor(id: Id, packKey: Key, indexKey: Key, packSize: u64, indexSize: u64)

  datatype Manifest = Manifest(packs: seq<Descriptor>, replyBytes: nat)

  function PairSize(d: Descriptor): nat {
    d.packSize + d.indexSize
  }

  function Described(packs: seq<Descriptor>): nat {
    if packs == [] then 0 else Described(packs[..|packs| - 1]) + PairSize(packs[|packs| - 1])
  }

  /** `PackManifest::validate`, `described_bytes` and `reply_bytes`. */
  predicate ManifestOk(m: Manifest, h: Hasher) {
    && (forall i :: 0 <= i < |m.packs| ==>
          m.packs[i].packKey != [] && m.packs[i].indexKey != [] && m.packs[i].packSize > 0 && m.packs[i].indexSize > 0
          && |m.packs[i].id| == h.digestLen)
    && (forall i, j :: 0 <= i < j < |m.packs| ==> m.packs[i].id != m.packs[j].id)
    && Described(m.packs) <= U64_MAX && m.replyBytes <= U64_MAX
  }

  predicate RightSizes(d: Descriptor, f: Files) {
    Complete(f) && |f.pack.value| == d.packSize && |f.index.value| == d.indexSize
  }

  /** The pair of a descriptor is present with its sizes and verifies. */
  predicate Good(h: Hasher, d: Descriptor, dir: Dir) {
    RightSizes(d, At(dir, d.id)) && FilesOk(h, d.id, At(dir, d.id))
  }

  ghost predicate AllGood(h: Hasher, m: Manifest, dir: Dir) {
    forall i :: 0 <= i < |m.packs| ==> Good(h, m.packs[i], dir)
  }

  /** Every described pair is there, and its index names the pack beside it. */
  ghost predicate AllNamed(h: Hasher, m: Manifest, dir: Dir) {
    forall i :: 0 <= i < |m.packs| ==> IndexNamesPack(h, m.packs[i].id, At(dir, m.packs[i].id))
  }

  lemma GoodNamed(h: Hasher, m: Manifest, dir: Dir)
    requires AllGood(h, m, dir)
    ensures AllNamed(h, m, dir)
  {
    hide PairOk, IndexNamesPack, At;
    forall i | 0 <= i < |m.packs| ensures IndexNamesPack(h, m.packs[i].id, At(dir, m.packs[i].id)) {
      assert Good(h, m.packs[i], dir);
      VerifiedNames(h, m.packs[i].id, At(dir, m.packs[i].id));
    }
  }

  /** What the in-memory set of verified packs promises while nobody else touches the files. */
  ghost predicate SetSound(h: Hasher, verified: set<Id>, dir: Dir) {
    forall id :: id in verified ==> FilesOk(h, id, At(dir, id))
  }

  // ----- fetching an artifact in ranges

  datatype Range = Range(key: Key, offset: nat, length: nat)

  /** The `n`-th window of requests and the backend's answer, which may be anything. */
  type Backend = (nat, seq<seq<Range>>) -> Option<seq<seq<Bytes>>>

  predicate Inside(r: Range, key: Key, size: nat) {
    r.key == key && r.offset + r.length <= size
  }

  function Slice(artifact: Bytes, r: Range): Bytes
    requires r.offset + r.length <= |artifact|
  {
    artifact[r.offset..r.offset + r.length]
  }

  ghost predicate Answers(artifact: Bytes, key: Key, batches: seq<seq<Range>>, replies: seq<seq<Bytes>>) {
    |replies| == |batches|
    && forall i :: 0 <= i < |batches| ==> |batches[i]| == 1 && Inside(batches[i][0], key, |artifact|) && replies[i] == [Slice(artifact, batches[i][0])]
  }

  /** The backend serves `artifact` under `key`. */
  ghost predicate Serves(backend: Backend, key: Key, artifact: Bytes) {
    forall n, batches :: OneEach(batches, key, |artifact|) ==>
      backend(n, batches).Some? && Answers(artifact, key, batches, backend(n, batches).value)
  }

  ghost predicate OneEach(batches: seq<seq<Range>>, key: Key, size: nat) {
    forall i :: 0 <= i < |batches| ==> |batches[i]| == 1 && Inside(batches[i][0], key, size)
  }

  /** Consecutive ranges from 0 up to `upTo`. */
  ghost predicate Tiles(ranges: seq<Range>, key: Key, upTo: nat) {
    && (forall i :: 0 <= i < |ranges| ==> Inside(ranges[i], key, upTo))
    && (forall i :: 0 <= i < |ranges| ==> ranges[i].offset + ranges[i].length == Boundary(ranges, i + 1, upTo))
    && Boundary(ranges, 0, upTo) == 0
  }

  /** Where the `i`-th range starts, or where the last one ends. */
  ghost function Boundary(ranges: seq<Range>, i: nat, upTo: nat): nat {
    if i < |ranges| then ranges[i].offset else upTo
  }

  method SplitRanges(key: Key, size: nat, chunk: nat) returns (ranges: seq<Range>)
    requires chunk > 0 || size == 0
    ensures Tiles(ranges, key, size)
  {
    hide Tiles;
    ranges := [];
    var offset := 0;
    NothingTiled(key);
    while offset < size
      invariant offset <= size && Tiles(ranges, key, offset)
      decreases size - offset
    {
      var length := if chunk < size - offset then chunk else size - offset;
      var r := Range(key, offset, length);
      TilesSnoc(ranges, key, offset, r);
      ranges := ranges + [r];
      offset := offset + length;
    }
  }

  lemma TilesSnoc(ranges: seq<Range>, key: Key, upTo: nat, r: Range)
    requires Tiles(ranges, key, upTo) && r.key == key && r.offset == upTo
    ensures Tiles(ranges + [r], key, upTo + r.length)
  {
    var more := ranges + [r];
    forall i | 0 <= i < |more| ensures more[i].offset + more[i].length == Boundary(more, i + 1, upTo + r.length) {
      if i < |ranges| {
        assert more[i] == ranges[i];
        assert Boundary(ranges, i + 1, upTo) == Boundary(more, i + 1, upTo + r.length);
      }
    }
  }

  lemma NothingTiled(key: Key)
    ensures Tiles([], key, 0)
  {
  }

  lemma {:induction false} BoundariesGrow(ranges: seq<Range>, key: Key, size: nat, i: nat, j: nat)
    requires Tiles(ranges, key, size) && i <= j <= |ranges|
    ensures Boundary(ranges, i, size) <= Boundary(ranges, j, size) <= size
    decreases j - i
  {
    hide Tiles;
    if i < |ranges| {
      TileAt(ranges, key, size, i);
    }
    if i < j {
      BoundariesGrow(ranges, key, size, i + 1, j);
    }
  }

  /** The part of an artifact between two range boundaries. */
  ghost function Part(artifact: Bytes, ranges: seq<Range>, from: nat, to: nat): Bytes {
    var a, b := Boundary(ranges, from, |artifact|), Boundary(ranges, to, |artifact|);
    if a <= b <= |artifact| then artifact[a..b] else []
  }

  /** The part of one range follows the parts before it. */
  lemma PartSnoc(artifact: Bytes, ranges: seq<Range>, key: Key, from: nat, i: nat)
    requires Tiles(ranges, key, |artifact|) && from <= i < |ranges|
    ensures Inside(ranges[i], key, |artifact|)
    ensures Part(artifact, ranges, from, i) + Slice(artifact, ranges[i]) == Part(artifact, ranges, from, i + 1)
  {
    hide Tiles;
    TileAt(ranges, key, |artifact|, i);
    BoundariesGrow(ranges, key, |artifact|, from, i);
    BoundariesGrow(ranges, key, |artifact|, i, i + 1);
    assert Part(artifact, ranges, from, i) == artifact[Boundary(ranges, from, |artifact|)..ranges[i].offset];
  }

  lemma TileAt(ranges: seq<Range>, key: Key, size: nat, i: nat)
    requires Tiles(ranges, key, size) && i < |ranges|
    ensures Inside(ranges[i], key, size) && ranges[i].offset + ranges[i].length == Boundary(ranges, i + 1, size)
  {
  }

  /** One window of single-range batches: appends exactly the bytes of its ranges. */
  method FetchWindow(backend: Backend, n: nat, ranges: seq<Range>, from: nat, to: nat, ghost key: Key, ghost artifact: Bytes, ghost size: nat)
    returns (r: Option<Bytes>, spent: nat)
    requires from <= to <= |ranges| && Tiles(ranges, key, size)
    ensures spent <= Boundary(ranges, to, size) - Boundary(ranges, from, size)
    ensures r.Some? ==> |r.value| == spent == Boundary(ranges, to, size) - Boundary(ranges, from, size)
    ensures |artifact| == size && Serves(backend, key, artifact) ==> r == Some(Part(artifact, ranges, from, to))
  {
    hide Tiles, Part, Serves, Boundary;
    var batches := seq(to - from, i requires 0 <= i < to - from => [ranges[from + i]]);
    BatchesInside(ranges, key, size, from, to, batches);
    var replies := backend(n, batches);
    spent := 0;
    BoundariesGrow(ranges, key, size, from, to);
    ghost var honest := |artifact| == size && Serves(backend, key, artifact);
    if honest {
      ServedAnswers(backend, n, batches, key, artifact);
      PartEmpty(artifact, ranges, key, from);
    }
    if replies.None? || |replies.value| != |batches| { return None, spent; }
    var output: Bytes := [];
    for i := from to to
      invariant |output| == spent == Boundary(ranges, i, size) - Boundary(ranges, from, size)
      invariant honest ==> output == Part(artifact, ranges, from, i)
    {
      TileAt(ranges, key, size, i);
      TileStarts(ranges, i, size);
      BoundariesGrow(ranges, key, size, i, to);
      BoundariesGrow(ranges, key, size, i + 1, to);
      if honest { PartSnoc(artifact, ranges, key, from, i); }
      var reply := replies.value[i - from];
      if |reply| != 1 { return None, spent; }
      if |reply[0]| != ranges[i].length { return None, spent; }
      spent := spent + |reply[0]|;
      output := output + reply[0];
    }
    return Some(output), spent;
  }

  lemma TileStarts(ranges: seq<Range>, i: nat, size: nat)
    requires i < |ranges|
    ensures Boundary(ranges, i, size) == ranges[i].offset
  {
  }

  lemma PartEmpty(artifact: Bytes, ranges: seq<Range>, key: Key, from: nat)
    requires Tiles(ranges, key, |artifact|) && from <= |ranges|
    ensures Part(artifact, ranges, from, from) == []
  {
  }

  lemma BatchesInside(ranges: seq<Range>, key: Key, size: nat, from: nat, to: nat, batches: seq<seq<Range>>)
    requires from <= to <= |ranges| && Tiles(ranges, key, size) && |batches| == to - from
    requires forall i :: 0 <= i < |batches| ==> batches[i] == [ranges[from + i]]
    ensures OneEach(batches, key, size)
  {
  }

  lemma ServedAnswers(backend: Backend, n: nat, batches: seq<seq<Range>>, key: Key, artifact: Bytes)
    requires Serves(backend, key, artifact) && OneEach(batches, key, |artifact|)
    ensures backend(n, batches).Some? && Answers(artifact, key, batches, backend(n, batches).value)
  {
  }

  /** `fetch_artifact`: the right length or nothing, and the artifact itself when the backend serves it. */
  method FetchArtifact(backend: Backend, first: nat, key: Key, size: nat, chunk: nat, concurrency: nat, ghost artifact: Bytes)
    returns (r: Option<Bytes>, spent: nat, windows: nat)
    requires (chunk > 0 || size == 0) && concurrency > 0
    ensures spent <= size && (r.Some? ==> |r.value| == size == spent)
    ensures |artifact| == size && Serves(backend, key, artifact) ==> r == Some(artifact)
  {
    hide Tiles, Part, Serves;
    var ranges := SplitRanges(key, size, chunk);
    StartsAtZero(ranges, key, size);
    var output: Bytes := [];
    spent, windows := 0, 0;
    var at := 0;
    ghost var honest := |artifact| == size && Serves(backend, key, artifact);
    if honest { PartEmpty(artifact, ranges, key, 0); }
    while at < |ranges|
      invariant at <= |ranges| && |output| == spent == Boundary(ranges, at, size) <= size
      invariant honest ==> output == Part(artifact, ranges, 0, at)
      decreases |ranges| - at
    {
      var next := if |ranges| - at < concurrency then |ranges| else at + concurrency;
      BoundariesGrow(ranges, key, size, at, next);
      var bytes, cost := FetchWindow(backend, first + windows, ranges, at, next, key, artifact, size);
      windows := windows + 1;
      spent := spent + cost;
      if bytes.None? { return None, spent, windows; }
      if honest { PartsJoin(artifact, ranges, key, at, next); }
      output := output + bytes.value;
      at := next;
    }
    if honest { PartWhole(artifact, ranges, key); }
    if |output| != size { return None, spent, windows; }
    return Some(output), spent, windows;
  }

  lemma StartsAtZero(ranges: seq<Range>, key: Key, size: nat)
    requires Tiles(ranges, key, size)
    ensures Boundary(ranges, 0, size) == 0
  {
  }

  lemma PartsJoin(artifact: Bytes, ranges: seq<Range>, key: Key, at: nat, next: nat)
    requires Tiles(ranges, key, |artifact|) && at <= next <= |ranges|
    ensures Part(artifact, ranges, 0, at) + Part(artifact, ranges, at, next) == Part(artifact, ranges, 0, next)
  {
    hide Tiles;
    BoundariesGrow(ranges, key, |artifact|, 0, at);
    BoundariesGrow(ranges, key, |artifact|, at, next);
    StartsAtZero(ranges, key, |artifact|);
    SlicesJoin(artifact, Boundary(ranges, at, |artifact|), Boundary(ranges, next, |artifact|));
  }

  lemma SlicesJoin(s: Bytes, a: nat, b: nat)
    requires a <= b <= |s|
    ensures s[0..a] + s[a..b] == s[0..b]
  {
  }

  lemma PartWhole(artifact: Bytes, ranges: seq<Range>, key: Key)
    requires Tiles(ranges, key, |artifact|)
    ensures Part(artifact, ranges, 0, |ranges|) == artifact
  {
  }

  // ----- effects of the file steps

  ghost predicate SameBut(a: Dir, b: Dir, id: Id) {
    forall other :: other != id ==> At(a, other) == At(b, other)
  }

  lemma AppliedAt(dir: Dir, op: FileOp)
    ensures SameBut(dir, Applied(dir, op), op.id)
    ensures At(Applied(dir, op), op.id) == Put(At(dir, op.id), op.artifact, if op.Remove? then None else Some(op.bytes))
  {
  }

  lemma RemoveKeepsCrashSafe(h: Hasher, start: Dir, ops: seq<FileOp>, id: Id, artifact: Artifact)
    requires CrashSafe(h, start, ops)
    ensures CrashSafe(h, start, ops + [Remove(id, artifact)])
  {
    hide CrashSafe, AppliedAll, FilesOk;
    var dir := AppliedAll(start, ops);
    var op := Remove(id, artifact);
    CrashSafeNow(h, start, ops);
    AppliedAt(dir, op);
    CrashSafeSnoc(h, start, ops, op);
  }

  /** Publishing the pack first is safe beside no index; publishing the index is safe beside its own pack. */
  lemma PublishKeepsCrashSafe(h: Hasher, start: Dir, ops: seq<FileOp>, op: FileOp)
    requires CrashSafe(h, start, ops) && op.Publish?
    requires
      var f := At(AppliedAll(start, ops), op.id);
      if op.artifact.Pack? then f.index.None? else f.pack.Some? && PairOk(h, op.id, f.pack.value, op.bytes)
    ensures CrashSafe(h, start, ops + [op])
  {
    hide CrashSafe, AppliedAll, PairOk;
    var dir := AppliedAll(start, ops);
    CrashSafeNow(h, start, ops);
    AppliedAt(dir, op);
    CrashSafeSnoc(h, start, ops, op);
  }

  lemma SetSoundFrame(h: Hasher, verified: set<Id>, a: Dir, b: Dir, id: Id)
    requires SetSound(h, verified, a) && SameBut(a, b, id) && id !in verified
    ensures SetSound(h, verified, b)
  {
    hide FilesOk, At;
  }

  // ----- plans

  /** The bytes a plan fetches among its first `n` items. */
  function FetchTotal(packs: seq<Descriptor>, fetch: seq<bool>, n: nat): nat
    requires n <= |packs| == |fetch|
  {
    if n == 0 then 0 else FetchTotal(packs, fetch, n - 1) + if fetch[n - 1] then PairSize(packs[n - 1]) else 0
  }

  /** The pairs settled after `n` items of fetching: skipped ones and the first `n`. */
  ghost predicate Settled(h: Hasher, m: Manifest, fetch: seq<bool>, n: nat, dir: Dir, sound: bool)
    requires |fetch| == |m.packs|
  {
    forall i :: 0 <= i < |fetch| && (i < n || !fetch[i]) ==> RightSizes(m.packs[i], At(dir, m.packs[i].id)) && (sound ==> Good(h, m.packs[i], dir))
  }

  /** Nothing is in the way of the pairs still to fetch. */
  ghost predicate Cleared(m: Manifest, fetch: seq<bool>, n: nat, dir: Dir)
    requires |fetch| == |m.packs|
  {
    forall i :: n <= i < |fetch| && fetch[i] ==> At(dir, m.packs[i].id) == ABSENT
  }

  ghost predicate Unverified(m: Manifest, fetch: seq<bool>, n: nat, verified: set<Id>)
    requires |fetch| == |m.packs|
  {
    forall i :: n <= i < |fetch| && fetch[i] ==> m.packs[i].id !in verified
  }

  ghost predicate DistinctIds(m: Manifest) {
    forall i, j :: 0 <= i < j < |m.packs| ==> m.packs[i].id != m.packs[j].id
  }

  /** What planning has established about a descriptor: a usable pair, or a place cleared for a new one. */
  ghost predicate PlanItem(h: Hasher, d: Descriptor, fetch: bool, before: Dir, dir: Dir, verified: set<Id>, removed: bool, sound: bool) {
    if fetch then
      && (removed ==> At(dir, d.id) == ABSENT) && (sound ==> d.id !in verified) && !Good(h, d, before)
    else
      RightSizes(d, At(dir, d.id)) && At(dir, d.id) == At(before, d.id) && (sound ==> Good(h, d, dir))
  }

  ghost predicate Planned(h: Hasher, m: Manifest, fetch: seq<bool>, before: Dir, dir: Dir, verified: set<Id>, removed: bool, sound: bool) {
    && |fetch| <= |m.packs|
    && (forall i :: 0 <= i < |fetch| ==> PlanItem(h, m.packs[i], fetch[i], before, dir, verified, removed, sound))
    && (forall i :: |fetch| <= i < |m.packs| ==> At(dir, m.packs[i].id) == At(before, m.packs[i].id))
    && (dir == before || exists i :: 0 <= i < |fetch| && fetch[i])
  }

  /** The pairs a plan keeps have indexes that name their packs. */
  ghost predicate KeptNamed(h: Hasher, m: Manifest, fetch: seq<bool>, dir: Dir)
    requires |fetch| == |m.packs|
  {
    forall i :: 0 <= i < |fetch| && !fetch[i] ==> IndexNamesPack(h, m.packs[i].id, At(dir, m.packs[i].id))
  }

  lemma PlannedNamed(h: Hasher, m: Manifest, fetch: seq<bool>, before: Dir, dir: Dir, verified: set<Id>, removed: bool)
    requires |fetch| == |m.packs| && Planned(h, m, fetch, before, dir, verified, removed, true)
    ensures KeptNamed(h, m, fetch, dir)
  {
    hide PairOk, IndexNamesPack, At;
    forall i | 0 <= i < |fetch| && !fetch[i] ensures IndexNamesPack(h, m.packs[i].id, At(dir, m.packs[i].id)) {
      assert PlanItem(h, m.packs[i], fetch[i], before, dir, verified, removed, true);
      VerifiedNames(h, m.packs[i].id, At(dir, m.packs[i].id));
    }
  }

  lemma PlanItemFrame(h: Hasher, d: Descriptor, fetch: bool, before: Dir, a: Dir, va: set<Id>, b: Dir, vb: set<Id>, removed: bool, sound: bool)
    requires PlanItem(h, d, fetch, before, a, va, removed, sound)
    requires At(a, d.id) == At(b, d.id) && (d.id in vb ==> d.id in va)
    ensures PlanItem(h, d, fetch, before, b, vb, removed, sound)
  {
    hide PairOk;
  }

  /** Planning one more descriptor, with the pair's files and the verified set after it. */
  lemma PlannedSnoc(
    h: Hasher, m: Manifest, fetch: seq<bool>, before: Dir, a: Dir, va: set<Id>, b: Dir, vb: set<Id>, one: bool, removed: bool, sound: bool)
    requires DistinctIds(m) && |fetch| < |m.packs| && Planned(h, m, fetch, before, a, va, removed, sound)
    requires
      var d := m.packs[|fetch|];
      && SameBut(a, b, d.id) && vb <= va + {d.id}
      && PlanItem(h, d, one, a, b, vb, removed, sound) && (!one ==> a == b)
    ensures Planned(h, m, fetch + [one], before, b, vb, removed, sound)
  {
    hide PlanItem, At;
    var n := |fetch|;
    var d := m.packs[n];
    var fetch' := fetch + [one];
    PlanItemBefore(h, d, one, a, before, b, vb, removed, sound);
    forall i | 0 <= i < |fetch'| ensures PlanItem(h, m.packs[i], fetch'[i], before, b, vb, removed, sound) {
      if i < n {
        assert m.packs[i].id != d.id;
        PlanItemFrame(h, m.packs[i], fetch[i], before, a, va, b, vb, removed, sound);
      }
    }
    if one {
      assert fetch'[n];
    } else if a != before {
      var i :| 0 <= i < |fetch| && fetch[i];
      assert fetch'[i];
    }
  }

  lemma PlanItemBefore(h: Hasher, d: Descriptor, fetch: bool, a: Dir, before: Dir, dir: Dir, verified: set<Id>, removed: bool, sound: bool)
    requires PlanItem(h, d, fetch, a, dir, verified, removed, sound) && At(a, d.id) == At(before, d.id)
    ensures PlanItem(h, d, fetch, before, dir, verified, removed, sound)
  {
    hide PairOk;
  }

  lemma GoodDepends(h: Hasher, d: Descriptor, a: Dir, b: Dir)
    requires At(a, d.id) == At(b, d.id)
    ensures Good(h, d, a) <==> Good(h, d, b)
  {
  }

  lemma PlannedAll(h: Hasher, m: Manifest, fetch: seq<bool>, before: Dir, dir: Dir, verified: set<Id>, removed: bool, sound: bool)
    requires |fetch| == |m.packs| && Planned(h, m, fetch, before, dir, verified, removed, sound)
    ensures Settled(h, m, fetch, 0, dir, sound)
    ensures removed ==> Cleared(m, fetch, 0, dir)
    ensures sound ==> Unverified(m, fetch, 0, verified)
    ensures AllGood(h, m, before) ==> dir == before && forall i :: 0 <= i < |fetch| ==> !fetch[i]
  {
    hide PairOk, RightSizes, FilesOk, At;
  }

  lemma {:induction false} NothingToFetch(packs: seq<Descriptor>, fetch: seq<bool>, n: nat)
    requires n <= |packs| == |fetch| && forall i :: 0 <= i < |fetch| ==> !fetch[i]
    ensures FetchTotal(packs, fetch, n) == 0
  {
    if n > 0 {
      NothingToFetch(packs, fetch, n - 1);
    }
  }

  lemma {:induction false} FetchTotalGrows(packs: seq<Descriptor>, fetch: seq<bool>, n: nat, k: nat)
    requires n <= k <= |packs| == |fetch|
    ensures FetchTotal(packs, fetch, n) <= FetchTotal(packs, fetch, k)
    decreases k - n
  {
    if n < k {
      FetchTotalGrows(packs, fetch, n, k - 1);
    }
  }

  /** Settling the `n`-th pair. */
  lemma SettledNext(h: Hasher, m: Manifest, fetch: seq<bool>, n: nat, a: Dir, b: Dir, sound: bool)
    requires n < |fetch| == |m.packs| && DistinctIds(m) && Settled(h, m, fetch, n, a, sound)
    requires if fetch[n] then SameBut(a, b, m.packs[n].id) && Good(h, m.packs[n], b) else a == b
    ensures Settled(h, m, fetch, n + 1, b, sound)
    ensures Cleared(m, fetch, n, a) ==> Cleared(m, fetch, n + 1, b)
  {
    hide PairOk, FilesOk, At;
    forall i | 0 <= i < |fetch| && (i < n + 1 || !fetch[i])
      ensures RightSizes(m.packs[i], At(b, m.packs[i].id)) && (sound ==> Good(h, m.packs[i], b))
    {
      if i != n {
        assert m.packs[i].id != m.packs[n].id;
        assert At(a, m.packs[i].id) == At(b, m.packs[i].id);
        GoodDepends(h, m.packs[i], a, b);
      }
    }
  }

  // ----- the store

  datatype HydrationError = ProtocolError | BudgetExceeded | ChecksumMismatch | BackendError | MalformedObject

  class PackFetchOdb {
    const hasher: Hasher
    const backend: Backend
    const probe: (Bytes, Bytes) -> bool
    const maxHydrationBytes: u64
    const chunkBytes: u64
    const concurrency: nat
    /** Whether the n-th file step succeeds; a failed removal is ignored. */
    const removes: nat -> bool
    const publishes: nat -> bool
    var dir: Dir
    var verified: set<Id>
    var steps: nat
    var windows: nat
    /** The directory when the running hydration began, and the file steps since. */
    ghost var start: Dir
    ghost var ops: seq<FileOp>

    ghost predicate Valid()
      reads this
    {
      chunkBytes > 0 && concurrency > 0 && dir == AppliedAll(start, ops)
    }

    ghost predicate RemovalsSucceed() { forall n :: removes(n) }

    ghost predicate PublishesSucceed() { forall n :: publishes(n) }

    ghost predicate Safe()
      reads this
    {
      CrashSafe(hasher, start, ops)
    }

    ghost predicate Proper()
      reads this
    {
      IndexesVerified(hasher, start, ops)
    }

    constructor (
      hasher: Hasher, backend: Backend, probe: (Bytes, Bytes) -> bool, maxHydrationBytes: u64, chunkBytes: u64, concurrency: nat,
      removes: nat -> bool, publishes: nat -> bool, dir: Dir)
      requires chunkBytes > 0 && concurrency > 0
      ensures Valid() && this.dir == dir && verified == {} && this.hasher == hasher && this.backend == backend && this.probe == probe
      ensures this.maxHydrationBytes == maxHydrationBytes && this.removes == removes && this.publishes == publishes
    {
      this.hasher, this.backend, this.probe := hasher, backend, probe;
      this.maxHydrationBytes, this.chunkBytes, this.concurrency := maxHydrationBytes, chunkBytes, concurrency;
      this.removes, this.publishes, this.dir := removes, publishes, dir;
      verified, steps, windows := {}, 0, 0;
      start, ops := dir, [];
    }

    /** `let _ = remove_file(..)`. */
    method RemoveFile(id: Id, artifact: Artifact)
      requires Valid()
      modifies this`dir, this`steps, this`ops
      ensures Valid() && (old(Safe()) ==> Safe()) && (old(Proper()) ==> Proper()) && SameBut(old(dir), dir, id)
      ensures dir == old(dir) || At(dir, id) == Put(At(old(dir), id), artifact, None)
      ensures RemovalsSucceed() ==> At(dir, id) == Put(At(old(dir), id), artifact, None)
    {
      hide AppliedAll, CrashSafe, IndexesVerified;
      steps := steps + 1;
      if removes(steps) {
        var op := Remove(id, artifact);
        AppliedAt(dir, op);
        AppliedSnoc(start, ops, op);
        if Safe() { RemoveKeepsCrashSafe(hasher, start, ops, id, artifact); }
        if Proper() { VerifiedSnoc(hasher, start, ops, op); }
        dir := Applied(dir, op);
        ops := ops + [op];
      }
    }

    /** `remove_destination_pair`: the pack first. */
    method RemovePair(id: Id)
      requires Valid()
      modifies this`dir, this`steps, this`ops
      ensures Valid() && (old(Safe()) ==> Safe()) && (old(Proper()) ==> Proper()) && SameBut(old(dir), dir, id)
      ensures RemovalsSucceed() ==> At(dir, id) == ABSENT
    {
      hide AppliedAll, CrashSafe, IndexesVerified;
      RemoveFile(id, Pack);
      RemoveFile(id, Index);
    }

    method PublishFile(id: Id, artifact: Artifact, bytes: Bytes) returns (ok: bool)
      requires Valid()
      modifies this`dir, this`steps, this`ops
      ensures Valid() && SameBut(old(dir), dir, id)
      ensures if ok then At(dir, id) == Put(At(old(dir), id), artifact, Some(bytes)) else dir == old(dir) && ops == old(ops)
      ensures old(Safe()) && PublishOk(hasher, old(dir), id, artifact, bytes) ==> Safe()
      ensures PublishesSucceed() ==> ok
      ensures old(Proper()) && (artifact.Pack? || PublishOk(hasher, old(dir), id, artifact, bytes)) ==> Proper()
    {
      hide AppliedAll, CrashSafe, IndexesVerified, PairOk;
      steps := steps + 1;
      if !publishes(steps) { return false; }
      var op := Publish(id, artifact, bytes);
      AppliedAt(dir, op);
      AppliedSnoc(start, ops, op);
      if Safe() && PublishOk(hasher, dir, id, artifact, bytes) { PublishKeepsCrashSafe(hasher, start, ops, op); }
      if Proper() && (artifact.Pack? || PublishOk(hasher, dir, id, artifact, bytes)) { VerifiedSnoc(hasher, start, ops, op); }
      dir := Applied(dir, op);
      ops := ops + [op];
      return true;
    }

    /** `write_pair_atomically`: both temporary files are complete before the pack and then the index are renamed. */
    method WritePairAtomically(id: Id, pack: Bytes, index: Bytes) returns (ok: bool)
      requires Valid()
      modifies this`dir, this`steps, this`ops
      ensures Valid() && SameBut(old(dir), dir, id)
      ensures ok ==> At(dir, id) == Files(Some(pack), Some(index))
      ensures old(Safe()) && PairOk(hasher, id, pack, index) && At(old(dir), id) == ABSENT ==> Safe()
      ensures PublishesSucceed() ==> ok
      ensures old(Proper()) && PairOk(hasher, id, pack, index) ==> Proper()
    {
      hide AppliedAll, CrashSafe, IndexesVerified, PairOk;
      ok := PublishFile(id, Pack, pack);
      if ok { ok := PublishFile(id, Index, index); }
    }

    /** `plan_hydration`: keeps the pairs that verify and clears the way for the others. */
    method PlanHydration(m: Manifest) returns (fetch: seq<bool>)
      requires Valid() && DistinctIds(m)
      modifies this`dir, this`steps, this`ops, this`verified
      ensures Valid() && (old(Safe()) ==> Safe()) && (old(Proper()) ==> Proper()) && |fetch| == |m.packs|
      ensures Planned(hasher, m, fetch, old(dir), dir, verified, RemovalsSucceed(), SetSound(hasher, old(verified), old(dir)))
      ensures SetSound(hasher, old(verified), old(dir)) ==> SetSound(hasher, verified, dir)
      ensures (forall i :: 0 <= i < |fetch| ==> !fetch[i]) ==> ops == old(ops)
      ensures SetSound(hasher, old(verified), old(dir)) ==> KeptNamed(hasher, m, fetch, dir)
    {
      hide AppliedAll, CrashSafe, IndexesVerified, PairOk, Planned, SetSound, At, SameBut, PlanItem, KeptNamed;
      fetch := [];
      ghost var sound := SetSound(hasher, verified, dir);
      ghost var before := dir;
      PlannedNone(hasher, m, before, verified, RemovalsSucceed(), sound);
      for i := 0 to |m.packs|
        invariant Valid() && (old(Safe()) ==> Safe()) && (old(Proper()) ==> Proper()) && |fetch| == i
        invariant Planned(hasher, m, fetch, before, dir, verified, RemovalsSucceed(), sound)
        invariant sound ==> SetSound(hasher, verified, dir)
        invariant ops == old(ops) || exists j :: 0 <= j < |fetch| && fetch[j]
      {
        var d := m.packs[i];
        ghost var dir0, verified0 := dir, verified;
        var skip := PlanOne(d, sound);
        PlannedSnoc(hasher, m, fetch, before, dir0, verified0, dir, verified, !skip, RemovalsSucceed(), sound);
        ghost var fetch0 := fetch;
        fetch := fetch + [!skip];
        assert forall j :: 0 <= j < i ==> fetch[j] == fetch0[j];
        assert fetch[i] == !skip;
      }
      if sound { PlannedNamed(hasher, m, fetch, before, dir, verified, RemovalsSucceed()); }
    }

    method PlanOne(d: Descriptor, ghost sound: bool) returns (skip: bool)
      requires Valid() && (sound ==> SetSound(hasher, verified, dir))
      modifies this`dir, this`steps, this`ops, this`verified
      ensures Valid() && (old(Safe()) ==> Safe()) && (old(Proper()) ==> Proper())
      ensures SameBut(old(dir), dir, d.id) && verified <= old(verified) + {d.id}
      ensures skip ==> dir == old(dir) && ops == old(ops)
      ensures PlanItem(hasher, d, !skip, old(dir), dir, verified, RemovalsSucceed(), sound)
      ensures sound ==> SetSound(hasher, verified, dir)
    {
      hide AppliedAll, CrashSafe, IndexesVerified, PairOk;
      var files := At(dir, d.id);
      if Complete(files) {
        if RightSizes(d, files) && (d.id in verified || PairOk(hasher, d.id, files.pack.value, files.index.value)) {
          verified := verified + {d.id};
          return true;
        }
        verified := verified - {d.id};
        RemovePair(d.id);
      } else if files.pack.Some? || files.index.Some? {
        verified := verified - {d.id};
        RemovePair(d.id);
      }
      return false;
    }

    /** Fetches, verifies and publishes the planned pairs. */
    method FetchPlanned(m: Manifest, fetch: seq<bool>, ghost sound: bool, ghost remote: Remote) returns (r: Result<nat, HydrationError>, spent: nat)
      requires Valid() && DistinctIds(m) && |fetch| == |m.packs|
      requires Settled(hasher, m, fetch, 0, dir, sound)
      requires sound ==> SetSound(hasher, verified, dir) && Unverified(m, fetch, 0, verified)
      modifies this`dir, this`steps, this`ops, this`verified, this`windows
      ensures Valid() && (old(Safe()) && Cleared(m, fetch, 0, old(dir)) ==> Safe()) && (old(Proper()) ==> Proper())
      ensures spent <= FetchTotal(m.packs, fetch, |fetch|) && (r.Ok? ==> r.value == spent == FetchTotal(m.packs, fetch, |fetch|))
      ensures r.Ok? ==> Settled(hasher, m, fetch, |fetch|, dir, sound)
      ensures sound ==> SetSound(hasher, verified, dir)
      ensures (forall i :: 0 <= i < |fetch| ==> !fetch[i]) ==> r.Ok? && dir == old(dir) && ops == old(ops)
      ensures PublishesSucceed() && OffersAll(hasher, backend, m, remote) ==> r.Ok?
    {
      hide AppliedAll, CrashSafe, IndexesVerified, PairOk, SetSound, Settled, Cleared, SameBut, Good, At, Offers;
      ghost var cleared := Safe() && Cleared(m, fetch, 0, dir);
      spent := 0;
      for n := 0 to |fetch|
        invariant Valid() && spent == FetchTotal(m.packs, fetch, n)
        invariant Settled(hasher, m, fetch, n, dir, sound)
        invariant cleared ==> Safe() && Cleared(m, fetch, n, dir)
        invariant old(Proper()) ==> Proper()
        invariant sound ==> SetSound(hasher, verified, dir) && Unverified(m, fetch, n, verified)
        invariant (forall i :: 0 <= i < |fetch| ==> !fetch[i]) ==> dir == old(dir) && ops == old(ops)
      {
        FetchTotalGrows(m.packs, fetch, n + 1, |fetch|);
        ghost var dir0 := dir;
        if fetch[n] {
          var d := m.packs[n];
          if cleared { ClearedAt(m, fetch, n, dir); }
          var ok, cost := FetchPair(d, remote);
          spent := spent + cost;
          if ok.Err? { return Err(ok.error), spent; }
          if sound { UnverifiedNext(m, fetch, n, verified, d.id); }
          verified := verified + {d.id};
          if sound { SetSoundAdd(hasher, verified - {d.id}, dir, d); }
        }
        SettledNext(hasher, m, fetch, n, dir0, dir, sound);
      }
      return Ok(spent), spent;
    }

    /** One pair: the index in one range, the pack in chunks, both verified before anything is published. */
    method FetchPair(d: Descriptor, ghost remote: Remote) returns (r: Result<(), HydrationError>, spent: nat)
      requires Valid()
      modifies this`dir, this`steps, this`ops, this`windows
      ensures Valid() && SameBut(old(dir), dir, d.id)
      ensures old(Safe()) && At(old(dir), d.id) == ABSENT ==> Safe()
      ensures old(Proper()) ==> Proper()
      ensures spent <= PairSize(d) && (r.Ok? ==> spent == PairSize(d) && Good(hasher, d, dir))
      ensures r.Ok? ==> IndexNamesPack(hasher, d.id, At(dir, d.id))
      ensures SetSound(hasher, verified, old(dir)) && d.id !in verified ==> SetSound(hasher, verified, dir)
      ensures PublishesSucceed() && Offers(hasher, backend, d, remote) ==> r.Ok?
    {
      hide AppliedAll, CrashSafe, IndexesVerified, PairOk, SetSound, Serves, IndexNamesPack;
      var index, cost, used := FetchArtifact(backend, windows, d.indexKey, d.indexSize, d.indexSize, concurrency, remote.index(d.id));
      windows, spent := windows + used, cost;
      if index.None? { return Err(ProtocolError), spent; }
      var pack, cost', used' := FetchArtifact(backend, windows, d.packKey, d.packSize, chunkBytes, concurrency, remote.pack(d.id));
      windows, spent := windows + used', spent + cost';
      if pack.None? { return Err(ProtocolError), spent; }
      if !PairOk(hasher, d.id, pack.value, index.value) { return Err(ChecksumMismatch), spent; }
      ghost var dir0 := dir;
      var ok := WritePairAtomically(d.id, pack.value, index.value);
      if SetSound(hasher, verified, dir0) && d.id !in verified { SetSoundFrame(hasher, verified, dir0, dir, d.id); }
      if !ok { return Err(BackendError), spent; }
      VerifiedNames(hasher, d.id, At(dir, d.id));
      return Ok(()), spent;
    }

    /** `probe_hydrated_packs`: the first pair that fails the probe is removed again. */
    method ProbeHydratedPacks(m: Manifest) returns (ok: bool, ghost failed: nat)
      requires Valid() && DistinctIds(m)
      modifies this`dir, this`steps, this`ops, this`verified
      ensures Valid() && (old(Safe()) ==> Safe()) && (old(Proper()) ==> Proper())
      ensures ok ==> dir == old(dir) && ops == old(ops) && verified == old(verified)
      ensures ok <==> AllProbed(probe, m, old(dir))
      ensures !ok ==>
        && failed < |m.packs| && !Probed(probe, At(old(dir), m.packs[failed].id))
        && (forall j :: 0 <= j < failed ==> Probed(probe, At(old(dir), m.packs[j].id)))
        && verified == old(verified) - {m.packs[failed].id} && SameBut(old(dir), dir, m.packs[failed].id)
        && (RemovalsSucceed() ==> At(dir, m.packs[failed].id) == ABSENT)
      ensures SetSound(hasher, old(verified), old(dir)) ==> SetSound(hasher, verified, dir)
    {
      hide AppliedAll, CrashSafe, IndexesVerified, PairOk, SetSound;
      failed := 0;
      for i := 0 to |m.packs|
        invariant Valid() && dir == old(dir) && ops == old(ops) && verified == old(verified) && steps == old(steps)
        invariant forall j :: 0 <= j < i ==> Probed(probe, At(dir, m.packs[j].id))
      {
        var id := m.packs[i].id;
        if !Probed(probe, At(dir, id)) {
          ghost var dir0 := dir;
          failed := i;
          verified := verified - {id};
          if SetSound(hasher, old(verified), dir0) { SetSoundLess(hasher, old(verified), dir0, id); }
          RemovePair(id);
          if SetSound(hasher, verified, dir0) { SetSoundFrame(hasher, verified, dir0, dir, id); }
          return false, failed;
        }
      }
      return true, failed;
    }

    /**
     * `hydrate` for the manifest the backend answered. Whatever happens, a
     * crash at any file step leaves no mixed pair as long as removals succeed,
     * and the bytes spent stay within `max_hydration_bytes`. Success leaves
     * every described pair present; with a sound verified set, also verified,
     * each index naming the pack beside it.
     * A destination that is already good is left alone. Against a backend that
     * offers verified pairs, with renames that succeed and pairs that pass the
     * probe, it succeeds exactly when the bytes still needed fit.
     */
    method Hydrate(m: Manifest, ghost remote: Remote) returns (r: Result<nat, HydrationError>, spent: nat)
      requires Valid()
      modifies this
      ensures Valid() && start == old(dir)
      ensures RemovalsSucceed() ==> CrashSafe(hasher, old(dir), ops)
      ensures IndexesVerified(hasher, old(dir), ops)
      ensures CrashSafe(hasher, old(dir), ops) <==> PacksUnmixed(hasher, old(dir), ops)
      ensures spent == 0 || m.replyBytes + spent <= maxHydrationBytes
      ensures r.Ok? ==> r.value == spent && forall i :: 0 <= i < |m.packs| ==> RightSizes(m.packs[i], At(dir, m.packs[i].id))
      ensures r.Ok? && SetSound(hasher, old(verified), old(dir)) ==> AllGood(hasher, m, dir) && AllNamed(hasher, m, dir)
      ensures r.Ok? ==> DistinctIds(m) && forall i :: 0 <= i < |m.packs| ==>
        && |m.packs[i].packKey| > 0 && |m.packs[i].indexKey| > 0 && |m.packs[i].id| == hasher.digestLen
        && m.packs[i].packSize > 0 && m.packs[i].indexSize > 0
      ensures SetSound(hasher, old(verified), old(dir)) ==> SetSound(hasher, verified, dir)
      ensures AllGood(hasher, m, old(dir)) ==> spent == 0 && (r.Ok? ==> dir == old(dir) && ops == [])
      ensures AllGood(hasher, m, old(dir)) && Accepts(m, hasher, maxHydrationBytes) && AllProbed(probe, m, old(dir)) ==> r.Ok?
      ensures
        && SetSound(hasher, old(verified), old(dir)) && PublishesSucceed() && Accepts(m, hasher, maxHydrationBytes)
        && OffersAll(hasher, backend, m, remote) && VerifiedPassProbe(hasher, probe, m)
        ==> (r.Ok? <==> m.replyBytes + Needed(hasher, m.packs, old(dir), |m.packs|) <= maxHydrationBytes)
    {
      hide AppliedAll, CrashSafe, IndexesVerified, PairOk, SetSound, Planned, Settled, Cleared, Unverified, AllGood, RightSizes, Good, FilesOk, At, OffersAll,
        VerifiedPassProbe, AllProbed, Needed, FetchTotal, PacksUnmixed, AllNamed;
      RunsSafeIff(hasher, dir);
      ghost var sound := SetSound(hasher, verified, dir);
      start, ops := dir, [];
      NothingDone(hasher, dir);
      spent := 0;
      if !ManifestOk(m, hasher) { return Err(ProtocolError), spent; }
      if m.replyBytes > maxHydrationBytes { return Err(BudgetExceeded), spent; }
      var fetch := PlanHydration(m);
      PlannedAll(hasher, m, fetch, start, dir, verified, RemovalsSucceed(), sound);
      if AllGood(hasher, m, start) { NothingToFetch(m.packs, fetch, |fetch|); }
      if sound { PlanNeeds(hasher, m, fetch, start, dir, verified, RemovalsSucceed(), |fetch|); }
      if FetchTotal(m.packs, fetch, |fetch|) > SaturatingSub(maxHydrationBytes, m.replyBytes) { return Err(BudgetExceeded), spent; }
      var fetched, cost := FetchPlanned(m, fetch, sound, remote);
      spent := cost;
      if fetched.Err? { return fetched, spent; }
      AllSettled(hasher, m, fetch, dir, sound);
      if sound { GoodNamed(hasher, m, dir); }
      if sound && VerifiedPassProbe(hasher, probe, m) { GoodPassProbe(hasher, probe, m, dir); }
      var ok, failed := ProbeHydratedPacks(m);
      if !ok { return Err(MalformedObject), spent; }
      return Ok(spent), spent;
    }
  }

  lemma NothingDone(h: Hasher, dir: Dir)
    ensures AppliedAll(dir, []) == dir && CrashSafe(h, dir, []) && IndexesVerified(h, dir, [])
  {
  }

  lemma AllSettled(h: Hasher, m: Manifest, fetch: seq<bool>, dir: Dir, sound: bool)
    requires |fetch| == |m.packs| && Settled(h, m, fetch, |fetch|, dir, sound)
    ensures forall i :: 0 <= i < |m.packs| ==> RightSizes(m.packs[i], At(dir, m.packs[i].id))
    ensures sound ==> AllGood(h, m, dir)
  {
  }

  /** What the backend holds for every pack ID. */
  datatype Remote = Remote(pack: Id -> Bytes, index: Id -> Bytes)

  /** The backend serves a verified pair of the described sizes. */
  ghost predicate Offers(h: Hasher, backend: Backend, d: Descriptor, remote: Remote) {
    && |remote.pack(d.id)| == d.packSize && Serves(backend, d.packKey, remote.pack(d.id))
    && |remote.index(d.id)| == d.indexSize && Serves(backend, d.indexKey, remote.index(d.id))
    && PairOk(h, d.id, remote.pack(d.id), remote.index(d.id))
  }

  ghost predicate OffersAll(h: Hasher, backend: Backend, m: Manifest, remote: Remote) {
    forall i :: 0 <= i < |m.packs| ==> Offers(h, backend, m.packs[i], remote)
  }

  /** Verified pairs of the manifest pass the open-time probe. */
  ghost predicate VerifiedPassProbe(h: Hasher, probe: (Bytes, Bytes) -> bool, m: Manifest) {
    forall i, pack, index :: 0 <= i < |m.packs| && PairOk(h, m.packs[i].id, pack, index) ==> probe(pack, index)
  }

  /** The bytes of the pairs among the first `n` that are not good yet. */
  ghost function Needed(h: Hasher, packs: seq<Descriptor>, dir: Dir, n: nat): nat
    requires n <= |packs|
  {
    if n == 0 then 0 else Needed(h, packs, dir, n - 1) + if Good(h, packs[n - 1], dir) then 0 else PairSize(packs[n - 1])
  }

  /** A plan fetches exactly the pairs that are not good. */
  lemma {:induction false} PlanNeeds(
    h: Hasher, m: Manifest, fetch: seq<bool>, before: Dir, dir: Dir, verified: set<Id>, removed: bool, n: nat)
    requires n <= |fetch| == |m.packs| && Planned(h, m, fetch, before, dir, verified, removed, true)
    ensures FetchTotal(m.packs, fetch, n) == Needed(h, m.packs, before, n)
  {
    hide PairOk, RightSizes, FilesOk, At;
    if n > 0 {
      PlanNeeds(h, m, fetch, before, dir, verified, removed, n - 1);
      assert PlanItem(h, m.packs[n - 1], fetch[n - 1], before, dir, verified, removed, true);
      if !fetch[n - 1] {
        GoodDepends(h, m.packs[n - 1], dir, before);
      }
    }
  }

  lemma GoodPassProbe(h: Hasher, probe: (Bytes, Bytes) -> bool, m: Manifest, dir: Dir)
    requires AllGood(h, m, dir) && VerifiedPassProbe(h, probe, m)
    ensures AllProbed(probe, m, dir)
  {
    hide PairOk;
    forall i | 0 <= i < |m.packs| ensures Probed(probe, At(dir, m.packs[i].id)) {
      assert Good(h, m.packs[i], dir);
    }
  }

  predicate Probed(probe: (Bytes, Bytes) -> bool, f: Files) {
    Complete(f) && probe(f.pack.value, f.index.value)
  }

  ghost predicate AllProbed(probe: (Bytes, Bytes) -> bool, m: Manifest, dir: Dir) {
    forall i :: 0 <= i < |m.packs| ==> Probed(probe, At(dir, m.packs[i].id))
  }

  predicate Accepts(m: Manifest, h: Hasher, maxBytes: u64) {
    ManifestOk(m, h) && m.replyBytes <= maxBytes
  }

  lemma SetSoundLess(h: Hasher, verified: set<Id>, dir: Dir, id: Id)
    requires SetSound(h, verified, dir)
    ensures SetSound(h, verified - {id}, dir)
  {
  }

  lemma PlannedNone(h: Hasher, m: Manifest, before: Dir, verified: set<Id>, removed: bool, sound: bool)
    ensures Planned(h, m, [], before, before, verified, removed, sound)
  {
  }

  lemma ClearedAt(m: Manifest, fetch: seq<bool>, n: nat, dir: Dir)
    requires n < |fetch| == |m.packs| && Cleared(m, fetch, n, dir) && fetch[n]
    ensures At(dir, m.packs[n].id) == ABSENT
  {
  }

  lemma UnverifiedNext(m: Manifest, fetch: seq<bool>, n: nat, verified: set<Id>, id: Id)
    requires n < |fetch| == |m.packs| && Unverified(m, fetch, n, verified) && DistinctIds(m) && id == m.packs[n].id
    ensures Unverified(m, fetch, n + 1, verified + {id}) && (fetch[n] ==> id !in verified)
  {
  }

  lemma SetSoundAdd(h: Hasher, verified: set<Id>, dir: Dir, d: Descriptor)
    requires SetSound(h, verified, dir) && Good(h, d, dir)
    ensures SetSound(h, verified + {d.id}, dir)
  {
  }

  /** When renaming a file into place cannot create a mixed pair. */
  ghost predicate PublishOk(h: Hasher, dir: Dir, id: Id, artifact: Artifact, bytes: Bytes) {
    var f := At(dir, id);
    if artifact.Pack? then f.index.None? else f.pack.Some? && PairOk(h, id, f.pack.value, bytes)
  }

  // ----- exactly when a run is crash-safe

  /** The files of an operation's pack ID right before its step. */
  ghost function FilesBefore(start: Dir, ops: seq<FileOp>, k: nat): Files
    requires k < |ops|
  {
    At(AppliedAll(start, ops[..k]), ops[k].id)
  }

  /** An index is published only beside a pack it verifies with. */
  ghost predicate IndexVerified(h: Hasher, start: Dir, ops: seq<FileOp>, k: nat)
    requires k < |ops|
  {
    ops[k].Publish? && ops[k].artifact.Index? ==>
      var f := FilesBefore(start, ops, k);
      f.pack.Some? && PairOk(h, ops[k].id, f.pack.value, ops[k].bytes)
  }

  ghost predicate IndexesVerified(h: Hasher, start: Dir, ops: seq<FileOp>) {
    forall k :: 0 <= k < |ops| ==> IndexVerified(h, start, ops, k)
  }

  /** A pack is published beside no index, one it verifies with, or as the pair that was there at the start. */
  ghost predicate PackUnmixed(h: Hasher, start: Dir, ops: seq<FileOp>, k: nat)
    requires k < |ops|
  {
    ops[k].Publish? && ops[k].artifact.Pack? ==>
      var index := FilesBefore(start, ops, k).index;
      index.None? || PairOk(h, ops[k].id, ops[k].bytes, index.value) || Files(Some(ops[k].bytes), index) == At(start, ops[k].id)
  }

  ghost predicate PacksUnmixed(h: Hasher, start: Dir, ops: seq<FileOp>) {
    forall k :: 0 <= k < |ops| ==> PackUnmixed(h, start, ops, k)
  }

  lemma AppliedNext(start: Dir, ops: seq<FileOp>, k: nat)
    requires k < |ops|
    ensures AppliedAll(start, ops[..k + 1]) == Applied(AppliedAll(start, ops[..k]), ops[k])
  {
    assert ops[..k + 1][..k] == ops[..k];
  }

  lemma VerifiedSnoc(h: Hasher, start: Dir, ops: seq<FileOp>, op: FileOp)
    requires IndexesVerified(h, start, ops)
    requires op.Publish? && op.artifact.Index? ==> PublishOk(h, AppliedAll(start, ops), op.id, op.artifact, op.bytes)
    ensures IndexesVerified(h, start, ops + [op])
  {
    hide PairOk, AppliedAll;
    var more := ops + [op];
    forall k | 0 <= k < |more| ensures IndexVerified(h, start, more, k) {
      assert more[..k] == ops[..k];
      if k < |ops| {
        assert IndexVerified(h, start, ops, k);
      } else {
        assert ops[..k] == ops;
      }
    }
  }

  /** One step from an unmixed directory: only a pack publish beside a foreign index mixes. */
  lemma StepSafeIff(h: Hasher, start: Dir, ops: seq<FileOp>, k: nat)
    requires k < |ops| && IndexVerified(h, start, ops, k) && NoMix(h, start, AppliedAll(start, ops[..k]))
    ensures NoMix(h, start, AppliedAll(start, ops[..k + 1])) <==> PackUnmixed(h, start, ops, k)
  {
    hide PairOk, AppliedAll;
    var dir, op := AppliedAll(start, ops[..k]), ops[k];
    AppliedNext(start, ops, k);
    if op.Publish? && op.artifact.Pack? {
      PackPublishIff(h, start, dir, op.id, op.bytes);
    } else {
      AppliedAt(dir, op);
    }
  }

  lemma {:induction false} PrefixSafeIff(h: Hasher, start: Dir, ops: seq<FileOp>, n: nat)
    requires IndexesVerified(h, start, ops) && n <= |ops|
    ensures (forall k :: 0 <= k <= n ==> NoMix(h, start, AppliedAll(start, ops[..k]))) <==> forall k :: 0 <= k < n ==> PackUnmixed(h, start, ops, k)
  {
    hide NoMix, PackUnmixed, IndexVerified, AppliedAll;
    if n == 0 {
      assert ops[..0] == [];
      NothingDone(h, start);
      CrashSafeNow(h, start, []);
    } else {
      PrefixSafeIff(h, start, ops, n - 1);
      if NoMix(h, start, AppliedAll(start, ops[..n - 1])) {
        StepSafeIff(h, start, ops, n - 1);
      }
    }
  }

  /** A run whose published indexes verify is crash-safe if and only if no pack is published beside a foreign index. */
  lemma CrashSafeIff(h: Hasher, start: Dir, ops: seq<FileOp>)
    requires IndexesVerified(h, start, ops)
    ensures CrashSafe(h, start, ops) <==> PacksUnmixed(h, start, ops)
  {
    hide NoMix, PackUnmixed, IndexVerified, AppliedAll;
    PrefixSafeIff(h, start, ops, |ops|);
  }

  lemma RunsSafeIff(h: Hasher, start: Dir)
    ensures forall ops :: IndexesVerified(h, start, ops) ==> (CrashSafe(h, start, ops) <==> PacksUnmixed(h, start, ops))
  {
    hide IndexesVerified, CrashSafe, PacksUnmixed;
    forall ops | IndexesVerified(h, start, ops) ensures CrashSafe(h, start, ops) <==> PacksUnmixed(h, start, ops) {
      CrashSafeIff(h, start, ops);
    }
  }

  // ----- why removals must succeed

  /** Renaming a pack into place keeps pairs unmixed exactly when no foreign index is left beside it. */
  lemma PackPublishIff(h: Hasher, start: Dir, dir: Dir, id: Id, pack: Bytes)
    requires NoMix(h, start, dir)
    ensures
      var index := At(dir, id).index;
      NoMix(h, start, Applied(dir, Publish(id, Pack, pack))) <==>
        index.None? || PairOk(h, id, pack, index.value) || Files(Some(pack), index) == At(start, id)
  {
    hide PairOk;
    var dir' := Applied(dir, Publish(id, Pack, pack));
    AppliedAt(dir, Publish(id, Pack, pack));
    assert At(dir', id) == At(dir, id).(pack := Some(pack));
  }

  /** If removing the old index fails unnoticed, a crash between the two renames leaves the new pack beside it. */
  lemma LeftoverIndexMixes(h: Hasher, id: Id, oldPack: Bytes, oldIndex: Bytes, pack: Bytes)
    requires pack != oldPack && !PairOk(h, id, pack, oldIndex)
    ensures
      var start := map[id := Files(Some(oldPack), Some(oldIndex))];
      !CrashSafe(h, start, [Remove(id, Pack), Publish(id, Pack, pack)])
  {
    hide PairOk;
    var start := map[id := Files(Some(oldPack), Some(oldIndex))];
    var ops := [Remove(id, Pack), Publish(id, Pack, pack)];
    assert ops[..1] == [] + [Remove(id, Pack)] && ops == ops[..1] + [ops[1]];
    AppliedSnoc(start, [], ops[0]);
    AppliedSnoc(start, ops[..1], ops[1]);
    var left := AppliedAll(start, ops);
    assert At(left, id) == Files(Some(pack), Some(oldIndex));
    assert ops[..2] == ops;
    assert !NoMix(h, start, left);
  }
}
