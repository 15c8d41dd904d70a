/** Cursor bytes for commit logs and path histories (crates/gitility-core/src/log.rs, path_history.rs). */
module CommitCursors {
  import opened Basics
  import opened CommitGraph
  import opened Cursors
  import opened Paging
  import opened Logs
  import PathHistory

  const OPERATION_LOG: byte := 3
  const OPERATION_HISTORY: byte := 4

  // ----- digests

  /** The digest bytes of an object ID; IDs compare as their digests do. */
  function Digest(oid: nat, width: nat): (r: seq<byte>)
    ensures |r| == width
    decreases width, oid
  {
    if width == 0 then [] else Digest(oid / 256, width - 1) + [oid % 256]
  }

  function FromDigest(bytes: seq<byte>): nat {
    if bytes == [] then 0 else FromDigest(bytes[..|bytes| - 1]) * 256 + bytes[|bytes| - 1]
  }

  lemma {:induction false} FromDigestOfDigest(oid: nat, width: nat)
    requires oid < Pow256(width)
    ensures FromDigest(Digest(oid, width)) == oid
    decreases width
  {
    if width != 0 {
      FromDigestOfDigest(oid / 256, width - 1);
      assert Digest(oid, width)[..width - 1] == Digest(oid / 256, width - 1);
    }
  }

  lemma {:induction false} DigestOfFromDigest(bytes: seq<byte>)
    ensures FromDigest(bytes) < Pow256(|bytes|) && Digest(FromDigest(bytes), |bytes|) == bytes
  {
    if bytes != [] {
      var n := |bytes| - 1;
      DigestOfFromDigest(bytes[..n]);
      assert FromDigest(bytes) / 256 == FromDigest(bytes[..n]) && FromDigest(bytes) % 256 == bytes[n];
      assert bytes == bytes[..n] + [bytes[n]];
    }
  }

  // ----- positions

  /** What a commit cursor is bound to. */
  datatype Query = Query(hashKind: HashKind, digest: seq<byte>, operation: byte, fingerprint: u64) {
    function Expected(): CursorExpected { CursorExpected(hashKind, digest, operation, fingerprint) }

    predicate WellFormed() { |digest| == hashKind.DigestLen() }

    /** Object IDs are digests of the query's hash. */
    predicate IsId(oid: Oid) { oid < Pow256(hashKind.DigestLen()) }
  }

  function CursorAt(q: Query, oid: Oid): Cursor {
    Cursor(q.hashKind, q.digest, q.operation, q.fingerprint, [], Digest(oid, q.hashKind.DigestLen()))
  }

  /** `cursor` is the encoding of the position `resume`. */
  ghost predicate ResumesAt(q: Query, cursor: Option<seq<byte>>, resume: Option<Oid>) {
    match (cursor, resume)
    case (None, None) => true
    case (Some(bytes), Some(oid)) => Carries(bytes, q.Expected(), CursorAt(q, oid)) && q.IsId(oid)
    case _ => false
  }

  /** The position a decoded cursor holds. */
  function PositionOf(q: Query, c: Cursor): Option<Oid> {
    if c.generation != [] || |c.position| != q.hashKind.DigestLen() then None else Some(FromDigest(c.position))
  }

  lemma CarriedPosition(q: Query, bytes: seq<byte>, c: Cursor, oid: Oid)
    requires Carries(bytes, q.Expected(), c)
    ensures Carries(bytes, q.Expected(), CursorAt(q, oid)) && q.IsId(oid) <==> PositionOf(q, c) == Some(oid)
  {
    hide Encoded, Digest, FromDigest, Pow256;
    if Carries(bytes, q.Expected(), CursorAt(q, oid)) && q.IsId(oid) {
      CarriedUnique(bytes, q.Expected(), CursorAt(q, oid), c);
      FromDigestOfDigest(oid, q.hashKind.DigestLen());
    }
    if PositionOf(q, c) == Some(oid) {
      DigestOfFromDigest(c.position);
      assert c == CursorAt(q, oid);
    }
  }

  /** `decode_resume`: accepts exactly the encoded positions and answers the encoded one. */
  method DecodeResume(q: Query, cursor: Option<seq<byte>>) returns (r: Result<Option<Oid>, LogError>)
    ensures r.Ok? ==> forall resume :: ResumesAt(q, cursor, resume) <==> resume == r.value
    ensures r.Err? ==> r.error == InvalidCursor && forall resume :: !ResumesAt(q, cursor, resume)
  {
    hide Carries, Encoded, CursorAt, PositionOf, Query.Expected, Query.IsId, Trailer;
    if cursor.None? { return Ok(None); }
    var decoded := Decode(cursor.value, q.Expected());
    if decoded.Err? { return Err(InvalidCursor); }
    var position := PositionOf(q, decoded.value);
    forall oid: Oid
      ensures Carries(cursor.value, q.Expected(), CursorAt(q, oid)) && q.IsId(oid) <==> position == Some(oid)
    {
      CarriedPosition(q, cursor.value, decoded.value, oid);
    }
    if position.None? { return Err(InvalidCursor); }
    return Ok(position);
  }

  lemma CursorFits(q: Query, oid: Oid)
    requires q.WellFormed()
    ensures |Encoded(CursorAt(q, oid))| <= MAX_CURSOR_BYTES
  {
    hide Digest, Trailer, LeBytes;
  }

  /** The cursor of a commit is accepted and resumes there only. */
  lemma EncodedResumes(q: Query, oid: Oid)
    requires q.WellFormed() && q.IsId(oid)
    ensures forall resume :: ResumesAt(q, Some(Encoded(CursorAt(q, oid))), resume) <==> resume == Some(oid)
  {
    hide Encoded, Digest, FromDigest, Pow256;
    var bytes := Encoded(CursorAt(q, oid));
    CursorFits(q, oid);
    assert Carries(bytes, q.Expected(), CursorAt(q, oid));
    forall resume | ResumesAt(q, Some(bytes), resume) ensures resume == Some(oid) {
      CarriedPosition(q, bytes, CursorAt(q, oid), oid);
      CarriedPosition(q, bytes, CursorAt(q, oid), resume.value);
    }
  }

  // ----- pages with cursor bytes

  datatype BytePage = BytePage(commits: seq<Walked>, next: Option<seq<byte>>, truncated: bool)

  /** A page with its position encoded. */
  function WithCursor(q: Query, page: LogPage): BytePage {
    BytePage(page.commits, if page.next.None? then None else Some(Encoded(CursorAt(q, page.next.value))), page.truncated)
  }

  /** What a call with cursor bytes answers when the pages are cut from `walked`. */
  ghost predicate Answers(
    q: Query, walked: seq<Walked>, opts: LogOptions, limit: nat, cursor: Option<seq<byte>>, r: Result<BytePage, LogError>)
    requires limit > 0
  {
    && (forall resume :: ResumesAt(q, cursor, resume) ==>
          if ResumePlace(walked, resume) <= |walked| then r == Ok(WithCursor(q, LogPageOf(walked, opts, resume, limit)))
          else r == Err(InvalidCursor))
    && ((forall resume :: !ResumesAt(q, cursor, resume)) ==> r == Err(InvalidCursor))
  }

  /** `log` from cursor bytes to cursor bytes. */
  method LogBytes(
    q: Query, store: Graph, start: Oid, shallow: set<Oid>, opts: LogOptions, limit: nat, cursor: Option<seq<byte>>)
    returns (r: Result<BytePage, LogError>)
    requires q.WellFormed()
    ensures limit == 0 <==> r == Err(InvalidArgument)
    ensures limit > 0 && Complete(View(store, opts, shallow), start) ==>
      Answers(q, WalkOutput(opts.order, View(store, opts, shallow), start), opts, limit, cursor, r)
  {
    hide Complete, WalkOutput, View, LogPageOf, ResumePlace, ResumesAt, Encoded, CursorAt;
    if limit == 0 { return Err(InvalidArgument); }
    var resume := DecodeResume(q, cursor);
    if resume.Err? { return Err(InvalidCursor); }
    assert ResumesAt(q, cursor, resume.value);
    var page := Log(store, start, shallow, opts, limit, resume.value);
    if page.Err? { return Err(page.error); }
    var encoded := EncodePage(q, page.value);
    return Ok(encoded);
  }

  /** Encoding the position of a page; the cursor is always within its size limit. */
  method EncodePage(q: Query, page: LogPage) returns (r: BytePage)
    requires q.WellFormed()
    ensures r == WithCursor(q, page)
    ensures r.next.Some? ==> |r.next.value| <= MAX_CURSOR_BYTES
  {
    hide Encoded, CursorAt;
    if page.next.None? { return BytePage(page.commits, None, page.truncated); }
    CursorFits(q, page.next.value);
    var encoded := Encode(CursorAt(q, page.next.value));
    return BytePage(page.commits, Some(encoded), page.truncated);
  }

  /** `history` from cursor bytes to cursor bytes. */
  method HistoryBytes(
    q: Query, store: Graph, start: Oid, shallow: set<Oid>, path: PathHistory.Path, compare: PathHistory.Comparison, limit: nat,
    cursor: Option<seq<byte>>) returns (r: Result<BytePage, LogError>)
    requires q.WellFormed()
    ensures limit == 0 <==> r == Err(InvalidArgument)
    ensures limit > 0 && Complete(View(store, PathHistory.WALK_OPTIONS, shallow), start) ==>
      Answers(q, HistoryOf(store, start, shallow, path, compare), PathHistory.WALK_OPTIONS, limit, cursor, r)
  {
    hide Complete, WalkOutput, View, LogPageOf, ResumePlace, ResumesAt, Encoded, CursorAt, PathHistory.Changed;
    if limit == 0 { return Err(InvalidArgument); }
    var resume := DecodeResume(q, cursor);
    if resume.Err? { return Err(InvalidCursor); }
    assert ResumesAt(q, cursor, resume.value);
    var page := PathHistory.History(store, start, shallow, path, compare, limit, resume.value);
    if page.Err? { return Err(page.error); }
    var encoded := EncodePage(q, page.value);
    return Ok(encoded);
  }

  /** The unpaged history. */
  ghost function HistoryOf(
    store: Graph, start: Oid, shallow: set<Oid>, path: PathHistory.Path, compare: PathHistory.Comparison): seq<Walked>
    requires Complete(View(store, PathHistory.WALK_OPTIONS, shallow), start)
  {
    PathHistory.Changed(WalkOutput(Chronological, View(store, PathHistory.WALK_OPTIONS, shallow), start), path, compare)
  }

  // ----- following cursor bytes

  /** `cursor` resumes at one position only, behind the first `k` matches. */
  ghost predicate Owes(q: Query, walked: seq<Walked>, opts: LogOptions, cursor: Option<seq<byte>>, resume: Option<Oid>, k: nat) {
    && (forall r :: ResumesAt(q, cursor, r) <==> r == resume)
    && k <= |Matching(walked, opts)| && ResumePlace(walked, resume) <= |walked|
    && Matching(walked[ResumePlace(walked, resume)..], opts) == Matching(walked, opts)[k..]
  }

  lemma NoCursorOwesAll(q: Query, walked: seq<Walked>, opts: LogOptions)
    ensures Owes(q, walked, opts, None, None, 0)
  {
    assert walked[0..] == walked && Matching(walked, opts)[0..] == Matching(walked, opts);
  }

  /** What a page read through an accepted cursor is, and what its own cursor owes. */
  lemma PageOwes(
    q: Query, walked: seq<Walked>, opts: LogOptions, cursor: Option<seq<byte>>, resume: Option<Oid>, k: nat, limit: nat,
    r: Result<BytePage, LogError>) returns (next: Option<Oid>)
    requires q.WellFormed() && DistinctIds(walked) && (forall w :: w in walked ==> q.IsId(w.id)) && limit > 0
    requires Owes(q, walked, opts, cursor, resume, k) && Answers(q, walked, opts, limit, cursor, r)
    ensures r.Ok?
    ensures
      var all := Matching(walked, opts);
      if r.value.truncated then
        && |r.value.commits| == limit && k + limit < |all| && r.value.commits == all[k..k + limit]
        && Owes(q, walked, opts, r.value.next, next, k + limit)
      else r.value.commits == all[k..] && |all| - k <= limit
  {
    hide Matching, PlaceAfter, ResumesAt, Encoded, CursorAt, Query.IsId, LogPageOf, ResumePlace, DistinctIds;
    var all := Matching(walked, opts);
    var page := LogPageOf(walked, opts, resume, limit);
    LogPageIs(walked, opts, resume, limit);
    assert ResumesAt(q, cursor, resume);
    assert r == Ok(WithCursor(q, page));
    next := page.next;
    if page.truncated {
      var last := all[k..][limit - 1];
      assert last == all[k + limit - 1] && next == Some(last.id);
      MatchingWithin(walked, opts);
      assert last in all;
      EncodedResumes(q, last.id);
      AfterMatch(walked, opts, k + limit - 1);
    }
  }

  lemma NoLimits()
    ensures Total([]) == 0
  {
  }

  lemma {:induction false} TotalSnoc(limits: seq<nat>, i: nat)
    requires i < |limits|
    ensures Total(limits[..i + 1]) == Total(limits[..i]) + limits[i]
  {
    if i > 0 {
      TotalSnoc(limits[1..], i - 1);
      assert limits[1..][..i] == limits[..i + 1][1..] && limits[1..][..i - 1] == limits[..i][1..];
    } else {
      assert limits[..1] == [limits[0]] && [limits[0]][1..] == [] && limits[..0] == [];
    }
  }

  /** Commits of a walk are commits of the store. */
  lemma LogIds(q: Query, store: Graph, start: Oid, shallow: set<Oid>, opts: LogOptions)
    requires Complete(View(store, opts, shallow), start) && forall id :: id in store ==> q.IsId(id)
    ensures
      var walked := WalkOutput(opts.order, View(store, opts, shallow), start);
      DistinctIds(walked) && forall w :: w in walked ==> q.IsId(w.id)
  {
    hide Complete, WalkOutput, DistinctIds, Query.IsId;
    WalkOutputOnce(opts.order, View(store, opts, shallow), start);
  }

  lemma HistoryIds(q: Query, store: Graph, start: Oid, shallow: set<Oid>, path: PathHistory.Path, compare: PathHistory.Comparison)
    requires Complete(View(store, PathHistory.WALK_OPTIONS, shallow), start) && forall id :: id in store ==> q.IsId(id)
    ensures
      var all := HistoryOf(store, start, shallow, path, compare);
      DistinctIds(all) && (forall w :: w in all ==> q.IsId(w.id)) && Matching(all, PathHistory.WALK_OPTIONS) == all
  {
    hide Complete, WalkOutput, DistinctIds, Query.IsId, View, PathHistory.Changed, Matching;
    LogIds(q, store, start, shallow, PathHistory.WALK_OPTIONS);
    var walked := WalkOutput(Chronological, View(store, PathHistory.WALK_OPTIONS, shallow), start);
    PathHistory.ChangedWithin(walked, path, compare);
    PathHistory.MatchingAll(PathHistory.Changed(walked, path, compare));
  }

  /** What following cursors has read after `i` calls. */
  ghost predicate ReadSoFar(all: seq<Walked>, limits: seq<nat>, i: nat, gathered: seq<Walked>) {
    i <= |limits| && gathered <= all && |gathered| == Total(limits[..i]) >= i
  }

  lemma NothingRead(all: seq<Walked>, limits: seq<nat>)
    ensures ReadSoFar(all, limits, 0, [])
  {
    assert limits[..0] == [];
  }

  /** One more page. */
  lemma PageRead(all: seq<Walked>, limits: seq<nat>, i: nat, gathered: seq<Walked>, page: seq<Walked>, truncated: bool)
    requires ReadSoFar(all, limits, i, gathered) && i < |limits| && limits[i] > 0
    requires
      var k := |gathered|;
      if truncated then |page| == limits[i] && k + limits[i] <= |all| && page == all[k..k + limits[i]] else page == all[k..]
    ensures truncated ==> ReadSoFar(all, limits, i + 1, gathered + page)
    ensures !truncated ==> gathered + page == all
  {
    var k := |gathered|;
    TotalSnoc(limits, i);
    assert gathered == all[..k];
    if truncated {
      assert gathered + page == all[..k + limits[i]];
    }
  }

  /**
   * Following log cursors as bytes, with any positive limits: no call fails,
   * every page before the last is full, and what is read is the unpaged log.
   */
  method FollowLog(q: Query, store: Graph, start: Oid, shallow: set<Oid>, opts: LogOptions, limits: seq<nat>)
    returns (gathered: seq<Walked>, finished: bool)
    requires q.WellFormed() && Complete(View(store, opts, shallow), start)
    requires (forall id :: id in store ==> q.IsId(id)) && forall i :: 0 <= i < |limits| ==> limits[i] > 0
    ensures
      var all := Matching(WalkOutput(opts.order, View(store, opts, shallow), start), opts);
      if finished then gathered == all else ReadSoFar(all, limits, |limits|, gathered)
  {
    hide Complete, WalkOutput, View, Matching, Answers, Owes, DistinctIds, Total, Query.IsId, ReadSoFar;
    ghost var walked := WalkOutput(opts.order, View(store, opts, shallow), start);
    ghost var all := Matching(walked, opts);
    LogIds(q, store, start, shallow, opts);
    gathered, finished := [], false;
    var cursor: Option<seq<byte>> := None;
    ghost var resume: Option<Oid> := None;
    NoCursorOwesAll(q, walked, opts);
    NothingRead(all, limits);
    for i := 0 to |limits|
      invariant !finished && ReadSoFar(all, limits, i, gathered) && Owes(q, walked, opts, cursor, resume, |gathered|)
    {
      var r := LogBytes(q, store, start, shallow, opts, limits[i], cursor);
      ghost var next := PageOwes(q, walked, opts, cursor, resume, |gathered|, limits[i], r);
      PageRead(all, limits, i, gathered, r.value.commits, r.value.truncated);
      gathered := gathered + r.value.commits;
      if !r.value.truncated { return gathered, true; }
      cursor, resume := r.value.next, next;
    }
  }

  /** The same for path history. */
  method FollowHistory(
    q: Query, store: Graph, start: Oid, shallow: set<Oid>, path: PathHistory.Path, compare: PathHistory.Comparison, limits: seq<nat>)
    returns (gathered: seq<Walked>, finished: bool)
    requires q.WellFormed() && Complete(View(store, PathHistory.WALK_OPTIONS, shallow), start)
    requires (forall id :: id in store ==> q.IsId(id)) && forall i :: 0 <= i < |limits| ==> limits[i] > 0
    ensures
      var all := HistoryOf(store, start, shallow, path, compare);
      if finished then gathered == all else ReadSoFar(all, limits, |limits|, gathered)
  {
    hide Complete, WalkOutput, View, Matching, Answers, Owes, DistinctIds, Total, Query.IsId, ReadSoFar, HistoryOf;
    ghost var all := HistoryOf(store, start, shallow, path, compare);
    HistoryIds(q, store, start, shallow, path, compare);
    gathered, finished := [], false;
    var cursor: Option<seq<byte>> := None;
    ghost var resume: Option<Oid> := None;
    NoCursorOwesAll(q, all, PathHistory.WALK_OPTIONS);
    NothingRead(all, limits);
    for i := 0 to |limits|
      invariant !finished && ReadSoFar(all, limits, i, gathered)
      invariant Owes(q, all, PathHistory.WALK_OPTIONS, cursor, resume, |gathered|)
    {
      var r := HistoryBytes(q, store, start, shallow, path, compare, limits[i], cursor);
      ghost var next := PageOwes(q, all, PathHistory.WALK_OPTIONS, cursor, resume, |gathered|, limits[i], r);
      PageRead(all, limits, i, gathered, r.value.commits, r.value.truncated);
      gathered := gathered + r.value.commits;
      if !r.value.truncated { return gathered, true; }
      cursor, resume := r.value.next, next;
    }
  }
}
