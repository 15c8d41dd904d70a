/** Paged content search by replay (crates/gitility-core/src/search.rs). */
module Searches {
  import opened Basics
  import opened Trees
  import opened BlobWalks
  import opened Cursors
  import opened Recency
  import opened Lru

  const OPERATION_SEARCH: byte := 2

  /** A matching line; `bytes` is what it adds to the result beside its path. */
  datatype Line = Line(number: nat, column: nat, bytes: nat)

  datatype Scan = Lines(lines: seq<Line>) | Skipped

  /** Scanning a blob, a function of its ID because objects never change. */
  type Scanner = Oid -> Scan

  datatype Match = Match(path: Path, blob: Oid, ordinal: nat, line: Line)

  datatype Position = Position(path: Path, ordinal: nat)

  datatype SearchPage = SearchPage(matches: seq<Match>, next: Option<seq<byte>>, truncated: bool)

  datatype SearchError = InvalidPath | InvalidArgument | InvalidCursor | MissingObject | BudgetExceeded | ResultTooLarge

  /** What a search cursor is bound to. */
  datatype Query = Query(hashKind: HashKind, digest: seq<byte>, fingerprint: u64, scope: Path) {
    function Expected(): CursorExpected { CursorExpected(hashKind, digest, OPERATION_SEARCH, fingerprint) }

    predicate WellFormed() { |digest| == hashKind.DigestLen() }
  }

  function Pos(m: Match): Position {
    Position(m.path, m.ordinal)
  }

  /** `payload_bytes`. */
  function ItemBytes(m: Match): u64 {
    Min(|m.path| + m.line.bytes, U64_MAX)
  }

  function Total(ms: seq<Match>): nat {
    if ms == [] then 0 else Total(ms[..|ms| - 1]) + ItemBytes(ms[|ms| - 1])
  }

  // ----- the unbounded search

  function HitsOf(scan: Scan, path: Path, oid: Oid): (r: seq<Match>)
    ensures |r| == if scan.Lines? then |scan.lines| else 0
    ensures forall i :: 0 <= i < |r| ==> r[i] == Match(path, oid, i, scan.lines[i])
  {
    if scan.Skipped? then [] else seq(|scan.lines|, i requires 0 <= i < |scan.lines| => Match(path, oid, i, scan.lines[i]))
  }

  function EventHits(scanner: Scanner, event: Event): seq<Match> {
    if event.Found? then HitsOf(scanner(event.oid), event.path, event.oid) else []
  }

  /** Every match under a list of walk events, in walk and line order. */
  function Hits(scanner: Scanner, events: seq<Event>): seq<Match> {
    if events == [] then [] else EventHits(scanner, events[0]) + Hits(scanner, events[1..])
  }

  lemma HitsUnfold(scanner: Scanner, events: seq<Event>)
    requires events != []
    ensures Hits(scanner, events) == EventHits(scanner, events[0]) + Hits(scanner, events[1..])
  {
  }

  /** The place after a position, or the length plus one when no match is there. */
  function PlaceAfter(hits: seq<Match>, pos: Position): (k: nat)
    ensures 0 < k <= |hits| + 1
    ensures k <= |hits| ==> Pos(hits[k - 1]) == pos
    ensures forall i :: 0 <= i < k - 1 ==> Pos(hits[i]) != pos
  {
    if hits == [] || Pos(hits[0]) == pos then 1
    else
      var k := PlaceAfter(hits[1..], pos);
      assert forall i :: 1 <= i < |hits| ==> hits[i] == hits[1..][i - 1];
      k + 1
  }

  function Place(hits: seq<Match>, resume: Option<Position>): nat {
    if resume.None? then 0 else PlaceAfter(hits, resume.value)
  }

  predicate Placed(hits: seq<Match>, resume: Option<Position>) {
    Place(hits, resume) <= |hits|
  }

  /** The matches a resumed search still owes. */
  function LeftAfter(hits: seq<Match>, resume: Option<Position>): seq<Match>
    requires Placed(hits, resume)
  {
    hits[Place(hits, resume)..]
  }

  // ----- cursors

  function CursorAt(q: Query, pos: Position): Cursor {
    Cursor(q.hashKind, q.digest, OPERATION_SEARCH, q.fingerprint, [], LeBytes(pos.ordinal, 4) + pos.path)
  }

  predicate InScope(scope: Path, path: Path) {
    scope == [] || (scope <= path && |path| > |scope| + 1 && path[|scope|] == SLASH)
  }

  /** `cursor` is the encoding of `resume`, and that position is acceptable. */
  ghost predicate ResumesAt(q: Query, cursor: Option<seq<byte>>, resume: Option<Position>) {
    match (cursor, resume)
    case (None, None) => true
    case (Some(bytes), Some(pos)) =>
      && Carries(bytes, q.Expected(), CursorAt(q, pos)) && pos.ordinal <= U32_MAX
      && pos.path != [] && ValidPath(pos.path) && InScope(q.scope, pos.path)
    case _ => false
  }

  lemma PositionDecodes(pos: Position)
    requires pos.ordinal <= U32_MAX
    ensures
      var bytes := LeBytes(pos.ordinal, 4) + pos.path;
      FromLe(bytes[..4]) == pos.ordinal && bytes[4..] == pos.path
  {
    Pow256Widths();
    FromLeLeBytes(pos.ordinal, 4);
    assert (LeBytes(pos.ordinal, 4) + pos.path)[..4] == LeBytes(pos.ordinal, 4);
  }

  lemma PositionEncodes(bytes: seq<byte>)
    requires |bytes| >= 4
    ensures LeBytes(FromLe(bytes[..4]), 4) + bytes[4..] == bytes && FromLe(bytes[..4]) <= U32_MAX
  {
    Pow256Widths();
    LeBytesFromLe(bytes[..4]);
    assert bytes == bytes[..4] + bytes[4..];
  }

  /** A cursor resumes at one position only. */
  lemma ResumeUnique(q: Query, cursor: Option<seq<byte>>, a: Option<Position>, b: Option<Position>)
    requires ResumesAt(q, cursor, a) && ResumesAt(q, cursor, b)
    ensures a == b
  {
    hide Carries, ValidPath;
    if cursor.Some? {
      CarriedUnique(cursor.value, q.Expected(), CursorAt(q, a.value), CursorAt(q, b.value));
      PositionDecodes(a.value);
      PositionDecodes(b.value);
    }
  }

  /** The position fields of a decoded cursor. */
  function PositionOf(c: Cursor): Option<Position> {
    if c.generation != [] || |c.position| < 4 then None else Some(Position(c.position[4..], FromLe(c.position[..4])))
  }

  lemma CarriedPosition(q: Query, bytes: seq<byte>, c: Cursor, pos: Position)
    requires Carries(bytes, q.Expected(), c)
    ensures Carries(bytes, q.Expected(), CursorAt(q, pos)) && pos.ordinal <= U32_MAX <==> PositionOf(c) == Some(pos)
  {
    hide Encoded, LeBytes, FromLe;
    if Carries(bytes, q.Expected(), CursorAt(q, pos)) && pos.ordinal <= U32_MAX {
      CarriedUnique(bytes, q.Expected(), CursorAt(q, pos), c);
      PositionDecodes(pos);
    }
    if PositionOf(c) == Some(pos) {
      PositionEncodes(c.position);
      assert c == CursorAt(q, pos);
    }
  }

  /** `decode_resume`: accepts exactly the acceptable positions and answers the encoded one. */
  method DecodeResume(q: Query, cursor: Option<seq<byte>>) returns (r: Result<Option<Position>, SearchError>)
    ensures r.Ok? ==> ResumesAt(q, cursor, r.value)
    ensures r.Err? ==> r.error == InvalidCursor && forall resume :: !ResumesAt(q, cursor, resume)
  {
    hide Carries, ValidPath, InScope, Encoded, CursorAt, PositionOf, Query.Expected, Trailer;
    if cursor.None? { return Ok(None); }
    var decoded := Decode(cursor.value, q.Expected());
    if decoded.Err? { return Err(InvalidCursor); }
    var position := PositionOf(decoded.value);
    forall pos
      ensures Carries(cursor.value, q.Expected(), CursorAt(q, pos)) && pos.ordinal <= U32_MAX <==> position == Some(pos)
    {
      CarriedPosition(q, cursor.value, decoded.value, pos);
    }
    if position.None? { return Err(InvalidCursor); }
    var path := position.value.path;
    if path == [] || !ValidPath(path) || !InScope(q.scope, path) { return Err(InvalidCursor); }
    return Ok(position);
  }

  // ----- what a page must be

  /** Beyond a byte ceiling; a ceiling of `u64::MAX` never binds. */
  predicate Over(bytes: nat, ceiling: u64) {
    ceiling < U64_MAX && bytes > ceiling
  }

  /** The length of a match's cursor. */
  function CursorLen(q: Query, m: Match): nat {
    23 + |q.digest| + |m.path|
  }

  lemma CursorLenIs(q: Query, m: Match)
    ensures |Encoded(CursorAt(q, Pos(m)))| == CursorLen(q, m)
  {
  }

  ghost predicate LeadsTo(q: Query, next: Option<seq<byte>>, m: Match) {
    next == Some(Encoded(CursorAt(q, Pos(m))))
  }

  /** `k` matches and their cursor make an acceptable truncated page. */
  predicate Fits(q: Query, left: seq<Match>, k: nat, limit: nat, ceiling: u64) {
    && 1 <= k <= |left| && k <= limit
    && CursorLen(q, left[k - 1]) <= MAX_CURSOR_BYTES
    && ((k == 1 && Over(Total(left[..1]), ceiling)) || !Over(Total(left[..k]) + CursorLen(q, left[k - 1]), ceiling))
  }

  /** More is left than one page may hold. */
  predicate Overflows(left: seq<Match>, limit: nat, ceiling: u64) {
    |left| > limit || Over(Total(left), ceiling)
  }

  /** The one page a search may answer when `left` is still owed. */
  ghost predicate IsPage(q: Query, left: seq<Match>, limit: nat, ceiling: u64, page: SearchPage) {
    var k := |page.matches|;
    && page.matches <= left
    && (page.truncated <==> Overflows(left, limit, ceiling))
    && (!page.truncated ==> page.matches == left && page.next.None?)
    && (page.truncated ==>
          && Fits(q, left, k, limit, ceiling)
          && (forall j: nat :: Fits(q, left, j, limit, ceiling) ==> j <= k)
          && LeadsTo(q, page.next, left[k - 1]))
  }

  lemma {:induction false} TotalGrows(ms: seq<Match>, j: nat, k: nat)
    requires j <= k <= |ms|
    ensures Total(ms[..j]) <= Total(ms[..k])
    decreases k - j
  {
    if j < k {
      TotalGrows(ms, j, k - 1);
      assert ms[..k][..k - 1] == ms[..k - 1];
    }
  }

  lemma TotalSnoc(ms: seq<Match>, m: Match)
    ensures Total(ms + [m]) == Total(ms) + ItemBytes(m)
  {
    assert (ms + [m])[..|ms|] == ms;
  }

  function PathBytes(ms: seq<Match>): nat {
    if ms == [] then 0 else PathBytes(ms[..|ms| - 1]) + |ms[|ms| - 1].path|
  }

  function LineBytes(ms: seq<Match>): nat {
    if ms == [] then 0 else LineBytes(ms[..|ms| - 1]) + ms[|ms| - 1].line.bytes
  }

  /** Below the largest count no match is cut short in the sum. */
  lemma {:induction false} TotalIsPathsAndLines(ms: seq<Match>)
    requires Total(ms) < U64_MAX
    ensures Total(ms) == PathBytes(ms) + LineBytes(ms)
  {
    if ms != [] {
      TotalIsPathsAndLines(ms[..|ms| - 1]);
    }
  }

  /**
   * A page stays within its limit and, paths, lines and cursor together, within
   * its ceiling, unless it is one match that is too large by itself.
   */
  lemma PageWithinCeiling(q: Query, left: seq<Match>, limit: nat, ceiling: u64, page: SearchPage)
    requires IsPage(q, left, limit, ceiling, page) && ceiling < U64_MAX
    ensures |page.matches| <= limit
    ensures
      var cursor := if page.next.Some? then |page.next.value| else 0;
      || PathBytes(page.matches) + LineBytes(page.matches) + cursor <= ceiling
      || (|page.matches| == 1 && |page.matches[0].path| + page.matches[0].line.bytes > ceiling)
  {
    hide Total, PathBytes, LineBytes, Encoded, CursorAt;
    var k := |page.matches|;
    assert page.matches == left[..k];
    if page.truncated {
      CursorLenIs(q, left[k - 1]);
    } else {
      assert left[..|left|] == left;
    }
    if k == 1 {
      TotalOne(page.matches);
    }
    if Total(page.matches) <= ceiling {
      TotalIsPathsAndLines(page.matches);
    }
  }

  lemma TotalOne(ms: seq<Match>)
    requires |ms| == 1
    ensures Total(ms) == ItemBytes(ms[0])
  {
    assert ms[..0] == [];
  }

  // ----- collecting matches

  /** The vectors `matches` and `positions` and the running byte count. */
  datatype Draft = Draft(matches: seq<Match>, positions: seq<Position>, payloadBytes: u64)

  ghost predicate Consistent(d: Draft, ceiling: u64) {
    && |d.positions| == |d.matches|
    && (forall i :: 0 <= i < |d.matches| ==> d.positions[i] == Pos(d.matches[i]))
    && (ceiling < U64_MAX ==> d.payloadBytes == Total(d.matches))
  }

  /** Collection stopped after `k` of the matches in `left`. */
  ghost predicate StopsAt(left: seq<Match>, k: nat, limit: nat, ceiling: u64) {
    && 1 <= k <= |left| && k <= limit
    && (k == 1 || !Over(Total(left[..k]), ceiling))
    && (|| (k == limit && k < |left|)
        || (k < |left| && Over(Total(left[..k + 1]), ceiling))
        || (k == 1 && Over(Total(left[..1]), ceiling)))
  }

  datatype EmitOutcome = Complete | Stopped | BadOrdinal

  function Push(d: Draft, m: Match): Draft {
    Draft(d.matches + [m], d.positions + [Pos(m)], SaturatingAdd(d.payloadBytes, ItemBytes(m)))
  }

  lemma PushConsistent(d: Draft, m: Match, ceiling: u64)
    requires Consistent(d, ceiling) && (d.matches == [] || !Over(Total(d.matches + [m]), ceiling))
    ensures Consistent(Push(d, m), ceiling)
  {
    TotalSnoc(d.matches, m);
  }

  /** `emit_matches`. */
  method EmitMatches(
    path: Path, oid: Oid, lines: seq<Line>, start: Option<nat>, limit: nat, ceiling: u64, d0: Draft, ghost left: seq<Match>)
    returns (d: Draft, outcome: EmitOutcome)
    requires limit > 0 && |lines| < U32_MAX
    requires Consistent(d0, ceiling) && |d0.matches| <= limit && !Over(Total(d0.matches), ceiling)
    requires start.Some? ==> 0 < start.value
    requires start.None? || start.value <= |lines| ==>
      d0.matches + HitsOf(Lines(lines), path, oid)[if start.Some? then start.value else 0..] <= left
    ensures outcome.BadOrdinal? <==> start.Some? && start.value > |lines|
    ensures Consistent(d, ceiling)
    ensures outcome.Complete? ==>
      && d.matches == d0.matches + HitsOf(Lines(lines), path, oid)[if start.Some? then start.value else 0..]
      && |d.matches| <= limit && !Over(Total(d.matches), ceiling)
    ensures outcome.Stopped? ==> d.matches <= left && StopsAt(left, |d.matches|, limit, ceiling)
  {
    hide Total, Consistent, HitsOf;
    d := d0;
    if start.Some? && start.value - 1 >= |lines| { return d, BadOrdinal; }
    var first := if start.Some? then start.value else 0;
    ghost var hits := HitsOf(Lines(lines), path, oid);
    assert d0.matches + hits[first..first] == d0.matches;
    var ordinal := first;
    while ordinal < |lines|
      invariant first <= ordinal <= |lines|
      invariant d.matches == d0.matches + hits[first..ordinal]
      invariant Consistent(d, ceiling) && |d.matches| <= limit && !Over(Total(d.matches), ceiling)
    {
      NextInLeft(left, d0.matches, hits, first, ordinal);
      if |d.matches| == limit { return d, Stopped; }
      var item := Match(path, oid, ordinal, lines[ordinal]);
      assert hits[ordinal] == item;
      var itemBytes := ItemBytes(item);
      TotalSnoc(d.matches, item);
      PayloadIs(d, ceiling);
      if SaturatingAdd(d.payloadBytes, itemBytes) > ceiling {
        if d.matches == [] {
          PushConsistent(d, item, ceiling);
          d := Push(d, item);
        }
        return d, Stopped;
      }
      PushConsistent(d, item, ceiling);
      d := Push(d, item);
      ordinal := ordinal + 1;
    }
    assert hits[first..|lines|] == hits[first..];
    return d, Complete;
  }

  /** The next match is the next one owed. */
  lemma NextInLeft(left: seq<Match>, before: seq<Match>, hits: seq<Match>, first: nat, ordinal: nat)
    requires first <= ordinal < |hits| && before + hits[first..] <= left
    ensures
      var done, more := before + hits[first..ordinal], before + hits[first..ordinal + 1];
      && more == done + [hits[ordinal]] && more <= left && done <= left && |done| < |left|
      && left[..|done|] == done && left[..|done| + 1] == more
  {
    assert hits[first..][..ordinal - first] == hits[first..ordinal];
    assert hits[first..][..ordinal + 1 - first] == hits[first..ordinal + 1];
    assert hits[first..ordinal + 1] == hits[first..ordinal] + [hits[ordinal]];
  }

  lemma PayloadIs(d: Draft, ceiling: u64)
    requires Consistent(d, ceiling)
    ensures ceiling < U64_MAX ==> d.payloadBytes == Total(d.matches)
  {
  }

  // ----- making room for the cursor

  lemma StopIsOverflow(left: seq<Match>, k: nat, limit: nat, ceiling: u64)
    requires StopsAt(left, k, limit, ceiling)
    ensures Overflows(left, limit, ceiling)
  {
    hide Total;
    assert left[..|left|] == left;
    TotalGrows(left, 1, |left|);
    TotalGrows(left, Min(k + 1, |left|), |left|);
  }

  /** No acceptable page goes past the stop. */
  lemma FitsBeforeStop(q: Query, left: seq<Match>, k: nat, limit: nat, ceiling: u64, j: nat)
    requires StopsAt(left, k, limit, ceiling) && Fits(q, left, j, limit, ceiling)
    ensures j <= k
  {
    hide Total, Encoded, CursorAt, LeBytes;
    if j > k {
      TotalGrows(left, k + 1, j);
      TotalGrows(left, 1, j);
    }
  }

  function Pop(d: Draft): Draft
    requires d.matches != [] && d.positions != []
  {
    var n := |d.matches| - 1;
    Draft(d.matches[..n], d.positions[..|d.positions| - 1], SaturatingSub(d.payloadBytes, ItemBytes(d.matches[n])))
  }

  lemma PopConsistent(d: Draft, ceiling: u64)
    requires Consistent(d, ceiling) && d.matches != []
    ensures Consistent(Pop(d), ceiling)
  {
  }

  /** `fit_cursor`: the longest prefix of the draft that fits with its cursor. */
  method FitCursor(q: Query, limit: nat, ceiling: u64, d0: Draft, ghost left: seq<Match>) returns (r: Result<(Draft, seq<byte>), SearchError>)
    requires Consistent(d0, ceiling) && d0.matches <= left && StopsAt(left, |d0.matches|, limit, ceiling)
    ensures r.Ok? ==>
      var k := |r.value.0.matches|;
      && r.value.0.matches <= left && Fits(q, left, k, limit, ceiling)
      && (forall j: nat :: Fits(q, left, j, limit, ceiling) ==> j <= k)
      && LeadsTo(q, Some(r.value.1), left[k - 1])
    ensures r.Err? ==> forall j: nat :: !Fits(q, left, j, limit, ceiling)
    ensures r.Err? ==> r.error == if CursorLen(q, left[0]) > MAX_CURSOR_BYTES then ResultTooLarge else BudgetExceeded
  {
    hide Total, Consistent, Encoded, CursorAt, LeBytes;
    var d := d0;
    forall j: nat | Fits(q, left, j, limit, ceiling) ensures j <= |d.matches| {
      FitsBeforeStop(q, left, |d.matches|, limit, ceiling, j);
    }
    while true
      invariant 1 <= |d.matches| <= |left| && |d.matches| <= limit && d.matches == left[..|d.matches|]
      invariant Consistent(d, ceiling)
      invariant |d.matches| == 1 || !Over(Total(d.matches), ceiling)
      invariant forall j: nat :: Fits(q, left, j, limit, ceiling) ==> j <= |d.matches|
      decreases |d.matches|
    {
      var n := |d.matches|;
      PositionsAre(d, ceiling);
      PayloadIs(d, ceiling);
      var pos := d.positions[|d.positions| - 1];
      var encoded := Encode(CursorAt(q, pos));
      ghost var len := CursorLen(q, left[n - 1]);
      CursorLenIs(q, left[n - 1]);
      assert |encoded| == len;
      if |encoded| > MAX_CURSOR_BYTES {
        assert !Fits(q, left, n, limit, ceiling);
        if n == 1 { return Err(ResultTooLarge); }
        assert left[..n][..n - 1] == left[..n - 1];
        TotalGrows(left, n - 1, n);
        PopConsistent(d, ceiling);
        d := Pop(d);
        continue;
      }
      var firstItemAloneExceeds := n == 1 && d.payloadBytes > ceiling;
      if firstItemAloneExceeds || SaturatingAdd(d.payloadBytes, |encoded|) <= ceiling {
        assert Fits(q, left, n, limit, ceiling);
        return Ok((d, encoded));
      }
      assert !Fits(q, left, n, limit, ceiling);
      if n == 1 { return Err(BudgetExceeded); }
      assert left[..n][..n - 1] == left[..n - 1];
      TotalGrows(left, n - 1, n);
      PopConsistent(d, ceiling);
      d := Pop(d);
    }
  }

  lemma PositionsAre(d: Draft, ceiling: u64)
    requires Consistent(d, ceiling)
    ensures |d.positions| == |d.matches| && forall i :: 0 <= i < |d.matches| ==> d.positions[i] == Pos(d.matches[i])
  {
  }

  // ----- the scan cache

  /** Every cached scan is the scan of its blob. */
  ghost predicate Faithful(r: Recency<Oid, Scan>, scanner: Scanner) {
    forall e :: e in r.entries ==> e.value == scanner(e.key)
  }

  function CacheWeight(scan: Scan): u64 {
    if scan.Lines? then Max(1, Min(|scan.lines|, U64_MAX)) else 1
  }

  lemma {:induction false} FaithfulRoom(r: Recency<Oid, Scan>, weight: u64, scanner: Scanner)
    requires Faithful(r, scanner)
    ensures Faithful(MadeRoom(r, weight).0, scanner)
    decreases |r.entries|
  {
    if r.entries != [] {
      FaithfulRoom(WithoutAt(r, 0), weight, scanner);
    }
  }

  lemma FaithfulInsert(r: Recency<Oid, Scan>, oid: Oid, weight: u64, scanner: Scanner)
    requires Faithful(r, scanner)
    ensures Faithful(Inserted(r, oid, scanner(oid), weight).0, scanner)
  {
    hide MadeRoom;
    FaithfulRoom(Removed(r, oid), weight, scanner);
  }

  lemma FaithfulGet(r: Recency<Oid, Scan>, oid: Oid, scanner: Scanner)
    requires Faithful(r, scanner)
    ensures Faithful(Touched(r, oid), scanner)
    ensures Lookup(r, oid).Some? ==> Lookup(r, oid).value == scanner(oid)
  {
  }

  /** A cached scan if there is one, otherwise a new one that is then cached: always the blob's scan. */
  method ScanThroughCache(scanner: Scanner, cache: LruCache<Oid, Scan>, oid: Oid) returns (scan: Scan)
    requires cache.Valid() && Faithful(cache.Abs(), scanner)
    modifies cache
    ensures cache.Valid() && Faithful(cache.Abs(), scanner)
    ensures scan == scanner(oid)
  {
    hide LruCache.Valid, LruCache.Abs, Faithful, Touched, Inserted, Lookup;
    FaithfulGet(cache.Abs(), oid, scanner);
    var cached := cache.Get(oid);
    if cached.Some? { return cached.value; }
    scan := scanner(oid);
    FaithfulInsert(cache.Abs(), oid, CacheWeight(scan), scanner);
    var _ := cache.InsertCountingEvictions(oid, scan, CacheWeight(scan));
  }

  // ----- resuming

  ghost predicate PathAbsent(events: seq<Event>, path: Path) {
    forall i :: 0 <= i < |events| && events[i].Found? ==> events[i].path != path
  }

  lemma {:induction false} NoHitsAt(scanner: Scanner, events: seq<Event>, path: Path)
    requires PathAbsent(events, path)
    ensures forall m :: m in Hits(scanner, events) ==> m.path != path
  {
    if events != [] {
      NoHitsAt(scanner, events[1..], path);
    }
  }

  lemma LaterPathsDiffer(events: seq<Event>)
    requires PathsIncrease(events) && events != [] && events[0].Found?
    ensures PathAbsent(events[1..], events[0].path) && PathsIncrease(events[1..])
  {
    hide Less;
    forall i | 0 <= i < |events[1..]| && events[1..][i].Found? ensures events[1..][i].path != events[0].path {
      assert events[1..][i] == events[i + 1];
      LessDiffers(events[0].path, events[i + 1].path);
    }
  }

  /** Once the walk is past a path it never meets it. */
  lemma PassedPath(events: seq<Event>, path: Path)
    requires PathsIncrease(events) && events != [] && events[0].Found? && Less(path, events[0].path)
    ensures PathAbsent(events, path)
  {
    hide Less;
    forall i | 0 <= i < |events| && events[i].Found? ensures events[i].path != path {
      LessTotal(path, events[0].path);
    }
  }

  lemma PlaceIs(hits: seq<Match>, pos: Position, i: nat)
    requires i < |hits| && Pos(hits[i]) == pos && forall j :: 0 <= j < i ==> Pos(hits[j]) != pos
    ensures PlaceAfter(hits, pos) == i + 1
  {
  }

  lemma NotPlaced(hits: seq<Match>, pos: Position)
    requires forall m :: m in hits ==> Pos(m) != pos
    ensures !Placed(hits, Some(pos))
  {
  }

  /** The walk so far skipped the first `k` matches, none of them in the resumed file. */
  ghost predicate Skipping(scanner: Scanner, hits: seq<Match>, k: nat, events: seq<Event>, path: Path) {
    k <= |hits| && hits[k..] == Hits(scanner, events) && forall i :: 0 <= i < k ==> hits[i].path != path
  }

  lemma SkipOne(scanner: Scanner, hits: seq<Match>, k: nat, events: seq<Event>, path: Path) returns (k': nat)
    requires Skipping(scanner, hits, k, events, path) && events != [] && events[0].Found? && events[0].path != path
    ensures Skipping(scanner, hits, k', events[1..], path)
  {
    hide Hits;
    HitsUnfold(scanner, events);
    var first := EventHits(scanner, events[0]);
    k' := k + |first|;
    assert hits[k..][|first|..] == hits[k'..];
    forall i | 0 <= i < k' ensures hits[i].path != path {
      if i >= k {
        assert hits[i] == hits[k..][i - k] == first[i - k];
      }
    }
  }

  /** Exhausting or passing the walk means the position is not a match. */
  lemma SkippedAll(scanner: Scanner, hits: seq<Match>, k: nat, events: seq<Event>, pos: Position)
    requires Skipping(scanner, hits, k, events, pos.path) && PathAbsent(events, pos.path)
    ensures !Placed(hits, Some(pos))
  {
    NoHitsAt(scanner, events, pos.path);
    forall m | m in hits ensures Pos(m) != pos {
      var i :| 0 <= i < |hits| && hits[i] == m;
      if i >= k {
        assert hits[i] == hits[k..][i - k];
      }
    }
    NotPlaced(hits, pos);
  }

  /** Reaching the resumed file decides whether its ordinal is a match, and what is left after it. */
  lemma ReachedFile(scanner: Scanner, hits: seq<Match>, k: nat, events: seq<Event>, pos: Position)
    requires events != [] && events[0].Found? && events[0].path == pos.path && PathsIncrease(events)
    requires Skipping(scanner, hits, k, events, pos.path)
    ensures
      var first := EventHits(scanner, events[0]);
      if pos.ordinal < |first| then
        Placed(hits, Some(pos)) && LeftAfter(hits, Some(pos)) == first[pos.ordinal + 1..] + Hits(scanner, events[1..])
      else !Placed(hits, Some(pos))
  {
    hide Hits, Less, PathsIncrease, PathAbsent, PlaceAfter, HitsOf;
    HitsUnfold(scanner, events);
    LaterPathsDiffer(events);
    NoHitsAt(scanner, events[1..], pos.path);
    var first, rest := EventHits(scanner, events[0]), Hits(scanner, events[1..]);
    assert hits == hits[..k] + (first + rest);
    PlaceInFile(hits, hits[..k], first, rest, pos);
  }

  /** A position in the one file whose matches are `first`. */
  lemma PlaceInFile(hits: seq<Match>, before: seq<Match>, first: seq<Match>, rest: seq<Match>, pos: Position)
    requires hits == before + (first + rest)
    requires forall i :: 0 <= i < |before| ==> before[i].path != pos.path
    requires forall i :: 0 <= i < |first| ==> Pos(first[i]) == Position(pos.path, i)
    requires forall m :: m in rest ==> m.path != pos.path
    ensures if pos.ordinal < |first| then Placed(hits, Some(pos)) && LeftAfter(hits, Some(pos)) == first[pos.ordinal + 1..] + rest
      else !Placed(hits, Some(pos))
  {
    hide PlaceAfter;
    var k := |before|;
    if pos.ordinal < |first| {
      var i := k + pos.ordinal;
      assert hits[i] == first[pos.ordinal];
      forall j | 0 <= j < i ensures Pos(hits[j]) != pos {
        assert hits[j] == if j < k then before[j] else first[j - k];
      }
      PlaceIs(hits, pos, i);
      assert hits[i + 1..] == first[pos.ordinal + 1..] + rest;
    } else {
      forall m | m in hits ensures Pos(m) != pos {
        assert m in before || m in first || m in rest;
      }
      NotPlaced(hits, pos);
    }
  }

  /** The state of the search loop: still looking for the resume position, or collecting. */
  ghost predicate Progress(
    scanner: Scanner, hits: seq<Match>, resume: Option<Position>, found: bool, k: nat, events: seq<Event>, d: Draft, limit: nat, ceiling: u64)
  {
    && Consistent(d, ceiling) && |d.matches| <= limit && !Over(Total(d.matches), ceiling)
    && PathsIncrease(events)
    && (!found ==> resume.Some? && d.matches == [] && Skipping(scanner, hits, k, events, resume.value.path))
    && (found ==> Placed(hits, resume) && LeftAfter(hits, resume) == d.matches + Hits(scanner, events))
  }

  lemma ProgressStarts(scanner: Scanner, hits: seq<Match>, resume: Option<Position>, events: seq<Event>, limit: nat, ceiling: u64)
    requires PathsIncrease(events) && hits == Hits(scanner, events)
    ensures Progress(scanner, hits, resume, resume.None?, 0, events, Draft([], [], 0), limit, ceiling)
  {
    hide Hits;
    assert hits[0..] == hits;
  }

  lemma ProgressSkips(
    scanner: Scanner, hits: seq<Match>, resume: Option<Position>, k: nat, events: seq<Event>, d: Draft, limit: nat, ceiling: u64)
    returns (k': nat)
    requires Progress(scanner, hits, resume, false, k, events, d, limit, ceiling)
    requires events != [] && events[0].Found? && Less(events[0].path, resume.value.path)
    ensures Progress(scanner, hits, resume, false, k', events[1..], d, limit, ceiling)
  {
    hide Hits, Less, Total, Consistent;
    LessDiffers(events[0].path, resume.value.path);
    LaterPathsDiffer(events);
    k' := SkipOne(scanner, hits, k, events, resume.value.path);
  }

  /** What is left once the loop handles a file: its matches from `start` on, then those of later files. */
  lemma ProgressAt(
    scanner: Scanner, hits: seq<Match>, resume: Option<Position>, found: bool, k: nat, events: seq<Event>, d: Draft, limit: nat, ceiling: u64,
    start: Option<nat>)
    requires Progress(scanner, hits, resume, found, k, events, d, limit, ceiling) && events != [] && events[0].Found?
    requires found ==> start.None?
    requires !found ==> resume.value.path == events[0].path && start == Some(resume.value.ordinal + 1)
    ensures PathsIncrease(events[1..])
    ensures
      var first := EventHits(scanner, events[0]);
      if start.Some? && start.value > |first| then !Placed(hits, resume)
      else
        Placed(hits, resume)
        && LeftAfter(hits, resume) == d.matches + first[if start.Some? then start.value else 0..] + Hits(scanner, events[1..])
  {
    hide Hits, Less, Total, Consistent, EventHits, Placed, LeftAfter;
    LaterPathsDiffer(events);
    var first := EventHits(scanner, events[0]);
    if found {
      HitsUnfold(scanner, events);
      assert d.matches + (first + Hits(scanner, events[1..])) == d.matches + first + Hits(scanner, events[1..]);
      assert first[0..] == first;
    } else {
      ReachedFile(scanner, hits, k, events, resume.value);
      assert d.matches + first == first;
    }
  }

  lemma ProgressMoves(
    scanner: Scanner, hits: seq<Match>, resume: Option<Position>, k: nat, events: seq<Event>, d: Draft, limit: nat, ceiling: u64)
    requires Consistent(d, ceiling) && |d.matches| <= limit && !Over(Total(d.matches), ceiling)
    requires PathsIncrease(events) && Placed(hits, resume) && LeftAfter(hits, resume) == d.matches + Hits(scanner, events)
    ensures Progress(scanner, hits, resume, true, k, events, d, limit, ceiling)
  {
  }

  /** What a failed search says about the position it was asked to resume at. */
  ghost predicate FailsFor(q: Query, hits: seq<Match>, events: seq<Event>, resume: Option<Position>, limit: nat, ceiling: u64, error: SearchError) {
    match error
    case InvalidCursor => !Placed(hits, resume)
    case MissingObject => exists e :: e in events && e.MissingTree?
    case BudgetExceeded => Placed(hits, resume) && CannotPage(q, LeftAfter(hits, resume), limit, ceiling)
    case ResultTooLarge =>
      Placed(hits, resume) && CannotPage(q, LeftAfter(hits, resume), limit, ceiling)
      && CursorLen(q, LeftAfter(hits, resume)[0]) > MAX_CURSOR_BYTES
    case InvalidArgument => limit == 0 || ceiling == 0
    case InvalidPath => !ValidPath(q.scope)
  }

  /** A page would have to be cut and no cut fits. */
  ghost predicate CannotPage(q: Query, left: seq<Match>, limit: nat, ceiling: u64) {
    left != [] && Overflows(left, limit, ceiling) && forall j: nat :: !Fits(q, left, j, limit, ceiling)
  }

  ghost predicate ScansBounded(scanner: Scanner) {
    forall oid :: scanner(oid).Lines? ==> |scanner(oid).lines| < U32_MAX
  }

  /** The search loop: collects from the resume position until something stops it. */
  method Collect(
    scanner: Scanner, cache: LruCache<Oid, Scan>, walk: BlobWalk, resume: Option<Position>, limit: nat, ceiling: u64,
    ghost hits: seq<Match>) returns (r: Result<(Draft, bool), SearchError>)
    requires walk.Valid() && cache.Valid() && Faithful(cache.Abs(), scanner) && ScansBounded(scanner)
    requires limit > 0 && PathsIncrease(walk.Remaining()) && hits == Hits(scanner, walk.Remaining())
    modifies cache, walk
    ensures r.Ok? ==>
      var (d, stopped) := r.value;
      && Consistent(d, ceiling) && Placed(hits, resume)
      && if stopped then d.matches <= LeftAfter(hits, resume) && StopsAt(LeftAfter(hits, resume), |d.matches|, limit, ceiling)
         else d.matches == LeftAfter(hits, resume) && |d.matches| <= limit && !Over(Total(d.matches), ceiling)
    ensures r.Err? ==> r.error == InvalidCursor || r.error == MissingObject
    ensures r == Err(InvalidCursor) ==> !Placed(hits, resume)
    ensures r == Err(MissingObject) ==> exists e :: e in old(walk.Remaining()) && e.MissingTree?
  {
    hide LruCache.Valid, LruCache.Abs, Faithful, Listed, Pending, Hits, PathsIncrease, Consistent, Placed, LeftAfter, Total, Less, HitsOf, StopsAt,
      Progress, Skipping, BlobWalk.Remaining;
    ghost var all := walk.Remaining();
    ghost var k: nat := 0;
    ghost var at: nat := 0;
    var d := Draft([], [], 0);
    var found := resume.None?;
    ProgressStarts(scanner, hits, resume, all, limit, ceiling);
    assert all[0..] == all;
    while true
      invariant walk.Valid() && cache.Valid() && Faithful(cache.Abs(), scanner)
      invariant at <= |all| && walk.Remaining() == all[at..]
      invariant Progress(scanner, hits, resume, found, k, walk.Remaining(), d, limit, ceiling)
      decreases |all| - at
    {
      ghost var events := walk.Remaining();
      var event := walk.Next();
      if event.None? {
        ProgressEnds(scanner, hits, resume, found, k, events, d, limit, ceiling);
        if !found { return Err(InvalidCursor); }
        return Ok((d, false));
      }
      assert event.value == all[at];
      if event.value.MissingTree? { return Err(MissingObject); }
      at := at + 1;
      assert events[1..] == all[at..];
      var path, oid := event.value.path, event.value.oid;
      var start := None;
      if !found {
        ProgressLooking(scanner, hits, resume, k, events, d, limit, ceiling);
        if Less(path, resume.value.path) {
          k := ProgressSkips(scanner, hits, resume, k, events, d, limit, ceiling);
          continue;
        }
        if path != resume.value.path {
          ProgressPassed(scanner, hits, resume, k, events, d, limit, ceiling);
          return Err(InvalidCursor);
        }
        start := Some(resume.value.ordinal + 1);
      }
      ProgressAt(scanner, hits, resume, found, k, events, d, limit, ceiling, start);
      ProgressDraft(scanner, hits, resume, found, k, events, d, limit, ceiling);
      found := true;
      var scan := ScanThroughCache(scanner, cache, oid);
      EventHitsAre(scanner, event.value);
      if scan.Skipped? {
        if start.Some? { return Err(InvalidCursor); }
        assert d.matches + [] == d.matches;
      } else {
        var outcome;
        d, outcome := EmitMatches(path, oid, scan.lines, start, limit, ceiling, d, if Placed(hits, resume) then LeftAfter(hits, resume) else []);
        if outcome.BadOrdinal? { return Err(InvalidCursor); }
        if outcome.Stopped? { return Ok((d, true)); }
      }
      ProgressMoves(scanner, hits, resume, k, walk.Remaining(), d, limit, ceiling);
    }
  }

  lemma EventHitsAre(scanner: Scanner, event: Event)
    requires event.Found?
    ensures EventHits(scanner, event) == HitsOf(scanner(event.oid), event.path, event.oid)
    ensures scanner(event.oid).Skipped? ==> EventHits(scanner, event) == []
    ensures scanner(event.oid).Lines? ==> |EventHits(scanner, event)| == |scanner(event.oid).lines|
  {
  }

  lemma ProgressLooking(
    scanner: Scanner, hits: seq<Match>, resume: Option<Position>, k: nat, events: seq<Event>, d: Draft, limit: nat, ceiling: u64)
    requires Progress(scanner, hits, resume, false, k, events, d, limit, ceiling)
    ensures resume.Some?
  {
  }

  lemma ProgressDraft(
    scanner: Scanner, hits: seq<Match>, resume: Option<Position>, found: bool, k: nat, events: seq<Event>, d: Draft, limit: nat, ceiling: u64)
    requires Progress(scanner, hits, resume, found, k, events, d, limit, ceiling)
    ensures Consistent(d, ceiling) && |d.matches| <= limit && !Over(Total(d.matches), ceiling)
  {
  }

  lemma ProgressPassed(
    scanner: Scanner, hits: seq<Match>, resume: Option<Position>, k: nat, events: seq<Event>, d: Draft, limit: nat, ceiling: u64)
    requires Progress(scanner, hits, resume, false, k, events, d, limit, ceiling) && events != [] && events[0].Found?
    requires !Less(events[0].path, resume.value.path) && events[0].path != resume.value.path
    ensures !Placed(hits, resume)
  {
    hide Less, Hits, Total, Placed;
    LessTotal(events[0].path, resume.value.path);
    PassedPath(events, resume.value.path);
    SkippedAll(scanner, hits, k, events, resume.value);
  }

  lemma ProgressEnds(
    scanner: Scanner, hits: seq<Match>, resume: Option<Position>, found: bool, k: nat, events: seq<Event>, d: Draft, limit: nat, ceiling: u64)
    requires Progress(scanner, hits, resume, found, k, events, d, limit, ceiling) && events == []
    ensures if found then Placed(hits, resume) && d.matches == LeftAfter(hits, resume) else !Placed(hits, resume)
    ensures Consistent(d, ceiling) && |d.matches| <= limit && !Over(Total(d.matches), ceiling)
  {
    hide Total, Placed, LeftAfter;
    assert Hits(scanner, []) == [];
    if !found {
      SkippedAll(scanner, hits, k, events, resume.value);
    }
  }

  // ----- the search

  /** The events of the whole walk. */
  ghost function WalkOf(store: TreeStore, rank: Rank, matches: Path -> bool, root: Oid, scope: Path): seq<Event>
    requires Ranked(store, rank) && root in store
  {
    Listed(store, rank, matches, store[root], scope)
  }

  /** `search_with_cache_capacity` after its path was resolved to the tree `root`. */
  method Search(
    q: Query, store: TreeStore, ghost rank: Rank, matches: Path -> bool, root: Oid, scanner: Scanner,
    limit: nat, ceiling: u64, cacheCapacity: u64, cursor: Option<seq<byte>>) returns (r: Result<SearchPage, SearchError>)
    requires Ranked(store, rank) && AllSorted(store) && root in store && ScansBounded(scanner)
    ensures r.Ok? ==> exists resume ::
      var hits := Hits(scanner, WalkOf(store, rank, matches, root, q.scope));
      ResumesAt(q, cursor, resume) && Placed(hits, resume) && IsPage(q, LeftAfter(hits, resume), limit, ceiling, r.value)
    ensures r == Err(InvalidPath) <==> !ValidPath(q.scope)
    ensures r == Err(InvalidArgument) <==> ValidPath(q.scope) && (limit == 0 || ceiling == 0)
    ensures r.Err? ==> forall resume :: ResumesAt(q, cursor, resume) ==>
      var events := WalkOf(store, rank, matches, root, q.scope);
      FailsFor(q, Hits(scanner, events), events, resume, limit, ceiling, r.error)
  {
    hide LruCache.Valid, LruCache.Abs, Listed, Hits, PathsIncrease, Consistent, Placed, LeftAfter, Total, Less, StopsAt, Fits, Overflows,
      BlobWalk.Remaining, ResumesAt, LeadsTo, AllSorted, GitSorted, ValidPath;
    if !ValidPath(q.scope) { return Err(InvalidPath); }
    if limit == 0 || ceiling == 0 { return Err(InvalidArgument); }
    var decoded := DecodeResume(q, cursor);
    if decoded.Err? { return Err(InvalidCursor); }
    var resume := decoded.value;
    forall other | ResumesAt(q, cursor, other) ensures other == resume {
      ResumeUnique(q, cursor, other, resume);
    }
    var walk := new BlobWalk(store, rank, matches, root, q.scope);
    TreeIsSorted(store, root);
    ListedInOrder(store, rank, matches, store[root], q.scope);
    ghost var events := walk.Remaining();
    ghost var hits := Hits(scanner, events);
    var cache := NewCache(scanner, cacheCapacity);
    var collected := Collect(scanner, cache, walk, resume, limit, ceiling, hits);
    if collected.Err? { return Err(collected.error); }
    var (d, stopped) := collected.value;
    ghost var left := LeftAfter(hits, resume);
    if !stopped {
      NotOverflowing(left, limit, ceiling);
      return Ok(SearchPage(d.matches, None, false));
    }
    StopIsOverflow(left, |d.matches|, limit, ceiling);
    StopIsNonEmpty(left, |d.matches|, limit, ceiling);
    var fitted := FitCursor(q, limit, ceiling, d, left);
    if fitted.Err? { return Err(fitted.error); }
    return Ok(SearchPage(fitted.value.0.matches, Some(fitted.value.1), true));
  }

  method NewCache(scanner: Scanner, capacity: u64) returns (cache: LruCache<Oid, Scan>)
    ensures fresh(cache) && cache.Valid() && Faithful(cache.Abs(), scanner)
  {
    cache := new LruCache<Oid, Scan>(capacity);
  }

  lemma TreeIsSorted(store: TreeStore, root: Oid)
    requires AllSorted(store) && root in store
    ensures GitSorted(store[root])
  {
  }

  lemma NotOverflowing(left: seq<Match>, limit: nat, ceiling: u64)
    requires |left| <= limit && !Over(Total(left), ceiling)
    ensures !Overflows(left, limit, ceiling)
  {
  }

  lemma StopIsNonEmpty(left: seq<Match>, k: nat, limit: nat, ceiling: u64)
    requires StopsAt(left, k, limit, ceiling)
    ensures left != []
  {
  }

  // ----- following cursors

  ghost predicate DistinctPositions(hits: seq<Match>) {
    forall i, j :: 0 <= i < j < |hits| ==> Pos(hits[i]) != Pos(hits[j])
  }

  lemma {:induction false} HitsDistinct(scanner: Scanner, events: seq<Event>)
    requires PathsIncrease(events)
    ensures DistinctPositions(Hits(scanner, events))
  {
    hide Less;
    if events != [] {
      HitsDistinct(scanner, events[1..]);
      if events[0].Found? {
        LaterPathsDiffer(events);
        NoHitsAt(scanner, events[1..], events[0].path);
      }
    }
  }

  lemma {:induction false} OrdinalsSmall(scanner: Scanner, events: seq<Event>)
    requires ScansBounded(scanner)
    ensures forall m :: m in Hits(scanner, events) ==> m.ordinal <= U32_MAX
  {
    if events != [] {
      OrdinalsSmall(scanner, events[1..]);
    }
  }

  /** Resuming after match `i` owes exactly the matches after it. */
  lemma ResumeAfter(hits: seq<Match>, i: nat)
    requires DistinctPositions(hits) && i < |hits|
    ensures Placed(hits, Some(Pos(hits[i]))) && LeftAfter(hits, Some(Pos(hits[i]))) == hits[i + 1..]
  {
    PlaceIs(hits, Pos(hits[i]), i);
  }

  lemma CarriesOwnPosition(q: Query, bytes: seq<byte>, a: Position, b: Position)
    requires a.ordinal <= U32_MAX && b.ordinal <= U32_MAX
    requires bytes == Encoded(CursorAt(q, a)) && Carries(bytes, q.Expected(), CursorAt(q, b))
    ensures a == b
  {
    hide Encoded, LeBytes;
    assert Carries(bytes, q.Expected(), CursorAt(q, a));
    CarriedUnique(bytes, q.Expected(), CursorAt(q, a), CursorAt(q, b));
    PositionDecodes(a);
    PositionDecodes(b);
  }

  /** The cursor of an emitted match is always accepted, and resumes at that match only. */
  lemma CursorAccepted(
    q: Query, store: TreeStore, rank: Rank, matches: Path -> bool, root: Oid, scanner: Scanner, m: Match, next: Option<seq<byte>>)
    requires Ranked(store, rank) && AllSorted(store) && root in store && ScansBounded(scanner) && q.WellFormed() && ValidPath(q.scope)
    requires m in Hits(scanner, WalkOf(store, rank, matches, root, q.scope))
    requires LeadsTo(q, next, m) && CursorLen(q, m) <= MAX_CURSOR_BYTES
    ensures forall resume :: ResumesAt(q, next, resume) <==> resume == Some(Pos(m))
  {
    hide ValidPath, Listed, Hits, Less, PathsIncrease, UnderSome, Encoded, LeBytes, PathsValid;
    var events := WalkOf(store, rank, matches, root, q.scope);
    ListedInOrder(store, rank, matches, store[root], q.scope);
    ListedValid(store, rank, matches, store[root], q.scope);
    HitInScope(scanner, events, q.scope, store[root], m);
    HitValid(scanner, events, m);
    OrdinalsSmall(scanner, events);
    CursorLenIs(q, m);
    assert Carries(next.value, q.Expected(), CursorAt(q, Pos(m)));
    assert ResumesAt(q, next, Some(Pos(m)));
    forall resume | ResumesAt(q, next, resume) ensures resume == Some(Pos(m)) {
      CarriesOwnPosition(q, next.value, Pos(m), resume.value);
    }
  }

  lemma {:induction false} HitValid(scanner: Scanner, events: seq<Event>, m: Match)
    requires PathsValid(events) && m in Hits(scanner, events)
    ensures ValidPath(m.path)
  {
    hide ValidPath;
    if m !in EventHits(scanner, events[0]) {
      HitValid(scanner, events[1..], m);
    }
  }

  lemma {:induction false} HitInScope(scanner: Scanner, events: seq<Event>, scope: Path, entries: seq<Trees.Entry>, m: Match)
    requires UnderSome(scope, entries, events) && m in Hits(scanner, events)
    requires forall i :: 0 <= i < |entries| ==> PlainName(entries[i].name)
    ensures InScope(scope, m.path) && m.path != []
  {
    if m in EventHits(scanner, events[0]) {
      var k :| 0 <= k < |entries| && Under(scope, entries[k], events[0].path);
      assert Base(scope) + SortKey(entries[k]) <= m.path;
      if scope != [] {
        assert (Base(scope) + SortKey(entries[k]))[|scope|] == SLASH;
        assert scope == (Base(scope) + SortKey(entries[k]))[..|scope|];
      }
    } else {
      HitInScope(scanner, events[1..], scope, entries, m);
    }
  }

  /** The bounds of one call. */
  datatype Call = Call(limit: nat, ceiling: u64, cacheCapacity: u64)

  /** The first page's cursor is none; a later one is accepted and owes what `place` matches leave. */
  ghost predicate Resumable(q: Query, hits: seq<Match>, cursor: Option<seq<byte>>, resume: Option<Position>, place: nat) {
    && place <= |hits| && Placed(hits, resume) && LeftAfter(hits, resume) == hits[place..]
    && forall r :: ResumesAt(q, cursor, r) <==> r == resume
  }

  /** Why a followed call can still fail; that its cursor is rejected is not among the reasons. */
  ghost predicate FollowFails(q: Query, events: seq<Event>, left: seq<Match>, call: Call, error: SearchError) {
    match error
    case InvalidPath => !ValidPath(q.scope)
    case InvalidArgument => call.limit == 0 || call.ceiling == 0
    case InvalidCursor => false
    case MissingObject => exists e :: e in events && e.MissingTree?
    case BudgetExceeded => CannotPage(q, left, call.limit, call.ceiling)
    case ResultTooLarge => CannotPage(q, left, call.limit, call.ceiling) && CursorLen(q, left[0]) > MAX_CURSOR_BYTES
  }

  /**
   * A caller that follows `next_cursor`, choosing new bounds for every call.
   * What it has read is a prefix of the unbounded search; a page that is not
   * truncated completes it, every other page makes progress, a followed
   * cursor is never rejected, and any failure has one of the stated reasons.
   */
  method FollowCursors(
    q: Query, store: TreeStore, ghost rank: Rank, matches: Path -> bool, root: Oid, scanner: Scanner, calls: seq<Call>)
    returns (gathered: seq<Match>, made: nat, finished: bool, failure: Option<SearchError>)
    requires Ranked(store, rank) && AllSorted(store) && root in store && ScansBounded(scanner) && q.WellFormed()
    ensures gathered <= Hits(scanner, WalkOf(store, rank, matches, root, q.scope))
    ensures finished ==> gathered == Hits(scanner, WalkOf(store, rank, matches, root, q.scope))
    ensures made <= |calls| && (failure.None? && !finished ==> made == |calls|)
    ensures |gathered| >= if finished then made - 1 else made
    ensures failure.Some? ==>
      var events := WalkOf(store, rank, matches, root, q.scope);
      !finished && made < |calls| && FollowFails(q, events, Hits(scanner, events)[|gathered|..], calls[made], failure.value)
  {
    hide Hits, Listed, PathsIncrease, Placed, LeftAfter, IsPage, ResumesAt, DistinctPositions, AllSorted, GitSorted, ScansBounded, WalkOf,
      Resumable, FollowFails, CannotPage, FailsFor, ValidPath;
    ghost var events := WalkOf(store, rank, matches, root, q.scope);
    ghost var hits := Hits(scanner, events);
    gathered, made, finished, failure := [], 0, false, None;
    var cursor: Option<seq<byte>> := None;
    ghost var resume: Option<Position> := None;
    NoCursorOwesAll(q, hits);
    while made < |calls|
      invariant made <= |calls| && gathered <= hits && |gathered| >= made && !finished && failure.None?
      invariant Resumable(q, hits, cursor, resume, |gathered|)
    {
      ResumableMeans(q, hits, cursor, resume, |gathered|);
      var call := calls[made];
      var r := Search(q, store, rank, matches, root, scanner, call.limit, call.ceiling, call.cacheCapacity, cursor);
      if r.Err? {
        FailureIs(q, hits, events, resume, |gathered|, call, r.error);
        return gathered, made, false, Some(r.error);
      }
      var page := r.value;
      ghost var place := |gathered|;
      assert IsPage(q, hits[place..], call.limit, call.ceiling, page);
      PageIsNext(q, hits, place, call.limit, call.ceiling, page);
      gathered := gathered + page.matches;
      made := made + 1;
      if !page.truncated { return gathered, made, true, None; }
      cursor := page.next;
      resume := NextResumes(q, store, rank, matches, root, scanner, place, call, page);
    }
  }

  lemma ResumableMeans(q: Query, hits: seq<Match>, cursor: Option<seq<byte>>, resume: Option<Position>, place: nat)
    requires Resumable(q, hits, cursor, resume, place)
    ensures place <= |hits| && Placed(hits, resume) && LeftAfter(hits, resume) == hits[place..]
    ensures forall r :: ResumesAt(q, cursor, r) <==> r == resume
  {
    hide ResumesAt, Placed, LeftAfter;
  }

  lemma FailureIs(q: Query, hits: seq<Match>, events: seq<Event>, resume: Option<Position>, place: nat, call: Call, error: SearchError)
    requires place <= |hits| && Placed(hits, resume) && LeftAfter(hits, resume) == hits[place..]
    requires FailsFor(q, hits, events, resume, call.limit, call.ceiling, error)
    ensures FollowFails(q, events, hits[place..], call, error)
  {
    hide CannotPage, Placed, LeftAfter, CursorLen, ValidPath;
  }

  /** A truncated page's own cursor resumes right behind the page. */
  lemma NextResumes(
    q: Query, store: TreeStore, rank: Rank, matches: Path -> bool, root: Oid, scanner: Scanner, place: nat, call: Call, page: SearchPage)
    returns (resume: Option<Position>)
    requires Ranked(store, rank) && AllSorted(store) && root in store && ScansBounded(scanner) && q.WellFormed() && ValidPath(q.scope)
    requires place <= |Hits(scanner, WalkOf(store, rank, matches, root, q.scope))| && page.truncated
    requires IsPage(q, Hits(scanner, WalkOf(store, rank, matches, root, q.scope))[place..], call.limit, call.ceiling, page)
    ensures Resumable(q, Hits(scanner, WalkOf(store, rank, matches, root, q.scope)), page.next, resume, place + |page.matches|)
  {
    hide Hits, Listed, PathsIncrease, Placed, LeftAfter, ResumesAt, DistinctPositions, AllSorted, GitSorted, ScansBounded, WalkOf,
      ValidPath, Total, LeadsTo;
    var events := WalkOf(store, rank, matches, root, q.scope);
    var hits := Hits(scanner, events);
    WalkInOrder(store, rank, matches, root, q.scope);
    HitsDistinct(scanner, events);
    OrdinalsSmall(scanner, events);
    var k := |page.matches|;
    var m := hits[place..][k - 1];
    assert m == hits[place + k - 1] && m in hits;
    resume := Some(Pos(m));
    CursorAccepted(q, store, rank, matches, root, scanner, m, page.next);
    ResumeAfter(hits, place + k - 1);
  }

  lemma WalkInOrder(store: TreeStore, rank: Rank, matches: Path -> bool, root: Oid, scope: Path)
    requires Ranked(store, rank) && AllSorted(store) && root in store
    ensures PathsIncrease(WalkOf(store, rank, matches, root, scope))
  {
    hide Listed, PathsIncrease;
    ListedInOrder(store, rank, matches, store[root], scope);
  }

  lemma NoCursorOwesAll(q: Query, hits: seq<Match>)
    ensures Resumable(q, hits, None, None, 0)
  {
  }

  lemma PageIsNext(q: Query, hits: seq<Match>, place: nat, limit: nat, ceiling: u64, page: SearchPage)
    requires place <= |hits| && IsPage(q, hits[place..], limit, ceiling, page)
    ensures hits[..place] + page.matches <= hits
    ensures if page.truncated then page.matches != [] else hits[..place] + page.matches == hits
  {
    hide Total, CursorLen;
    assert hits == hits[..place] + hits[place..];
  }

  // ----- what a search finds

  lemma {:induction false} HitsIff(scanner: Scanner, events: seq<Event>, m: Match)
    ensures m in Hits(scanner, events) <==> Found(m.path, m.blob) in events && m in HitsOf(scanner(m.blob), m.path, m.blob)
  {
    hide Hits, HitsOf;
    if events == [] {
      NoHits(scanner);
    } else {
      HitsUnfold(scanner, events);
      HitsIff(scanner, events[1..], m);
      assert events == [events[0]] + events[1..];
      EventHitsIff(scanner, events[0], m);
    }
  }

  lemma NoHits(scanner: Scanner)
    ensures Hits(scanner, []) == []
  {
  }

  lemma EventHitsIff(scanner: Scanner, event: Event, m: Match)
    ensures m in EventHits(scanner, event) <==> event == Found(m.path, m.blob) && m in HitsOf(scanner(m.blob), m.path, m.blob)
  {
  }

  lemma HitsOfIff(scan: Scan, m: Match)
    ensures m in HitsOf(scan, m.path, m.blob) <==> scan.Lines? && m.ordinal < |scan.lines| && m.line == scan.lines[m.ordinal]
  {
    var hits := HitsOf(scan, m.path, m.blob);
    if scan.Lines? && m.ordinal < |scan.lines| && m.line == scan.lines[m.ordinal] {
      assert hits[m.ordinal] == m;
    }
  }

  /**
   * The unbounded search finds exactly the matching lines of the selected files
   * that a trail of stored directories leads to.
   */
  lemma SearchFinds(store: TreeStore, rank: Rank, matches: Path -> bool, root: Oid, scope: Path, scanner: Scanner, m: Match)
    requires Ranked(store, rank) && root in store
    ensures m in Hits(scanner, WalkOf(store, rank, matches, root, scope)) <==>
      && scanner(m.blob).Lines? && m.ordinal < |scanner(m.blob).lines| && m.line == scanner(m.blob).lines[m.ordinal]
      && matches(m.path) && exists trail :: LeadsToEvent(store, store[root], scope, trail, Found(m.path, m.blob))
  {
    hide Listed, Hits, HitsOf, LeadsToEvent;
    HitsIff(scanner, WalkOf(store, rank, matches, root, scope), m);
    HitsOfIff(scanner(m.blob), m);
    ListedIff(store, rank, matches, store[root], scope, Found(m.path, m.blob));
  }
}
