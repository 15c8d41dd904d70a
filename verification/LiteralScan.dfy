/** Overlapped-window literal search over one line (crates/gitility-core/src/search.rs). */
module LiteralScan {
  import opened Basics

  ghost predicate Occurs(line: seq<byte>, query: seq<byte>, at: nat) {
    at + |query| <= |line| && line[at..at + |query|] == query
  }

  /** The first occurrence at or after `from`. */
  function FirstFrom(line: seq<byte>, query: seq<byte>, from: nat): (r: Option<nat>)
    ensures r.Some? ==> from <= r.value && Occurs(line, query, r.value)
    ensures forall s :: from <= s < (if r.Some? then r.value else |line| + 1) ==> !Occurs(line, query, s)
    decreases |line| + 1 - from
  {
    if from + |query| > |line| then None
    else if line[from..from + |query|] == query then Some(from)
    else FirstFrom(line, query, from + 1)
  }

  /** The greedy leftmost non-overlapping occurrences at or after `from`. */
  function Greedy(line: seq<byte>, query: seq<byte>, from: nat): seq<(nat, nat)>
    requires query != []
    decreases |line| + 1 - from
  {
    match FirstFrom(line, query, from)
    case None => []
    case Some(s) => [(s, s + |query|)] + Greedy(line, query, s + |query|)
  }

  lemma FirstFromUnique(line: seq<byte>, query: seq<byte>, from: nat, at: nat)
    requires from <= at && Occurs(line, query, at)
    requires forall s :: from <= s < at ==> !Occurs(line, query, s)
    ensures FirstFrom(line, query, from) == Some(at)
  {
  }

  lemma GreedyHit(line: seq<byte>, query: seq<byte>, from: nat, at: nat)
    requires query != [] && FirstFrom(line, query, from) == Some(at)
    ensures Greedy(line, query, from) == [(at, at + |query|)] + Greedy(line, query, at + |query|)
  {
    hide FirstFrom;
  }

  /** A stretch without occurrences can be skipped. */
  lemma GreedySkips(line: seq<byte>, query: seq<byte>, a: nat, b: nat)
    requires query != [] && a <= b && forall s :: a <= s < b ==> !Occurs(line, query, s)
    ensures Greedy(line, query, a) == Greedy(line, query, b)
  {
    hide FirstFrom;
    var first := FirstFrom(line, query, b);
    if first.Some? {
      FirstFromUnique(line, query, a, first.value);
    } else {
      var early := FirstFrom(line, query, a);
      assert early.Some? ==> Occurs(line, query, early.value);
    }
  }

  /** An occurrence inside a window is an occurrence in the line, and conversely. */
  lemma WindowOccurs(line: seq<byte>, query: seq<byte>, lo: nat, hi: nat, at: nat)
    requires lo <= hi <= |line|
    ensures Occurs(line[lo..hi], query, at) <==> Occurs(line, query, lo + at) && lo + at + |query| <= hi
  {
    if lo + at + |query| <= hi {
      var a, b := line[lo..hi][at..at + |query|], line[lo + at..lo + at + |query|];
      assert |a| == |b| && forall k :: 0 <= k < |query| ==> a[k] == line[lo..hi][at + k] == line[lo + at + k] == b[k];
    }
  }

  lemma OccursWithin(line: seq<byte>, query: seq<byte>, at: nat)
    ensures Occurs(line, query, at) ==> at + |query| <= |line|
  {
  }

  /** What a search of the window `line[offset..windowEnd]` tells about starts in the line. */
  lemma WindowFind(line: seq<byte>, query: seq<byte>, offset: nat, windowEnd: nat)
    requires query != [] && offset <= windowEnd <= |line|
    ensures
      var found := FirstFrom(line[offset..windowEnd], query, 0);
      && (found.Some? ==> Occurs(line, query, offset + found.value) && offset + found.value + |query| <= windowEnd)
      && forall s :: offset <= s && s + |query| <= windowEnd && (found.Some? ==> s < offset + found.value) ==>
           !Occurs(line, query, s)
  {
    hide FirstFrom, Occurs;
    var found := FirstFrom(line[offset..windowEnd], query, 0);
    if found.Some? {
      WindowOccurs(line, query, offset, windowEnd, found.value);
      OccursWithin(line, query, offset + found.value);
    }
    forall s | offset <= s && s + |query| <= windowEnd && (found.Some? ==> s < offset + found.value)
      ensures !Occurs(line, query, s)
    {
      WindowOccurs(line, query, offset, windowEnd, s - offset);
    }
  }

  /** The visits made so far, of which the last one may have asked to stop. */
  ghost predicate NotStopped(stop: seq<(nat, nat)> -> bool, visited: seq<(nat, nat)>) {
    forall k :: 0 < k <= |visited| ==> !stop(visited[..k])
  }

  /**
   * `literal_occurrences`, for any positive window size and any visitor: the
   * visits are the greedy occurrences in order, cut at the first stop request.
   */
  method LiteralOccurrences(line: seq<byte>, query: seq<byte>, window: nat, stop: seq<(nat, nat)> -> bool)
    returns (visited: seq<(nat, nat)>, stopped: bool)
    requires window > 0
    ensures query == [] ==> visited == [] && !stopped
    ensures query != [] ==> visited <= Greedy(line, query, 0)
    ensures query != [] && !stopped ==> visited == Greedy(line, query, 0) && NotStopped(stop, visited)
    ensures stopped ==> visited != [] && stop(visited) && NotStopped(stop, visited[..|visited| - 1])
  {
    hide FirstFrom, Occurs;
    visited, stopped := [], false;
    if query == [] { return; }
    if |query| > |line| { NoRoom(line, query, 0); return; }
    var coreStart, nextAllowed := 0, 0;
    while coreStart < |line|
      invariant 0 <= coreStart <= |line| && 0 <= nextAllowed <= |line|
      invariant visited + Greedy(line, query, Max(nextAllowed, coreStart)) == Greedy(line, query, 0)
      invariant NotStopped(stop, visited)
    {
      var coreEnd := Min(coreStart + window, |line|);
      visited, nextAllowed, stopped := ScanWindow(line, query, coreStart, coreEnd, nextAllowed, visited, stop);
      if stopped { return; }
      coreStart := coreEnd;
    }
    NoRoom(line, query, Max(nextAllowed, coreStart));
  }

  lemma NoRoom(line: seq<byte>, query: seq<byte>, from: nat)
    requires query != [] && from + |query| > |line|
    ensures Greedy(line, query, from) == []
  {
  }

  /** One window: every greedy occurrence that starts in the core is visited, and none is skipped. */
  method ScanWindow(line: seq<byte>, query: seq<byte>, coreStart: nat, coreEnd: nat, allowed: nat,
                    before: seq<(nat, nat)>, stop: seq<(nat, nat)> -> bool)
    returns (visited: seq<(nat, nat)>, nextAllowed: nat, stopped: bool)
    requires query != [] && coreStart < coreEnd <= |line| && allowed <= |line| && |query| <= |line|
    requires before + Greedy(line, query, Max(allowed, coreStart)) == Greedy(line, query, 0)
    requires NotStopped(stop, before)
    ensures nextAllowed <= |line|
    ensures !stopped ==> visited + Greedy(line, query, Max(nextAllowed, coreEnd)) == Greedy(line, query, 0)
    ensures !stopped ==> NotStopped(stop, visited)
    ensures stopped ==> visited <= Greedy(line, query, 0)
    ensures stopped ==> visited != [] && stop(visited) && NotStopped(stop, visited[..|visited| - 1])
  {
    hide FirstFrom, Occurs, Greedy, NotStopped;
    visited, nextAllowed, stopped := before, allowed, false;
    var windowEnd := Min(coreEnd + (|query| - 1), |line|);
    var offset := Max(nextAllowed, coreStart);
    while offset <= windowEnd - |query|
      invariant Max(nextAllowed, coreStart) == offset <= |line| && nextAllowed <= |line|
      invariant visited + Greedy(line, query, offset) == Greedy(line, query, 0)
      invariant NotStopped(stop, visited)
      decreases |line| - offset
    {
      WindowFind(line, query, offset, windowEnd);
      var relative := FirstFrom(line[offset..windowEnd], query, 0);
      if relative.None? { break; }
      var start := offset + relative.value;
      if start >= coreEnd && coreEnd < |line| { break; }
      var end := start + |query|;
      FirstFromUnique(line, query, offset, start);
      GreedyHit(line, query, offset, start);
      ghost var seen := visited;
      visited := visited + [(start, end)];
      assert visited[..|visited| - 1] == seen;
      assert visited + Greedy(line, query, end) == seen + Greedy(line, query, offset);
      if stop(visited) {
        return visited, nextAllowed, true;
      }
      GrewUnstopped(stop, visited);
      nextAllowed := end;
      offset := end;
    }
    NoneLeftInCore(line, query, offset, coreEnd, windowEnd);
    GreedySkips(line, query, offset, Max(offset, coreEnd));
  }

  lemma NoneLeftInCore(line: seq<byte>, query: seq<byte>, offset: nat, coreEnd: nat, windowEnd: int)
    requires windowEnd == Min(coreEnd + (|query| - 1), |line|)
    requires forall s :: offset <= s < coreEnd && s + |query| <= windowEnd ==> !Occurs(line, query, s)
    ensures forall s :: offset <= s < coreEnd ==> !Occurs(line, query, s)
  {
  }

  lemma GrewUnstopped(stop: seq<(nat, nat)> -> bool, visited: seq<(nat, nat)>)
    requires visited != [] && NotStopped(stop, visited[..|visited| - 1]) && !stop(visited)
    ensures NotStopped(stop, visited)
  {
    var n := |visited| - 1;
    forall k | 0 < k <= |visited| ensures !stop(visited[..k]) {
      if k <= n {
        assert visited[..n][..k] == visited[..k];
      } else {
        assert visited[..k] == visited;
      }
    }
  }
}
