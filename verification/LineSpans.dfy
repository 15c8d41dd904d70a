/** Splitting a payload into lines in bounded chunks (crates/gitility-core/src/search.rs). */
module LineSpans {
  import opened Basics

  const LF: byte := 10

  datatype Span = Span(start: nat, end: nat)

  /** Where line `i` begins: behind the LF of the line before it. */
  function StartOf(spans: seq<Span>, i: nat): nat
    requires i <= |spans|
  {
    if i == 0 then 0 else spans[i - 1].end + 1
  }

  /** Line `i` runs from its start to the first LF. */
  ghost predicate IsLine(payload: seq<byte>, spans: seq<Span>, i: nat)
    requires i < |spans|
  {
    && spans[i].start == StartOf(spans, i) <= spans[i].end < |payload| && payload[spans[i].end] == LF
    && forall k :: spans[i].start <= k < spans[i].end ==> payload[k] != LF
  }

  /** `spans` are the lines of the first `upTo` bytes, and `start` is where the unfinished line begins. */
  ghost predicate Lines(payload: seq<byte>, spans: seq<Span>, start: nat, upTo: nat)
    requires upTo <= |payload|
  {
    && start == StartOf(spans, |spans|) <= upTo
    && (forall i :: 0 <= i < |spans| ==> IsLine(payload, spans, i))
    && (forall k :: start <= k < upTo ==> payload[k] != LF)
  }

  /** The lines of a payload; a last line without LF counts, an empty one does not. */
  ghost predicate AreLines(payload: seq<byte>, spans: seq<Span>) {
    exists start: nat ::
      if start < |payload| then
        spans != [] && spans[|spans| - 1] == Span(start, |payload|) && Lines(payload, spans[..|spans| - 1], start, |payload|)
      else Lines(payload, spans, start, |payload|)
  }

  /** `line_spans`: the chunk size only bounds the work between two budget checks. */
  method LineSpansOf(payload: seq<byte>, chunk: nat) returns (spans: seq<Span>)
    requires chunk > 0
    ensures AreLines(payload, spans)
  {
    hide AreLines;
    spans := [];
    var start := 0;
    var chunkStart := 0;
    while chunkStart < |payload|
      invariant chunkStart <= |payload| && Lines(payload, spans, start, chunkStart)
      decreases |payload| - chunkStart
    {
      var chunkEnd := if chunk < |payload| - chunkStart then chunkStart + chunk else |payload|;
      for index := chunkStart to chunkEnd
        invariant Lines(payload, spans, start, index)
      {
        LinesNext(payload, spans, start, index);
        if payload[index] == LF {
          spans := spans + [Span(start, index)];
          start := index + 1;
        }
      }
      chunkStart := chunkEnd;
    }
    LinesEnd(payload, spans, start);
    if start < |payload| {
      spans := spans + [Span(start, |payload|)];
    }
  }

  lemma LinesNext(payload: seq<byte>, spans: seq<Span>, start: nat, index: nat)
    requires index < |payload| && Lines(payload, spans, start, index)
    ensures if payload[index] == LF then Lines(payload, spans + [Span(start, index)], index + 1, index + 1) else Lines(payload, spans, start, index + 1)
  {
    if payload[index] == LF {
      var more := spans + [Span(start, index)];
      forall i | 0 <= i < |more| ensures IsLine(payload, more, i) {
        if i < |spans| {
          assert IsLine(payload, spans, i) && more[i] == spans[i] && StartOf(more, i) == StartOf(spans, i);
        } else {
          assert more[i] == Span(start, index) && StartOf(more, i) == StartOf(spans, i);
        }
      }
    }
  }

  lemma LinesEnd(payload: seq<byte>, spans: seq<Span>, start: nat)
    requires Lines(payload, spans, start, |payload|)
    ensures start < |payload| ==> AreLines(payload, spans + [Span(start, |payload|)])
    ensures start == |payload| ==> AreLines(payload, spans)
  {
    assert (spans + [Span(start, |payload|)])[..|spans|] == spans;
  }

  /** Lines that begin at the same place end at the same place. */
  lemma SameLine(payload: seq<byte>, a: seq<Span>, b: seq<Span>, i: nat)
    requires i < |a| && i < |b| && IsLine(payload, a, i) && IsLine(payload, b, i) && StartOf(a, i) == StartOf(b, i)
    ensures a[i] == b[i]
  {
    var x, y := a[i].end, b[i].end;
    assert payload[x] == LF && payload[y] == LF;
  }

  /** A finished line rules out that the rest has no LF. */
  lemma OneMore(payload: seq<byte>, a: seq<Span>, b: seq<Span>, sb: nat, i: nat)
    requires i < |a| && IsLine(payload, a, i) && Lines(payload, b, sb, |payload|) && i <= |b| && StartOf(a, i) == StartOf(b, i)
    ensures i < |b|
  {
    assert payload[a[i].end] == LF;
  }

  /** The finished lines are determined by the payload. */
  lemma {:induction false} LinesUnique(payload: seq<byte>, a: seq<Span>, sa: nat, b: seq<Span>, sb: nat, n: nat)
    requires Lines(payload, a, sa, |payload|) && Lines(payload, b, sb, |payload|) && n <= |a|
    ensures n <= |b| && a[..n] == b[..n]
  {
    hide IsLine;
    if n > 0 {
      var i := n - 1;
      LinesUnique(payload, a, sa, b, sb, i);
      assert IsLine(payload, a, i);
      SamePrefix(a, b, i);
      OneMore(payload, a, b, sb, i);
      assert IsLine(payload, b, i);
      SameLine(payload, a, b, i);
      assert a[..n] == a[..i] + [a[i]];
      assert b[..n] == b[..i] + [b[i]];
    }
  }

  lemma SamePrefix(a: seq<Span>, b: seq<Span>, i: nat)
    requires i <= |a| && i <= |b| && a[..i] == b[..i]
    ensures StartOf(a, i) == StartOf(b, i)
  {
    if i > 0 {
      assert a[i - 1] == a[..i][i - 1] == b[..i][i - 1] == b[i - 1];
    }
  }

  /** So every chunk size gives the same lines. */
  lemma SplitUnique(payload: seq<byte>, a: seq<Span>, b: seq<Span>)
    requires AreLines(payload, a) && AreLines(payload, b)
    ensures a == b
  {
    hide Lines;
    var (fa, sa) := Finished(payload, a);
    var (fb, sb) := Finished(payload, b);
    LinesUnique(payload, fa, sa, fb, sb, |fa|);
    LinesUnique(payload, fb, sb, fa, sa, |fb|);
    assert fa == fa[..|fa|] && fb == fb[..|fb|];
    StartIs(payload, fa, sa);
    StartIs(payload, fb, sb);
  }

  /** The finished lines of a split, and where the unfinished one begins. */
  ghost function Finished(payload: seq<byte>, spans: seq<Span>): (r: (seq<Span>, nat))
    requires AreLines(payload, spans)
    ensures Lines(payload, r.0, r.1, |payload|)
    ensures spans == if r.1 < |payload| then r.0 + [Span(r.1, |payload|)] else r.0
  {
    var start: nat :|
      if start < |payload| then
        spans != [] && spans[|spans| - 1] == Span(start, |payload|) && Lines(payload, spans[..|spans| - 1], start, |payload|)
      else Lines(payload, spans, start, |payload|);
    (if start < |payload| then spans[..|spans| - 1] else spans, start)
  }

  lemma StartIs(payload: seq<byte>, spans: seq<Span>, start: nat)
    requires Lines(payload, spans, start, |payload|)
    ensures start == StartOf(spans, |spans|)
  {
  }
}
