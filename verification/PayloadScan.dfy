/** Scanning one payload for a literal query (crates/gitility-core/src/search.rs). */
module PayloadScan {
  import opened Basics
  import opened LineSpans
  import opened LiteralScan

  const PREVIEW_BYTES: nat := 1024

  /** One matching line with the spans that are materialised later. */
  datatype LineMatch = LineMatch(
    number: nat,
    column: nat,
    preview: Span,
    lineEnd: nat,
    contextBefore: Option<Span>,
    contextAfter: Option<Span>)

  ghost predicate InBounds(payload: seq<byte>, spans: seq<Span>) {
    forall i :: 0 <= i < |spans| ==> i <= spans[i].start <= spans[i].end <= |payload| && spans[i].start < |payload|
  }

  /** The bytes of a line. */
  function LineOf(payload: seq<byte>, span: Span): seq<byte>
    requires span.start <= span.end <= |payload|
  {
    payload[span.start..span.end]
  }

  /** A line has an occurrence at `column`, and none before it. */
  ghost predicate FirstAt(line: seq<byte>, query: seq<byte>, column: nat) {
    Occurs(line, query, column) && forall s :: 0 <= s < column ==> !Occurs(line, query, s)
  }

  ghost predicate HasOccurrence(line: seq<byte>, query: seq<byte>) {
    exists at :: Occurs(line, query, at)
  }

  /** The match of line `i`: its number, the column of its first occurrence, a capped preview and clipped context. */
  ghost predicate IsMatchOf(payload: seq<byte>, spans: seq<Span>, query: seq<byte>, context: nat, i: nat, m: LineMatch)
    requires InBounds(payload, spans) && i < |spans|
  {
    var line := LineOf(payload, spans[i]);
    && m.number == i + 1 && FirstAt(line, query, m.column)
    && m.preview == Span(spans[i].start, spans[i].start + Min(|line|, PREVIEW_BYTES)) && m.lineEnd == spans[i].end
    && m.contextBefore == (if i == 0 || context == 0 then None else Some(Span(spans[SaturatingSub(i, context)].start, spans[i - 1].end)))
    && m.contextAfter == (if i + 1 == |spans| || context == 0 then None else Some(Span(spans[i + 1].start, spans[Min(i + context, |spans| - 1)].end)))
  }

  /** One match for every line below `n` that holds an occurrence, in line order, and no other. */
  ghost predicate OnePerLine(payload: seq<byte>, spans: seq<Span>, query: seq<byte>, context: nat, n: nat, ms: seq<LineMatch>)
    requires InBounds(payload, spans) && n <= |spans|
  {
    && (forall k :: 0 <= k < |ms| ==> 0 < ms[k].number <= n && IsMatchOf(payload, spans, query, context, ms[k].number - 1, ms[k]))
    && (forall k, l :: 0 <= k < l < |ms| ==> ms[k].number < ms[l].number)
    && (forall i :: 0 <= i < n && HasOccurrence(LineOf(payload, spans[i]), query) ==> exists k :: 0 <= k < |ms| && ms[k].number == i + 1)
  }

  /** `first_occurrence`: an empty query occurs at the start of every line. */
  method FirstOccurrence(line: seq<byte>, query: seq<byte>, window: nat) returns (r: Option<nat>)
    requires window > 0
    ensures r.Some? ==> FirstAt(line, query, r.value)
    ensures r.None? ==> !HasOccurrence(line, query)
  {
    hide FirstFrom, Greedy;
    if query == [] {
      assert line[0..0] == [];
      return Some(0);
    }
    var always := (_: seq<(nat, nat)>) => true;
    var visited, stopped := LiteralOccurrences(line, query, window, always);
    GreedyStarts(line, query);
    if !stopped {
      if visited != [] { StopsAtOnce(always, visited); }
      return None;
    }
    return Some(visited[0].0);
  }

  lemma StopsAtOnce(stop: seq<(nat, nat)> -> bool, visited: seq<(nat, nat)>)
    requires visited != [] && stop(visited)
    ensures !NotStopped(stop, visited)
  {
    assert visited[..|visited|] == visited;
  }

  /** The greedy occurrences start with the first one, if there is any. */
  lemma GreedyStarts(line: seq<byte>, query: seq<byte>)
    requires query != []
    ensures Greedy(line, query, 0) != [] ==> FirstAt(line, query, Greedy(line, query, 0)[0].0)
    ensures Greedy(line, query, 0) == [] ==> !HasOccurrence(line, query)
  {
    var first := FirstFrom(line, query, 0);
    if first.None? {
      forall at ensures !Occurs(line, query, at) {
      }
    }
  }

  lemma SpansInBounds(payload: seq<byte>, spans: seq<Span>)
    requires AreLines(payload, spans)
    ensures InBounds(payload, spans)
  {
    hide Lines;
    var (finished, start) := Finished(payload, spans);
    LinesInBounds(payload, finished, start, |finished|);
  }

  lemma {:induction false} LinesInBounds(payload: seq<byte>, spans: seq<Span>, start: nat, n: nat)
    requires Lines(payload, spans, start, |payload|) && n <= |spans|
    ensures forall i :: 0 <= i < n ==> i <= spans[i].start <= spans[i].end < |payload|
    ensures n == |spans| ==> n <= start
  {
    if n > 0 {
      LinesInBounds(payload, spans, start, n - 1);
      assert IsLine(payload, spans, n - 1);
    }
  }

  /** `scan_payload` for a literal query; a span beyond 32 bits fails the scan. */
  method ScanPayload(payload: seq<byte>, query: seq<byte>, context: nat, window: nat, chunk: nat)
    returns (r: Option<seq<LineMatch>>, ghost spans: seq<Span>)
    requires window > 0 && chunk > 0
    ensures AreLines(payload, spans) && InBounds(payload, spans)
    ensures r.Some? ==> OnePerLine(payload, spans, query, context, |spans|, r.value)
    ensures r.None? ==> |payload| > U32_MAX
  {
    hide AreLines, InBounds, OnePerLine, IsMatchOf, FirstAt, HasOccurrence;
    var lines := LineSpansOf(payload, chunk);
    spans := lines;
    SpansInBounds(payload, lines);
    var results: seq<LineMatch> := [];
    NoneYet(payload, lines, query, context);
    for i := 0 to |lines|
      invariant OnePerLine(payload, lines, query, context, i, results)
    {
      SpanAt(payload, lines, i);
      var span := lines[i];
      var line := payload[span.start..span.end];
      var first := FirstOccurrence(line, query, window);
      if first.None? {
        LinePassed(payload, lines, query, context, i, results);
        continue;
      }
      var before := SaturatingSub(i, context);
      var after := Min(i + 1 + context, |lines|);
      if i + 1 > U32_MAX || span.end > U32_MAX || (i + 1 < after && lines[after - 1].end > U32_MAX) {
        if i + 1 < after { SpanAt(payload, lines, after - 1); }
        return None, spans;
      }
      var m := LineMatch(
        i + 1, first.value, Span(span.start, span.start + Min(|line|, PREVIEW_BYTES)), span.end,
        if before < i then Some(Span(lines[before].start, lines[i - 1].end)) else None,
        if i + 1 < after then Some(Span(lines[i + 1].start, lines[after - 1].end)) else None);
      MatchIs(payload, lines, query, context, i, m);
      LineMatched(payload, lines, query, context, i, results, m);
      results := results + [m];
    }
    return Some(results), spans;
  }

  lemma NoneYet(payload: seq<byte>, spans: seq<Span>, query: seq<byte>, context: nat)
    requires InBounds(payload, spans)
    ensures OnePerLine(payload, spans, query, context, 0, [])
  {
  }

  lemma SpanAt(payload: seq<byte>, spans: seq<Span>, i: nat)
    requires InBounds(payload, spans) && i < |spans|
    ensures i <= spans[i].start <= spans[i].end <= |payload| && spans[i].start < |payload|
  {
  }

  lemma MatchIs(payload: seq<byte>, spans: seq<Span>, query: seq<byte>, context: nat, i: nat, m: LineMatch)
    requires InBounds(payload, spans) && i < |spans| && FirstAt(LineOf(payload, spans[i]), query, m.column)
    requires m.number == i + 1 && m.lineEnd == spans[i].end
    requires m.preview == Span(spans[i].start, spans[i].start + Min(|LineOf(payload, spans[i])|, PREVIEW_BYTES))
    requires
      var before, after := SaturatingSub(i, context), Min(i + 1 + context, |spans|);
      && m.contextBefore == (if before < i then Some(Span(spans[before].start, spans[i - 1].end)) else None)
      && m.contextAfter == (if i + 1 < after then Some(Span(spans[i + 1].start, spans[after - 1].end)) else None)
    ensures IsMatchOf(payload, spans, query, context, i, m)
  {
    hide FirstAt;
  }

  lemma LinePassed(payload: seq<byte>, spans: seq<Span>, query: seq<byte>, context: nat, n: nat, ms: seq<LineMatch>)
    requires InBounds(payload, spans) && n < |spans| && OnePerLine(payload, spans, query, context, n, ms)
    requires !HasOccurrence(LineOf(payload, spans[n]), query)
    ensures OnePerLine(payload, spans, query, context, n + 1, ms)
  {
    hide IsMatchOf, HasOccurrence;
  }

  lemma MatchNumber(payload: seq<byte>, spans: seq<Span>, query: seq<byte>, context: nat, i: nat, m: LineMatch)
    requires InBounds(payload, spans) && i < |spans| && IsMatchOf(payload, spans, query, context, i, m)
    ensures m.number == i + 1
  {
  }

  lemma LineMatched(payload: seq<byte>, spans: seq<Span>, query: seq<byte>, context: nat, n: nat, ms: seq<LineMatch>, m: LineMatch)
    requires InBounds(payload, spans) && n < |spans| && OnePerLine(payload, spans, query, context, n, ms)
    requires IsMatchOf(payload, spans, query, context, n, m)
    ensures OnePerLine(payload, spans, query, context, n + 1, ms + [m])
  {
    hide HasOccurrence, IsMatchOf;
    var more := ms + [m];
    MatchNumber(payload, spans, query, context, n, m);
    assert more[|ms|] == m;
    forall i | 0 <= i < n + 1 && HasOccurrence(LineOf(payload, spans[i]), query)
      ensures exists k :: 0 <= k < |more| && more[k].number == i + 1
    {
      if i < n {
        var k :| 0 <= k < |ms| && ms[k].number == i + 1;
        assert more[k].number == i + 1;
      }
    }
  }

  lemma MatchUnique(payload: seq<byte>, spans: seq<Span>, query: seq<byte>, context: nat, i: nat, m: LineMatch, n: LineMatch)
    requires InBounds(payload, spans) && i < |spans|
    requires IsMatchOf(payload, spans, query, context, i, m) && IsMatchOf(payload, spans, query, context, i, n)
    ensures m == n && HasOccurrence(LineOf(payload, spans[i]), query)
  {
    hide FirstAt;
    FirstIsOne(LineOf(payload, spans[i]), query, m.column, n.column);
  }

  lemma FirstIsOne(line: seq<byte>, query: seq<byte>, a: nat, b: nat)
    requires FirstAt(line, query, a) && FirstAt(line, query, b)
    ensures a == b && HasOccurrence(line, query)
  {
  }

  /** Scans of the same payload have the same matches, whatever windows and chunks they used. */
  lemma ScanUnique(payload: seq<byte>, a: seq<Span>, ms: seq<LineMatch>, b: seq<Span>, ns: seq<LineMatch>, query: seq<byte>, context: nat, k: nat)
    requires AreLines(payload, a) && InBounds(payload, a) && OnePerLine(payload, a, query, context, |a|, ms)
    requires AreLines(payload, b) && InBounds(payload, b) && OnePerLine(payload, b, query, context, |b|, ns)
    requires k < |ms|
    ensures ms[k] in ns
  {
    hide AreLines, InBounds, IsMatchOf, HasOccurrence;
    SplitUnique(payload, a, b);
    var i := ms[k].number - 1;
    MatchUnique(payload, a, query, context, i, ms[k], ms[k]);
    var l :| 0 <= l < |ns| && ns[l].number == i + 1;
    MatchUnique(payload, a, query, context, i, ms[k], ns[l]);
  }
}
