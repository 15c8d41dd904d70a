/** What a byte 0xff does to a `.gitmodules` parse (crates/gitility-core/src/git_config.rs). */
module EndMarks {
  import opened Basics
  import opened GitConfig

  // ----- an end mark in place of the end of the input

  /** No end mark ahead, and nothing ahead once the end was read. */
  ghost predicate Clean(s: Stream) {
    END !in s.cs && (s.eof ==> s.cs == [])
  }

  /** The same stream when an end mark and `rest` follow its characters. */
  function Mark(s: Stream, rest: seq<Char>): Stream {
    if s.eof then Stream(rest, true) else Stream(s.cs + ([END] + rest), false)
  }

  /** Reading up to and including the end is the same with an end mark. */
  lemma NextMarked(s: Stream, rest: seq<Char>)
    requires Clean(s) && !s.eof
    ensures
      var (c, s1) := s.Next();
      && Clean(s1) && Mark(s, rest).Next() == (c, Mark(s1, rest))
      && (s1.eof ==> c == LF) && (c == BACKSLASH ==> !s1.eof) && s1.cs == (if s.cs == [] then [] else s.cs[1..])
      && (s.cs != [] ==> c == s.cs[0])
  {
    if s.cs == [] {
      assert Mark(s, rest).cs == [END] + rest;
    } else {
      assert (s.cs + ([END] + rest))[1..] == s.cs[1..] + ([END] + rest);
    }
  }

  lemma {:induction false} KeyMarked(s: Stream, name: Bytes, rest: seq<Char>)
    requires Clean(s) && !s.eof
    ensures
      var (c, s1, key) := ReadKey(s, name);
      Clean(s1) && ReadKey(Mark(s, rest), name) == (c, Mark(s1, rest), key) && (s1.eof ==> c == LF)
    decreases |s.cs|
  {
    hide ReadKey, Clean, Mark;
    NextMarked(s, rest);
    KeyUnfold(s, name);
    KeyUnfold(Mark(s, rest), name);
    var (c, s1) := s.Next();
    MarkKeepsFlag(s1, rest);
    if !s1.eof && IsKeyChar(c) {
      KeyMarked(s1, name + [Lower(Unsigned(c))], rest);
    }
  }

  lemma MarkKeepsFlag(s: Stream, rest: seq<Char>)
    ensures Mark(s, rest).eof == s.eof
  {
  }

  lemma {:induction false} BlanksMarked(c: Char, s: Stream, rest: seq<Char>)
    requires Clean(s) && (s.eof ==> c == LF)
    ensures
      var (c1, s1) := SkipBlanks(c, s);
      Clean(s1) && SkipBlanks(c, Mark(s, rest)) == (c1, Mark(s1, rest)) && (s1.eof ==> c1 == LF)
    decreases |s.cs|, if IsBlank(c) then 1 else 0
  {
    hide SkipBlanks, Clean, Mark;
    BlanksUnfold(c, s);
    BlanksUnfold(c, Mark(s, rest));
    if IsBlank(c) {
      NextMarked(s, rest);
      var (c1, s1) := s.Next();
      BlanksMarked(c1, s1, rest);
    }
  }

  /** The result of a reader, marked. */
  function MarkResult<T>(r: Option<(T, Stream)>, rest: seq<Char>): Option<(T, Stream)> {
    if r.None? then None else Some((r.value.0, Mark(r.value.1, rest)))
  }

  /** What has been read of a value when the end is met right behind an active backslash. */
  datatype Held = Held(value: Bytes, quoted: bool)

  function HeldAtEnd(cs: seq<Char>, value: Bytes, quoted: bool, comment: bool, trim: nat): Option<Held>
    decreases |cs|
  {
    if cs == [] || cs[0] == LF then None
    else if comment then HeldAtEnd(cs[1..], value, quoted, true, trim)
    else if IsSpace(cs[0]) && !quoted then
      HeldAtEnd(cs[1..], if value != [] then value + [Unsigned(cs[0])] else value, quoted, false, if trim == 0 then |value| else trim)
    else if !quoted && (cs[0] == SEMICOLON || cs[0] == HASH) then HeldAtEnd(cs[1..], value, quoted, true, trim)
    else if cs[0] == BACKSLASH then
      if |cs| == 1 then Some(Held(value, quoted))
      else if cs[1] == LF then HeldAtEnd(cs[2..], value, quoted, false, 0)
      else if Escape(cs[1]).None? then None
      else HeldAtEnd(cs[2..], value + [Escape(cs[1]).value], quoted, false, 0)
    else if cs[0] == QUOTE then HeldAtEnd(cs[1..], value, !quoted, false, 0)
    else HeldAtEnd(cs[1..], value + [Unsigned(cs[0])], quoted, false, 0)
  }

  /** The value when the input ends there: the end closes it, unless it is quoted. */
  function HeldResult(h: Held): Option<(Bytes, Stream)> {
    if h.quoted then None else Some((h.value, Stream([], true)))
  }

  /** The value when a mark stands there: it goes on with what follows. */
  function HeldOn(h: Held, rest: seq<Char>): Option<(Bytes, Stream)> {
    ReadValue(Stream(rest, true), h.value, h.quoted, false, 0)
  }

  /** A value ends at a mark as at the end of the input, unless a backslash is active there. */
  lemma {:induction false} ValueMarked(s: Stream, value: Bytes, quoted: bool, comment: bool, trim: nat, rest: seq<Char>)
    requires Clean(s) && !s.eof
    ensures
      var r := ReadValue(s, value, quoted, comment, trim);
      var marked := ReadValue(Mark(s, rest), value, quoted, comment, trim);
      match HeldAtEnd(s.cs, value, quoted, comment, trim)
      case Some(h) => r == HeldResult(h) && marked == HeldOn(h, rest)
      case None => marked == MarkResult(r, rest) && (r.Some? ==> Clean(r.value.1))
    decreases |s.cs|
  {
    hide ReadValue, Clean, Mark;
    NextMarked(s, rest);
    ValueUnfold(s, value, quoted, comment, trim);
    ValueUnfold(Mark(s, rest), value, quoted, comment, trim);
    var (c, s1) := s.Next();
    if c == LF {
    } else if comment {
      ValueMarked(s1, value, quoted, true, trim, rest);
    } else if IsSpace(c) && !quoted {
      ValueMarked(s1, if value != [] then value + [Unsigned(c)] else value, quoted, false, if trim == 0 then |value| else trim, rest);
    } else if !quoted && (c == SEMICOLON || c == HASH) {
      ValueMarked(s1, value, quoted, true, trim, rest);
    } else if c == BACKSLASH {
      NextMarked(s1, rest);
      var (e, s2) := s1.Next();
      if s1.cs == [] {
        EndedValue(s2, value, quoted);
        FlagMark(s2, rest);
      } else {
        assert s2.cs == s.cs[2..] && s1.cs[0] == s.cs[1];
        NextShrinks(s1);
        if e == LF {
          ValueMarked(s2, value, quoted, false, 0, rest);
        } else if Escape(e).Some? {
          ValueMarked(s2, value + [Escape(e).value], quoted, false, 0, rest);
        }
      }
    } else if c == QUOTE {
      ValueMarked(s1, value, !quoted, false, 0, rest);
    } else {
      ValueMarked(s1, value + [Unsigned(c)], quoted, false, 0, rest);
    }
  }

  /** Reading on once the end was read closes the value. */
  lemma EndedValue(s: Stream, value: Bytes, quoted: bool)
    requires Clean(s) && s.eof
    ensures ReadValue(s, value, quoted, false, 0) == HeldResult(Held(value, quoted))
  {
  }

  /** A read inside the text does not reach the end. */
  lemma NextShrinks(s: Stream)
    requires Clean(s) && s.cs != []
    ensures !s.eof && !s.Next().1.eof && |s.Next().1.cs| < |s.cs|
  {
  }

  lemma {:induction false} SpacesMarked(c: Char, s: Stream, rest: seq<Char>)
    requires Clean(s) && (s.eof ==> c == LF)
    ensures
      var r := SkipSpaces(c, s);
      SkipSpaces(c, Mark(s, rest)) == MarkResult(r, rest) && (r.Some? ==> Clean(r.value.1) && !r.value.1.eof)
    decreases |s.cs|, if c == LF then 0 else 1
  {
    hide SkipSpaces, Clean, Mark;
    SpacesUnfold(c, s);
    SpacesUnfold(c, Mark(s, rest));
    if c != LF {
      NextMarked(s, rest);
      var (c1, s1) := s.Next();
      if IsSpace(c1) {
        SpacesMarked(c1, s1, rest);
      }
    }
  }

  lemma {:induction false} QuotedMarked(s: Stream, name: Bytes, rest: seq<Char>)
    requires Clean(s) && !s.eof
    ensures
      var r := ReadQuoted(s, name);
      ReadQuoted(Mark(s, rest), name) == MarkResult(r, rest) && (r.Some? ==> Clean(r.value.1) && !r.value.1.eof)
    decreases |s.cs|
  {
    hide ReadQuoted, Clean, Mark;
    NextMarked(s, rest);
    QuotedUnfold(s, name);
    QuotedUnfold(Mark(s, rest), name);
    var (c, s1) := s.Next();
    if c == LF || c == QUOTE {
    } else if c == BACKSLASH {
      NextMarked(s1, rest);
      var (e, s2) := s1.Next();
      if e != LF {
        NextShrinks(s1);
        QuotedMarked(s2, name + [Unsigned(e)], rest);
      }
    } else {
      QuotedMarked(s1, name + [Unsigned(c)], rest);
    }
  }

  lemma SubsectionMarked(c: Char, s: Stream, name: Bytes, rest: seq<Char>)
    requires Clean(s) && (s.eof ==> c == LF)
    ensures
      var r := ReadSubsection(c, s, name);
      ReadSubsection(c, Mark(s, rest), name) == MarkResult(r, rest) && (r.Some? ==> Clean(r.value.1) && !r.value.1.eof)
  {
    hide SkipSpaces, ReadQuoted, Clean, Mark;
    SpacesMarked(c, s, rest);
    var start := SkipSpaces(c, s);
    if start.Some? && start.value.0 == QUOTE {
      QuotedMarked(start.value.1, name + [Unsigned(DOT)], rest);
      var quoted := ReadQuoted(start.value.1, name + [Unsigned(DOT)]);
      if quoted.Some? {
        NextMarked(quoted.value.1, rest);
      }
    }
  }

  lemma {:induction false} HeaderMarked(s: Stream, name: Bytes, rest: seq<Char>)
    requires Clean(s) && !s.eof
    ensures
      var r := ReadHeader(s, name);
      ReadHeader(Mark(s, rest), name) == MarkResult(r, rest) && (r.Some? ==> Clean(r.value.1) && !r.value.1.eof)
    decreases |s.cs|
  {
    hide ReadHeader, ReadSubsection, Clean, Mark;
    NextMarked(s, rest);
    HeaderUnfold(s, name);
    HeaderUnfold(Mark(s, rest), name);
    var (c, s1) := s.Next();
    MarkKeepsFlag(s1, rest);
    if !s1.eof && c != CLOSE {
      if IsSpace(c) {
        SubsectionMarked(c, s1, name, rest);
      } else if IsKeyChar(c) || c == DOT {
        HeaderMarked(s1, name + [Lower(Unsigned(c))], rest);
      }
    }
  }

  /** The key of an entry, and what is held of its value when the end is met behind an active backslash. */
  function EntryHeld(s: Stream, name: Bytes): Option<(Bytes, Held)> {
    var (c, s1, key) := ReadKey(s, name);
    var (c2, s2) := SkipBlanks(c, s1);
    var h := HeldAtEnd(s2.cs, [], false, false, 0);
    if c2 == EQUALS && h.Some? then Some((key, h.value)) else None
  }

  /** An entry with a given value result. */
  function EntryOf(key: Bytes, value: Option<(Bytes, Stream)>): Option<(Visit, Stream)> {
    if value.None? then None else Some((Visit(CString(key), Some(CString(value.value.0))), value.value.1))
  }

  lemma EntryMarked(s: Stream, name: Bytes, rest: seq<Char>)
    requires Clean(s) && !s.eof
    ensures
      var r := ReadEntry(s, name);
      var marked := ReadEntry(Mark(s, rest), name);
      match EntryHeld(s, name)
      case Some((key, h)) => r == EntryOf(key, HeldResult(h)) && marked == EntryOf(key, HeldOn(h, rest))
      case None => marked == MarkResult(r, rest) && (r.Some? ==> Clean(r.value.1))
  {
    hide ReadKey, SkipBlanks, ReadValue, CString, Clean, Mark, HeldAtEnd;
    KeyMarked(s, name, rest);
    var (c, s1, key) := ReadKey(s, name);
    BlanksMarked(c, s1, rest);
    var (c2, s2) := SkipBlanks(c, s1);
    if c2 == EQUALS {
      ValueMarked(s2, [], false, false, 0, rest);
    }
  }

  // ----- where the end of the input is met

  /** Reading meets the end of the input inside an entry, so that an end mark there is read as its line end. */
  predicate EndsInEntry(s: Stream, base: Bytes, comment: bool)
    decreases |s.cs|
  {
    var (c, s1) := s.Next();
    if c == LF then !s1.eof && EndsInEntry(s1, base, false)
    else if comment then EndsInEntry(s1, base, true)
    else if IsSpace(c) then EndsInEntry(s1, base, false)
    else if c == HASH || c == SEMICOLON then EndsInEntry(s1, base, true)
    else if c == OPEN then
      var header := ReadHeader(s1, []);
      header.Some? && header.value.0 != [] && EndsInEntry(header.value.1, header.value.0 + [Unsigned(DOT)], false)
    else if !IsAlpha(c) then false
    else
      var entry := ReadEntry(s1, base + [Lower(Unsigned(c))]);
      entry.Some? && (entry.value.1.eof || EndsInEntry(entry.value.1, base, false))
  }

  /** What is held when reading meets the end of the input right behind an active backslash in a value. */
  function EndHeld(s: Stream, base: Bytes, comment: bool): Option<Held>
    decreases |s.cs|
  {
    var (c, s1) := s.Next();
    if c == LF then (if s1.eof then None else EndHeld(s1, base, false))
    else if comment then EndHeld(s1, base, true)
    else if IsSpace(c) then EndHeld(s1, base, false)
    else if c == HASH || c == SEMICOLON then EndHeld(s1, base, true)
    else if c == OPEN then
      var header := ReadHeader(s1, []);
      if header.None? || header.value.0 == [] then None else EndHeld(header.value.1, header.value.0 + [Unsigned(DOT)], false)
    else if !IsAlpha(c) then None
    else
      var name := base + [Lower(Unsigned(c))];
      var entry := ReadEntry(s1, name);
      if EntryHeld(s1, name).Some? then Some(EntryHeld(s1, name).value.1)
      else if entry.None? || entry.value.1.eof then None
      else EndHeld(entry.value.1, base, false)
  }

  lemma HeldUnfold(s: Stream, base: Bytes, comment: bool)
    ensures
      var (c, s1) := s.Next();
      EndHeld(s, base, comment) ==
        if c == LF then (if s1.eof then None else EndHeld(s1, base, false))
        else if comment then EndHeld(s1, base, true)
        else if IsSpace(c) then EndHeld(s1, base, false)
        else if c == HASH || c == SEMICOLON then EndHeld(s1, base, true)
        else if c == OPEN then
          var header := ReadHeader(s1, []);
          if header.None? || header.value.0 == [] then None else EndHeld(header.value.1, header.value.0 + [Unsigned(DOT)], false)
        else if !IsAlpha(c) then None
        else
          var name := base + [Lower(Unsigned(c))];
          var entry := ReadEntry(s1, name);
          if EntryHeld(s1, name).Some? then Some(EntryHeld(s1, name).value.1)
          else if entry.None? || entry.value.1.eof then None
          else EndHeld(entry.value.1, base, false)
  {
  }

  lemma EndsUnfold(s: Stream, base: Bytes, comment: bool)
    ensures
      var (c, s1) := s.Next();
      EndsInEntry(s, base, comment) ==
        if c == LF then !s1.eof && EndsInEntry(s1, base, false)
        else if comment then EndsInEntry(s1, base, true)
        else if IsSpace(c) then EndsInEntry(s1, base, false)
        else if c == HASH || c == SEMICOLON then EndsInEntry(s1, base, true)
        else if c == OPEN then
          var header := ReadHeader(s1, []);
          header.Some? && header.value.0 != [] && EndsInEntry(header.value.1, header.value.0 + [Unsigned(DOT)], false)
        else if !IsAlpha(c) then false
        else
          var entry := ReadEntry(s1, base + [Lower(Unsigned(c))]);
          entry.Some? && (entry.value.1.eof || EndsInEntry(entry.value.1, base, false))
  {
  }

  // ----- what follows an entry that the mark ended

  /** Only space before a line break, another mark, a comment or the end. */
  predicate Quiet(rest: seq<Char>) {
    if rest == [] then true
    else if rest[0] == LF || rest[0] == END || rest[0] == HASH || rest[0] == SEMICOLON then true
    else IsSpace(rest[0]) && Quiet(rest[1..])
  }

  lemma {:induction false} CommentIsQuiet(rest: seq<Char>, base: Bytes)
    ensures ReadAll(Stream(rest, true), base, true) == ([], true)
    decreases |rest|
  {
    hide ReadAll;
    AllUnfold(Stream(rest, true), base, true);
    if rest != [] && rest[0] != LF && rest[0] != END {
      CommentIsQuiet(rest[1..], base);
    }
  }

  /** With the flag set, nothing more is visited and nothing fails if and only if what follows is quiet. */
  lemma {:induction false} QuietIff(rest: seq<Char>, base: Bytes)
    ensures ReadAll(Stream(rest, true), base, false) == ([], true) <==> Quiet(rest)
    decreases |rest|
  {
    hide ReadAll, ReadHeader, ReadEntry;
    AllUnfold(Stream(rest, true), base, false);
    if rest != [] && rest[0] != LF && rest[0] != END {
      if rest[0] == HASH || rest[0] == SEMICOLON {
        CommentIsQuiet(rest[1..], base);
      } else if IsSpace(rest[0]) {
        QuietIff(rest[1..], base);
      } else if rest[0] == OPEN {
        FlaggedHeader(rest[1..]);
      }
    }
  }

  lemma FlaggedHeader(rest: seq<Char>)
    ensures ReadHeader(Stream(rest, true), []).None?
  {
  }

  // ----- the mark against the end of the input

  /** Going on with what follows changes nothing: a quoted value still fails, another one keeps its visible bytes and quiet follows. */
  ghost predicate GoesOnUnchanged(h: Held, rest: seq<Char>) {
    var r := HeldOn(h, rest);
    if h.quoted then r.None? else r.Some? && CString(r.value.0) == CString(h.value) && Quiet(r.value.1.cs)
  }

  /** A mark is the end of the input: at an active backslash, at the line end of an entry, or elsewhere. */
  ghost predicate ActsAsEnd(s: Stream, base: Bytes, comment: bool, rest: seq<Char>) {
    match EndHeld(s, base, comment)
    case Some(h) => GoesOnUnchanged(h, rest)
    case None => !EndsInEntry(s, base, comment) || Quiet(rest)
  }

  lemma {:induction false} MarkedReads(s: Stream, base: Bytes, comment: bool, rest: seq<Char>)
    requires Clean(s) && !s.eof
    ensures ReadAll(Mark(s, rest), base, comment) == ReadAll(s, base, comment) <==> ActsAsEnd(s, base, comment, rest)
    decreases |s.cs|
  {
    hide ReadAll, ReadHeader, ReadEntry, Clean, Mark, EndsInEntry, Quiet, EndHeld, EntryHeld, GoesOnUnchanged;
    NextMarked(s, rest);
    AllUnfold(s, base, comment);
    AllUnfold(Mark(s, rest), base, comment);
    EndsUnfold(s, base, comment);
    HeldUnfold(s, base, comment);
    var (c, s1) := s.Next();
    MarkKeepsFlag(s1, rest);
    if c == LF {
      if !s1.eof { MarkedReads(s1, base, false, rest); }
    } else if comment || IsSpace(c) || c == HASH || c == SEMICOLON {
      MarkedReads(s1, base, comment || c == HASH || c == SEMICOLON, rest);
    } else if c == OPEN {
      HeaderMarked(s1, [], rest);
      var header := ReadHeader(s1, []);
      if header.Some? && header.value.0 != [] {
        MarkedReads(header.value.1, header.value.0 + [Unsigned(DOT)], false, rest);
      }
    } else if IsAlpha(c) {
      var name := base + [Lower(Unsigned(c))];
      EntryMarked(s1, name, rest);
      var held, entry := EntryHeld(s1, name), ReadEntry(s1, name);
      if held.Some? {
        HeldReads(held.value.0, held.value.1, base, rest);
      } else if entry.Some? {
        var s2 := entry.value.1;
        PrependSame(entry.value.0, ReadAll(Mark(s2, rest), base, false), ReadAll(s2, base, false));
        if s2.eof {
          EndedReads(s2, base);
          FlagMark(s2, rest);
          QuietIff(rest, base);
        } else {
          MarkedReads(s2, base, false, rest);
        }
      }
    }
  }

  /** The visits from an entry on. */
  function FromEntry(entry: Option<(Visit, Stream)>, base: Bytes): (seq<Visit>, bool) {
    if entry.None? then ([], false)
    else
      var (rest, ok) := ReadAll(entry.value.1, base, false);
      ([entry.value.0] + rest, ok)
  }

  /** Whether an entry that goes on behind the mark gives what the end would have given. */
  lemma HeldReads(key: Bytes, h: Held, base: Bytes, rest: seq<Char>)
    ensures FromEntry(EntryOf(key, HeldOn(h, rest)), base) == FromEntry(EntryOf(key, HeldResult(h)), base) <==> GoesOnUnchanged(h, rest)
  {
    hide ReadAll, ReadValue, CString, Quiet;
    var r := HeldOn(h, rest);
    if r.Some? && !h.quoted {
      FlagStays(Stream(rest, true), h.value, false, false, 0);
      QuietIff(r.value.1.cs, base);
      NothingBehind(base);
      var v, w := EntryOf(key, r).value.0, EntryOf(key, HeldResult(h)).value.0;
      var tail := ReadAll(r.value.1, base, false);
      assert ([v] + tail.0)[0] == v && ([w] + [])[0] == w;
      assert ([v] + tail.0)[1..] == tail.0 && ([w] + [])[1..] == [];
      assert v == w <==> CString(r.value.0) == CString(h.value);
    }
  }

  lemma NothingBehind(base: Bytes)
    ensures ReadAll(Stream([], true), base, false) == ([], true)
  {
  }

  lemma {:induction false} FlagStays(s: Stream, value: Bytes, quoted: bool, comment: bool, trim: nat)
    requires s.eof
    ensures
      var r := ReadValue(s, value, quoted, comment, trim);
      r.Some? ==> r.value.1.eof
    decreases |s.cs|
  {
    hide ReadValue;
    ValueUnfold(s, value, quoted, comment, trim);
    var (c, s1) := s.Next();
    if c == LF {
    } else if comment {
      FlagStays(s1, value, quoted, true, trim);
    } else if IsSpace(c) && !quoted {
      FlagStays(s1, if value != [] then value + [Unsigned(c)] else value, quoted, false, if trim == 0 then |value| else trim);
    } else if !quoted && (c == SEMICOLON || c == HASH) {
      FlagStays(s1, value, quoted, true, trim);
    } else if c == BACKSLASH {
      var (e, s2) := s1.Next();
      if e == LF {
        FlagStays(s2, value, quoted, false, 0);
      } else if Escape(e).Some? {
        FlagStays(s2, value + [Escape(e).value], quoted, false, 0);
      }
    } else if c == QUOTE {
      FlagStays(s1, value, !quoted, false, 0);
    } else {
      FlagStays(s1, value + [Unsigned(c)], quoted, false, 0);
    }
  }

  lemma PrependSame(v: Visit, a: (seq<Visit>, bool), b: (seq<Visit>, bool))
    ensures ([v] + a.0, a.1) == ([v] + b.0, b.1) <==> a == b
  {
    assert a.0 == ([v] + a.0)[1..] && b.0 == ([v] + b.0)[1..];
  }

  lemma EndedReads(s: Stream, base: Bytes)
    requires Clean(s) && s.eof
    ensures ReadAll(s, base, false) == ([], true)
  {
  }

  lemma FlagMark(s: Stream, rest: seq<Char>)
    requires s.eof
    ensures Mark(s, rest) == Stream(rest, true)
  {
  }

  // ----- whole inputs

  /** How many bytes the first character takes. */
  function Width(input: Bytes): nat {
    if |input| > 1 && input[0] == CR && (input[1] == LF || Signed(input[1]) == END) then 2 else 1
  }

  /** The first character. */
  function First(input: Bytes): Char
    requires input != []
  {
    if |input| > 1 && input[0] == CR && input[1] == LF then LF else Signed(input[0])
  }

  lemma CharsStep(input: Bytes)
    requires input != []
    ensures Width(input) <= |input| && Chars(input) == [First(input)] + Chars(input[Width(input)..])
  {
  }

  /** No character spans the two parts. */
  predicate SplitsApart(a: Bytes, b: Bytes) {
    a == [] || a[|a| - 1] != 13 || (b != [] && b[0] != 10 && b[0] != 255)
  }

  lemma StepConcat(a: Bytes, b: Bytes)
    requires a != [] && SplitsApart(a, b)
    ensures Width(a + b) == Width(a) <= |a| && First(a + b) == First(a) && (a + b)[Width(a)..] == a[Width(a)..] + b
    ensures SplitsApart(a[Width(a)..], b)
  {
  }

  lemma {:induction false} CharsConcat(a: Bytes, b: Bytes)
    requires SplitsApart(a, b)
    ensures Chars(a + b) == Chars(a) + Chars(b)
    decreases |a|
  {
    if a == [] {
      assert a + b == b && Chars(a) == [];
    } else {
      hide Chars, Width, First, SplitsApart;
      CharsStep(a);
      StepConcat(a, b);
      CharsStep(a + b);
      WidthIsPositive(a);
      CharsConcat(a[Width(a)..], b);
    }
  }

  lemma WidthIsPositive(input: Bytes)
    ensures Width(input) > 0
  {
  }

  /** Inputs without 0xff have no end mark among their characters. */
  lemma {:induction false} CharsClean(a: Bytes)
    requires 255 !in a
    ensures Clean(Fresh(Chars(a)))
    decreases |a|
  {
    if a != [] {
      if a[0] == CR && |a| > 1 && a[1] == LF {
        CharsClean(a[2..]);
      } else {
        CharsClean(a[1..]);
      }
    }
  }

  lemma MarkChar(post: Bytes)
    ensures Chars([255] + post) == [END] + Chars(post)
  {
    assert ([255] + post)[1..] == post;
  }

  /**
   * The first 0xff of an input, unless a CR swallows it, parses like the end
   * of the input if and only if it neither ends an entry with more than quiet
   * behind it, nor stands behind an active backslash where going on changes
   * the value, its verdict or what follows.
   */
  lemma EndMarkIff(pre: Bytes, post: Bytes)
    requires 255 !in pre && (pre == [] || pre[|pre| - 1] != 13)
    ensures Parsed(pre + ([255] + post)) == Parsed(pre) <==> ActsAsEnd(Fresh(Chars(pre)), [], false, Chars(post))
  {
    hide Chars, ReadAll, ActsAsEnd, Clean;
    CharsConcat(pre, [255] + post);
    MarkChar(post);
    CharsClean(pre);
    assert Mark(Fresh(Chars(pre)), Chars(post)) == Fresh(Chars(pre) + ([END] + Chars(post)));
    MarkedReads(Fresh(Chars(pre)), [], false, Chars(post));
  }

  /** Behind a CR the mark is swallowed: whatever surrounds it, the input parses as if the mark were not there. */
  lemma SwallowedMark(pre: Bytes, post: Bytes)
    ensures Parsed(pre + ([13, 255] + post)) == ReadAll(Fresh(Chars(pre) + ([CR] + Chars(post))), [], false)
    ensures post == [] || (post[0] != 10 && post[0] != 255) ==> Parsed(pre + ([13, 255] + post)) == Parsed(pre + ([13] + post))
  {
    hide Chars, ReadAll;
    CharsConcat(pre, [13, 255] + post);
    CharsConcat(pre, [13] + post);
    CrChars(post);
  }

  lemma CrChars(post: Bytes)
    ensures Chars([13, 255] + post) == [CR] + Chars(post)
    ensures post == [] || (post[0] != 10 && post[0] != 255) ==> Chars([13] + post) == [CR] + Chars(post)
  {
    assert ([13, 255] + post)[2..] == post && ([13] + post)[1..] == post;
  }

  // `[a]x=1`, and `y=2` behind a mark.
  const BEFORE: Bytes := [91, 97, 93, 120, 61, 49]
  const BEHIND: Bytes := [121, 61, 50]

  const VISIT_X: Visit := Visit([97, 46, 120], Some([49]))
  const VISIT_Y: Visit := Visit([97, 46, 121], Some([50]))

  lemma DigitEntry(d: Char, flag: bool, name: Bytes, tail: seq<Char>)
    requires 48 <= d <= 57 && (tail == [] || tail[0] == END) && 0 !in name
    ensures ReadEntry(Stream([EQUALS, d] + tail, flag), name)
      == Some((Visit(name, Some([d])), Stream(if tail == [] then [] else tail[1..], true)))
  {
    hide ReadKey, SkipBlanks, ReadValue, CString;
    var s := Stream([EQUALS, d] + tail, flag);
    assert ([EQUALS, d] + tail)[1..] == [d] + tail && ([d] + tail)[1..] == tail;
    KeyUnfold(s, name);
    BlanksUnfold(EQUALS, Stream([d] + tail, flag));
    ValueUnfold(Stream([d] + tail, flag), [], false, false, 0);
    assert [] + [Unsigned(d)] == [d];
    ValueUnfold(Stream(tail, flag), [d], false, false, 0);
    CStringWhole(name);
    CStringWhole([d]);
  }

  /** The characters of a short input without CR. */
  lemma PlainInput(t: Bytes)
    requires forall i :: 0 <= i < |t| ==> t[i] != 13 && t[i] != 255
    ensures Chars(t) == Signs(t)
  {
    PlainChars(t);
  }

  /** Reading `x=1` in section `a`, up to the end or to a mark. */
  lemma EntryX(tail: seq<Char>)
    requires tail == [] || tail[0] == END
    ensures
      var r := ReadAll(Stream(if tail == [] then [] else tail[1..], true), [97, 46], false);
      ReadAll(Fresh([120, EQUALS, 49] + tail), [97, 46], false) == ([VISIT_X] + r.0, r.1)
    ensures tail == [] ==> EndsInEntry(Fresh([120, EQUALS, 49] + tail), [97, 46], false)
  {
    hide ReadAll, ReadEntry, EndsInEntry;
    assert [120, EQUALS, 49] + tail == [120] + ([EQUALS, 49] + tail);
    NextOf(120, [EQUALS, 49] + tail);
    AllUnfold(Fresh([120] + ([EQUALS, 49] + tail)), [97, 46], false);
    EndsUnfold(Fresh([120] + ([EQUALS, 49] + tail)), [97, 46], false);
    assert [97, 46] + [Lower(Unsigned(120))] == [97, 46, 120];
    DigitEntry(49, false, [97, 46, 120], tail);
  }

  lemma EntryY()
    ensures ReadAll(Stream([121, EQUALS, 50], true), [97, 46], false) == ([VISIT_Y], true)
  {
    hide ReadAll, ReadEntry;
    assert [121, EQUALS, 50] == [121] + ([EQUALS, 50] + []);
    assert [121, EQUALS, 50][1..] == [EQUALS, 50] + [];
    AllUnfold(Stream([121, EQUALS, 50], true), [97, 46], false);
    assert [97, 46] + [Lower(Unsigned(121))] == [97, 46, 121];
    DigitEntry(50, true, [97, 46, 121], []);
    AllUnfold(Stream([], true), [97, 46], false);
    assert [VISIT_Y] + [] == [VISIT_Y];
  }

  /** Reading the header `[a]`. */
  lemma SectionA(rest: seq<Char>)
    ensures ReadAll(Fresh([OPEN, 97, CLOSE] + rest), [], false) == ReadAll(Fresh(rest), [97, 46], false)
    ensures EndsInEntry(Fresh([OPEN, 97, CLOSE] + rest), [], false) == EndsInEntry(Fresh(rest), [97, 46], false)
  {
    hide ReadAll, ReadHeader, EndsInEntry;
    var tail := Signs([97]) + ([CLOSE] + rest);
    assert [OPEN, 97, CLOSE] + rest == [OPEN] + tail;
    NextOf(OPEN, tail);
    AllUnfold(Fresh([OPEN] + tail), [], false);
    EndsUnfold(Fresh([OPEN] + tail), [], false);
    DottedHeader([97], rest);
    assert LowerAll([97]) == [97];
    assert [97] + [Unsigned(DOT)] == [97, 46];
  }

  lemma ExampleChars()
    ensures Chars(BEFORE) == [OPEN, 97, CLOSE] + ([120, EQUALS, 49] + [])
    ensures Chars(BEHIND) == [121, EQUALS, 50]
    ensures Chars(BEFORE + ([255] + BEHIND)) == [OPEN, 97, CLOSE] + ([120, EQUALS, 49] + ([END] + [121, EQUALS, 50]))
  {
    hide Chars, Signs;
    PlainInput(BEFORE);
    PlainInput(BEHIND);
    assert Signs(BEFORE) == [OPEN, 97, CLOSE] + ([120, EQUALS, 49] + []);
    assert Signs(BEHIND) == [121, EQUALS, 50];
    CharsConcat(BEFORE, [255] + BEHIND);
    MarkChar(BEHIND);
  }

  /** An entry behind the mark is visited, although the mark is said to be the end of the input. */
  lemma EntryBehindMark()
    ensures Parsed(BEFORE) == ([VISIT_X], true)
    ensures Parsed(BEFORE + ([255] + BEHIND)) == ([VISIT_X, VISIT_Y], true)
    ensures EndsInEntry(Fresh(Chars(BEFORE)), [], false) && !Quiet(Chars(BEHIND))
    ensures !ActsAsEnd(Fresh(Chars(BEFORE)), [], false, Chars(BEHIND))
  {
    hide ReadAll, EndsInEntry, Chars, ActsAsEnd;
    EndMarkIff(BEFORE, BEHIND);
    ExampleChars();
    var tail := [END] + [121, EQUALS, 50];
    assert tail[1..] == [121, EQUALS, 50];
    SectionA([120, EQUALS, 49] + []);
    SectionA([120, EQUALS, 49] + tail);
    EntryX([]);
    EntryX(tail);
    EntryY();
    AllUnfold(Stream([], true), [97, 46], false);
    assert [VISIT_X] + [VISIT_Y] == [VISIT_X, VISIT_Y] && [VISIT_X] + [] == [VISIT_X];
  }

  const VISIT_12: Visit := Visit([97, 46, 120], Some([49, 50]))

  /** `=1` and a backslash, up to the end or to a mark and `2`. */
  lemma EscapedEntry(name: Bytes, tail: seq<Char>)
    requires tail in {[], [END, 50]} && 0 !in name
    ensures ReadEntry(Fresh([EQUALS, 49, BACKSLASH] + tail), name)
      == Some((Visit(name, Some(if tail == [] then [49] else [49, 50])), Stream([], true)))
  {
    hide ReadKey, SkipBlanks, ReadValue, CString;
    var s, s1 := Fresh([EQUALS, 49, BACKSLASH] + tail), Fresh([49, BACKSLASH] + tail);
    assert ([EQUALS, 49, BACKSLASH] + tail)[1..] == s1.cs;
    KeyUnfold(s, name);
    BlanksUnfold(EQUALS, s1);
    EscapedOne(tail);
    CStringWhole(name);
    CStringWhole([49]);
    CStringWhole([49, 50]);
  }

  lemma EscapedOne(tail: seq<Char>)
    requires tail in {[], [END, 50]}
    ensures ReadValue(Fresh([49, BACKSLASH] + tail), [], false, false, 0) == Some((if tail == [] then [49] else [49, 50], Stream([], true)))
  {
    hide ReadValue;
    var s1, s2 := Fresh([49, BACKSLASH] + tail), Fresh([BACKSLASH] + tail);
    assert s1.cs[1..] == s2.cs && s2.cs[1..] == tail;
    ValueUnfold(s1, [], false, false, 0);
    assert [] + [Unsigned(49)] == [49];
    ValueUnfold(s2, [49], false, false, 0);
    if tail == [] {
      ValueUnfold(Stream([], true), [49], false, false, 0);
    } else {
      assert tail[1..] == [50] && [50][1..] == [];
      ValueUnfold(Stream([50], true), [49], false, false, 0);
      assert [49] + [Unsigned(50)] == [49, 50];
      ValueUnfold(Stream([], true), [49, 50], false, false, 0);
    }
  }

  /** Reading `x=1` and a backslash in section `a`. */
  lemma EscapedX(tail: seq<Char>)
    requires tail in {[], [END, 50]}
    ensures ReadAll(Fresh([120, EQUALS, 49, BACKSLASH] + tail), [97, 46], false) == ([if tail == [] then VISIT_X else VISIT_12], true)
  {
    hide ReadAll, ReadEntry;
    var more := [EQUALS, 49, BACKSLASH] + tail;
    assert [120, EQUALS, 49, BACKSLASH] + tail == [120] + more;
    NextOf(120, more);
    AllUnfold(Fresh([120] + more), [97, 46], false);
    assert [97, 46] + [Lower(Unsigned(120))] == [97, 46, 120];
    EscapedEntry([97, 46, 120], tail);
    NothingBehind([97, 46]);
    assert [VISIT_X] + [] == [VISIT_X] && [VISIT_12] + [] == [VISIT_12];
  }

  /** Behind a backslash the mark continues the value: the `2` behind it joins the `1` before. */
  lemma ValueBehindMark()
    ensures Parsed(BEFORE + [92]) == ([VISIT_X], true)
    ensures Parsed(BEFORE + [92] + ([255] + [50])) == ([VISIT_12], true)
    ensures !ActsAsEnd(Fresh(Chars(BEFORE + [92])), [], false, Chars([50]))
  {
    hide ReadAll, Chars, ActsAsEnd, Signs;
    var pre := BEFORE + [92];
    EndMarkIff(pre, [50]);
    PlainInput(pre);
    PlainInput([50]);
    CharsConcat(pre, [255] + [50]);
    MarkChar([50]);
    var cs := [OPEN, 97, CLOSE] + [120, EQUALS, 49, BACKSLASH];
    assert Signs(pre) == cs && Signs([50]) == [50];
    assert cs + [] == cs && [120, EQUALS, 49, BACKSLASH] + [] == [120, EQUALS, 49, BACKSLASH];
    assert cs + ([END] + [50]) == [OPEN, 97, CLOSE] + ([120, EQUALS, 49, BACKSLASH] + [END, 50]);
    SectionA([120, EQUALS, 49, BACKSLASH]);
    SectionA([120, EQUALS, 49, BACKSLASH] + [END, 50]);
    EscapedX([]);
    EscapedX([END, 50]);
  }
}
