/** The `.gitmodules` configuration parser (crates/gitility-core/src/git_config.rs). */
module GitConfig {
  import opened Basics

  type Bytes = seq<byte>

  /** A character as the parser sees it: a signed byte, with -1 for end of input. */
  type Char = c: int | -128 <= c < 128

  const TAB: Char := 9
  const LF: Char := 10
  const CR: Char := 13
  const SPACE: Char := 32
  const QUOTE: Char := 34
  const HASH: Char := 35
  const DOT: Char := 46
  const SEMICOLON: Char := 59
  const EQUALS: Char := 61
  const OPEN: Char := 91
  const BACKSLASH: Char := 92
  const CLOSE: Char := 93
  const END: Char := -1

  /** `i16::from(byte as i8)`. */
  function Signed(b: byte): Char {
    if b < 128 then b else b - 256
  }

  /** `c as u8`. */
  function Unsigned(c: Char): byte {
    if c < 0 then c + 256 else c
  }

  predicate IsAlpha(c: Char) {
    97 <= c <= 122 || 65 <= c <= 90
  }

  predicate IsKeyChar(c: Char) {
    IsAlpha(c) || 48 <= c <= 57 || c == 45
  }

  predicate IsSpace(c: Char) {
    c == TAB || c == LF || c == CR || c == SPACE
  }

  predicate IsBlank(c: Char) {
    c == SPACE || c == TAB
  }

  function Lower(b: byte): byte {
    if 65 <= b <= 90 then b + 32 else b
  }

  /** Bytes up to the first NUL, as a C string callback sees them. */
  function CString(bytes: Bytes): Bytes {
    if bytes == [] || bytes[0] == 0 then [] else [bytes[0]] + CString(bytes[1..])
  }

  // ----- the character stream

  /**
   * The characters of an input: CRLF is one LF, a byte 0xff is the end mark,
   * and an end mark right after a lone CR is swallowed.
   */
  function Chars(input: Bytes): seq<Char> {
    if input == [] then []
    else if input[0] == CR && |input| > 1 && input[1] == LF then [LF] + Chars(input[2..])
    else if input[0] == CR && |input| > 1 && Signed(input[1]) == END then [CR] + Chars(input[2..])
    else [Signed(input[0])] + Chars(input[1..])
  }

  /** What is still to be read, and whether an end was seen; the flag never clears. */
  datatype Stream = Stream(cs: seq<Char>, eof: bool) {
    /** `next_char`: an end reads as LF and sets the flag. */
    function Next(): (Char, Stream) {
      if cs == [] then (LF, Stream([], true))
      else if cs[0] == END then (LF, Stream(cs[1..], true))
      else (cs[0], Stream(cs[1..], eof))
    }
  }

  // ----- the parser as functions of the stream

  datatype Visit = Visit(name: Bytes, value: Option<Bytes>)

  function ReadKey(s: Stream, name: Bytes): (r: (Char, Stream, Bytes))
    ensures |r.1.cs| <= |s.cs|
    decreases |s.cs|
  {
    var (c, s1) := s.Next();
    if s1.eof || !IsKeyChar(c) then (c, s1, name) else ReadKey(s1, name + [Lower(Unsigned(c))])
  }

  function SkipBlanks(c: Char, s: Stream): (r: (Char, Stream))
    ensures |r.1.cs| <= |s.cs|
    decreases |s.cs|, if IsBlank(c) then 1 else 0
  {
    if !IsBlank(c) then (c, s)
    else
      var (c1, s1) := s.Next();
      SkipBlanks(c1, s1)
  }

  /** The byte an escape stands for. */
  function Escape(c: Char): Option<byte> {
    if c == 116 then Some(TAB as int)
    else if c == 98 then Some(8)
    else if c == 110 then Some(LF as int)
    else if c == BACKSLASH || c == QUOTE then Some(Unsigned(c))
    else None
  }

  function ReadValue(s: Stream, value: Bytes, quoted: bool, comment: bool, trim: nat): (r: Option<(Bytes, Stream)>)
    ensures r.Some? ==> |r.value.1.cs| <= |s.cs|
    decreases |s.cs|
  {
    var (c, s1) := s.Next();
    if c == LF then
      if quoted then None else Some((if 0 < trim <= |value| then value[..trim] else value, s1))
    else if comment then ReadValue(s1, value, quoted, true, trim)
    else if IsSpace(c) && !quoted then
      ReadValue(s1, if value != [] then value + [Unsigned(c)] else value, quoted, false, if trim == 0 then |value| else trim)
    else if !quoted && (c == SEMICOLON || c == HASH) then ReadValue(s1, value, quoted, true, trim)
    else if c == BACKSLASH then
      var (e, s2) := s1.Next();
      if e == LF then ReadValue(s2, value, quoted, false, 0)
      else if Escape(e).None? then None
      else ReadValue(s2, value + [Escape(e).value], quoted, false, 0)
    else if c == QUOTE then ReadValue(s1, value, !quoted, false, 0)
    else ReadValue(s1, value + [Unsigned(c)], quoted, false, 0)
  }

  function SkipSpaces(c: Char, s: Stream): (r: Option<(Char, Stream)>)
    ensures r.Some? ==> |r.value.1.cs| <= |s.cs|
    decreases |s.cs|, if c == LF then 0 else 1
  {
    if c == LF then None
    else
      var (c1, s1) := s.Next();
      if !IsSpace(c1) then Some((c1, s1)) else SkipSpaces(c1, s1)
  }

  function ReadQuoted(s: Stream, name: Bytes): (r: Option<(Bytes, Stream)>)
    ensures r.Some? ==> |r.value.1.cs| <= |s.cs|
    decreases |s.cs|
  {
    var (c, s1) := s.Next();
    if c == LF then None
    else if c == QUOTE then Some((name, s1))
    else if c == BACKSLASH then
      var (e, s2) := s1.Next();
      if e == LF then None else ReadQuoted(s2, name + [Unsigned(e)])
    else ReadQuoted(s1, name + [Unsigned(c)])
  }

  function ReadSubsection(c: Char, s: Stream, name: Bytes): (r: Option<(Bytes, Stream)>)
    ensures r.Some? ==> |r.value.1.cs| <= |s.cs|
  {
    var start := SkipSpaces(c, s);
    if start.None? || start.value.0 != QUOTE then None
    else
      var quoted := ReadQuoted(start.value.1, name + [Unsigned(DOT)]);
      if quoted.None? then None
      else
        var (close, s2) := quoted.value.1.Next();
        if close != CLOSE then None else Some((quoted.value.0, s2))
  }

  function ReadHeader(s: Stream, name: Bytes): (r: Option<(Bytes, Stream)>)
    ensures r.Some? ==> |r.value.1.cs| <= |s.cs|
    decreases |s.cs|
  {
    var (c, s1) := s.Next();
    if s1.eof then None
    else if c == CLOSE then Some((name, s1))
    else if IsSpace(c) then ReadSubsection(c, s1, name)
    else if !IsKeyChar(c) && c != DOT then None
    else ReadHeader(s1, name + [Lower(Unsigned(c))])
  }

  function ReadEntry(s: Stream, name: Bytes): (r: Option<(Visit, Stream)>)
    ensures r.Some? ==> |r.value.1.cs| <= |s.cs|
  {
    var (c, s1, key) := ReadKey(s, name);
    var (c2, s2) := SkipBlanks(c, s1);
    if c2 == LF then Some((Visit(CString(key), None), s2))
    else if c2 != EQUALS then None
    else
      var value := ReadValue(s2, [], false, false, 0);
      if value.None? then None else Some((Visit(CString(key), Some(CString(value.value.0))), value.value.1))
  }

  /** All visits, and whether the whole input was accepted. */
  function ReadAll(s: Stream, base: Bytes, comment: bool): (seq<Visit>, bool)
    decreases |s.cs|
  {
    var (c, s1) := s.Next();
    if c == LF then (if s1.eof then ([], true) else ReadAll(s1, base, false))
    else if comment then ReadAll(s1, base, true)
    else if IsSpace(c) then ReadAll(s1, base, false)
    else if c == HASH || c == SEMICOLON then ReadAll(s1, base, true)
    else if c == OPEN then
      var header := ReadHeader(s1, []);
      if header.None? || header.value.0 == [] then ([], false)
      else ReadAll(header.value.1, header.value.0 + [Unsigned(DOT)], false)
    else if !IsAlpha(c) then ([], false)
    else
      var entry := ReadEntry(s1, base + [Lower(Unsigned(c))]);
      if entry.None? then ([], false)
      else
        var (rest, ok) := ReadAll(entry.value.1, base, false);
        ([entry.value.0] + rest, ok)
  }

  /** `parse`. */
  function Parsed(input: Bytes): (seq<Visit>, bool) {
    ReadAll(Stream(Chars(input), false), [], false)
  }

  // ----- the parser object

  lemma CharsUnfold(input: Bytes, position: nat)
    requires position <= |input|
    ensures
      var rest := input[position..];
      Chars(rest) ==
        if position == |input| then []
        else if input[position] == CR && position + 1 < |input| && input[position + 1] == LF then [LF] + Chars(input[position + 2..])
        else if input[position] == CR && position + 1 < |input| && Signed(input[position + 1]) == END then [CR] + Chars(input[position + 2..])
        else [Signed(input[position])] + Chars(input[position + 1..])
  {
    var rest := input[position..];
    if rest != [] {
      assert rest[1..] == input[position + 1..];
      if |rest| > 1 {
        assert rest[2..] == input[position + 2..];
      }
    }
  }

  class Parser {
    const input: Bytes
    var position: nat
    var eof: bool
    var name: Bytes
    var value: Bytes
    var baseLen: nat
    /** The calls of the visitor so far. */
    var visits: seq<Visit>

    ghost predicate Valid()
      reads this
    {
      position <= |input|
    }

    ghost function Rest(): Stream
      requires Valid()
      reads this
    {
      Stream(Chars(input[position..]), eof)
    }

    constructor (input: Bytes)
      ensures Valid() && this.input == input && Rest() == Stream(Chars(input), false)
      ensures name == [] && baseLen == 0 && visits == []
    {
      this.input := input;
      position, eof, name, value, baseLen, visits := 0, false, [], [], 0, [];
      new;
      assert input[0..] == input;
    }

    method RawChar() returns (c: Char)
      requires Valid()
      modifies this`position
      ensures Valid()
      ensures if old(position) == |input| then c == END && position == old(position) else c == Signed(input[old(position)]) && position == old(position) + 1
    {
      if position == |input| { return END; }
      position := position + 1;
      return Signed(input[position - 1]);
    }

    method NextChar() returns (c: Char)
      requires Valid()
      modifies this`position, this`eof
      ensures Valid() && (c, Rest()) == old(Rest()).Next()
      ensures position >= old(position) && (old(position) < |input| ==> position > old(position))
    {
      hide Chars;
      ghost var at := position;
      CharsUnfold(input, at);
      c := RawChar();
      if c == CR {
        c := RawChar();
        if c != LF {
          if c != END { position := position - 1; }
          c := CR;
        }
      }
      if c == END {
        eof := true;
        c := LF;
      }
    }

    method ParseValue() returns (ok: bool)
      requires Valid()
      modifies this`position, this`eof, this`value
      ensures Valid() && position >= old(position)
      ensures
        var r := ReadValue(old(Rest()), [], false, false, 0);
        ok == r.Some? && (ok ==> r.value == (value, Rest()))
    {
      hide Chars, ReadValue;
      var quoted, comment := false, false;
      var trimLen: nat := 0;
      value := [];
      ghost var all := ReadValue(Rest(), [], false, false, 0);
      while true
        invariant Valid() && position >= old(position)
        invariant ReadValue(Rest(), value, quoted, comment, trimLen) == all
        decreases |input| - position
      {
        ghost var s, at := Rest(), position;
        ValueUnfold(s, value, quoted, comment, trimLen);
        var c := NextChar();
        EndReads(s, input, at);
        if c == LF {
          if quoted { return false; }
          if trimLen != 0 && trimLen <= |value| { value := value[..trimLen]; }
          return true;
        }
        if comment { continue; }
        if IsSpace(c) && !quoted {
          if trimLen == 0 { trimLen := |value|; }
          if value != [] { value := value + [Unsigned(c)]; }
          continue;
        }
        if !quoted && (c == SEMICOLON || c == HASH) {
          comment := true;
          continue;
        }
        trimLen := 0;
        if c == BACKSLASH {
          c := NextChar();
          if c == LF { continue; }
          var escaped := Escape(c);
          if escaped.None? { return false; }
          value := value + [escaped.value];
          continue;
        }
        if c == QUOTE {
          quoted := !quoted;
          continue;
        }
        value := value + [Unsigned(c)];
      }
    }

    method ParseQuotedSubsection(first: Char) returns (ok: bool)
      requires Valid()
      modifies this`position, this`eof, this`name
      ensures Valid() && position >= old(position)
      ensures
        var r := ReadSubsection(first, old(Rest()), old(name));
        ok == r.Some? && (ok ==> r.value == (name, Rest()))
    {
      hide Chars, ReadQuoted, SkipSpaces;
      var c := first;
      ghost var start := SkipSpaces(first, Rest());
      while true
        invariant Valid() && position >= old(position) && name == old(name)
        invariant SkipSpaces(c, Rest()) == start
        decreases |input| - position, if c == LF then 0 else 1
      {
        ghost var s, at := Rest(), position;
        SpacesUnfold(c, s);
        if c == LF { return false; }
        c := NextChar();
        EndReads(s, input, at);
        if !IsSpace(c) { break; }
      }
      if c != QUOTE { return false; }
      name := name + [Unsigned(DOT)];
      ghost var quoted := ReadQuoted(Rest(), name);
      while true
        invariant Valid() && position >= old(position)
        invariant ReadQuoted(Rest(), name) == quoted
        decreases |input| - position
      {
        ghost var s, at := Rest(), position;
        QuotedUnfold(s, name);
        c := NextChar();
        EndReads(s, input, at);
        if c == LF { return false; }
        if c == QUOTE { break; }
        if c == BACKSLASH {
          c := NextChar();
          if c == LF { return false; }
        }
        name := name + [Unsigned(c)];
      }
      c := NextChar();
      return c == CLOSE;
    }

    method ParseSectionHeader() returns (ok: bool)
      requires Valid()
      modifies this`position, this`eof, this`name
      ensures Valid() && position >= old(position)
      ensures
        var r := ReadHeader(old(Rest()), old(name));
        ok == r.Some? && (ok ==> r.value == (name, Rest()))
    {
      hide Chars, ReadHeader, ReadSubsection;
      ghost var all := ReadHeader(Rest(), name);
      while true
        invariant Valid() && position >= old(position)
        invariant ReadHeader(Rest(), name) == all
        decreases |input| - position
      {
        ghost var s, at := Rest(), position;
        HeaderUnfold(s, name);
        var c := NextChar();
        EndReads(s, input, at);
        if eof { return false; }
        if c == CLOSE { return true; }
        if IsSpace(c) {
          ok := ParseQuotedSubsection(c);
          return;
        }
        if !IsKeyChar(c) && c != DOT { return false; }
        name := name + [Lower(Unsigned(c))];
      }
    }

    method ParseEntry() returns (ok: bool)
      requires Valid()
      modifies this`position, this`eof, this`name, this`value, this`visits
      ensures Valid() && position >= old(position) && old(name) <= name
      ensures
        var r := ReadEntry(old(Rest()), old(name));
        ok == r.Some? && (if ok then r.value.1 == Rest() && visits == old(visits) + [r.value.0] else visits == old(visits))
    {
      hide Chars, ReadKey, SkipBlanks, ReadValue, CString;
      var c: Char;
      ghost var key := ReadKey(Rest(), name);
      while true
        invariant Valid() && position >= old(position) && old(name) <= name && visits == old(visits)
        invariant ReadKey(Rest(), name) == key
        decreases |input| - position
      {
        ghost var s, at := Rest(), position;
        KeyUnfold(s, name);
        c := NextChar();
        EndReads(s, input, at);
        if eof || !IsKeyChar(c) { break; }
        name := name + [Lower(Unsigned(c))];
      }
      ghost var blanks := SkipBlanks(c, Rest());
      ghost var full := name;
      while c == SPACE || c == TAB
        invariant Valid() && position >= old(position) && visits == old(visits) && name == full
        invariant SkipBlanks(c, Rest()) == blanks
        decreases |input| - position, if IsBlank(c) then 1 else 0
      {
        ghost var s, at := Rest(), position;
        BlanksUnfold(c, s);
        c := NextChar();
        EndReads(s, input, at);
      }
      BlanksUnfold(c, Rest());
      if c == LF {
        visits := visits + [Visit(CString(name), None)];
        return true;
      }
      if c != EQUALS { return false; }
      ok := ParseValue();
      if ok { visits := visits + [Visit(CString(name), Some(CString(value)))]; }
    }

    /** `Parser::parse`: terminates on every input with the visits and the verdict of the specification. */
    method Parse() returns (ok: bool)
      requires Valid() && baseLen <= |name|
      modifies this
      ensures Valid()
      ensures
        var r := ReadAll(old(Rest()), old(name)[..old(baseLen)], false);
        visits == old(visits) + r.0 && ok == r.1
    {
      hide Chars, ReadAll, ReadHeader, ReadEntry;
      var comment := false;
      ghost var all := ReadAll(Rest(), name[..baseLen], false);
      ghost var done: seq<Visit> := [];
      assert done + all.0 == all.0;
      while true
        invariant Valid() && baseLen <= |name| && visits == old(visits) + done
        invariant
          var r := ReadAll(Rest(), name[..baseLen], comment);
          all == (done + r.0, r.1)
        decreases |input| - position
      {
        ghost var s, at := Rest(), position;
        ghost var base := name[..baseLen];
        AllUnfold(s, base, comment);
        var c := NextChar();
        EndReads(s, input, at);
        if c == LF {
          if eof { return true; }
          comment := false;
          continue;
        }
        if comment { continue; }
        if IsSpace(c) { continue; }
        if c == HASH || c == SEMICOLON {
          comment := true;
          continue;
        }
        if c == OPEN {
          name := [];
          var header := ParseSectionHeader();
          if !header || name == [] { return false; }
          name := name + [Unsigned(DOT)];
          baseLen := |name|;
          assert name[..baseLen] == name;
          continue;
        }
        if !IsAlpha(c) { return false; }
        name := name[..baseLen];
        name := name + [Lower(Unsigned(c))];
        ghost var before := visits;
        var entry := ParseEntry();
        if !entry { return false; }
        ghost var v := ReadEntry(s.Next().1, base + [Lower(Unsigned(c))]).value.0;
        ghost var rest := ReadAll(Rest(), base, false).0;
        assert done + ([v] + rest) == (done + [v]) + rest;
        done := done + [v];
        assert name[..baseLen] == base;
      }
    }
  }

  /** At the end of the input every read is an LF that sets the flag. */
  lemma EndReads(s: Stream, input: Bytes, position: nat)
    requires position <= |input| && s.cs == Chars(input[position..])
    ensures position == |input| ==> s.Next() == (LF, Stream([], true))
  {
  }

  lemma ValueUnfold(s: Stream, value: Bytes, quoted: bool, comment: bool, trim: nat)
    ensures
      var (c, s1) := s.Next();
      ReadValue(s, value, quoted, comment, trim) ==
        if c == LF then
          if quoted then None else Some((if 0 < trim <= |value| then value[..trim] else value, s1))
        else if comment then ReadValue(s1, value, quoted, true, trim)
        else if IsSpace(c) && !quoted then
          ReadValue(s1, if value != [] then value + [Unsigned(c)] else value, quoted, false, if trim == 0 then |value| else trim)
        else if !quoted && (c == SEMICOLON || c == HASH) then ReadValue(s1, value, quoted, true, trim)
        else if c == BACKSLASH then
          var (e, s2) := s1.Next();
          if e == LF then ReadValue(s2, value, quoted, false, 0)
          else if Escape(e).None? then None
          else ReadValue(s2, value + [Escape(e).value], quoted, false, 0)
        else if c == QUOTE then ReadValue(s1, value, !quoted, false, 0)
        else ReadValue(s1, value + [Unsigned(c)], quoted, false, 0)
  {
  }

  lemma SpacesUnfold(c: Char, s: Stream)
    ensures
      var (c1, s1) := s.Next();
      SkipSpaces(c, s) == if c == LF then None else if !IsSpace(c1) then Some((c1, s1)) else SkipSpaces(c1, s1)
  {
  }

  lemma QuotedUnfold(s: Stream, name: Bytes)
    ensures
      var (c, s1) := s.Next();
      ReadQuoted(s, name) ==
        if c == LF then None
        else if c == QUOTE then Some((name, s1))
        else if c == BACKSLASH then
          var (e, s2) := s1.Next();
          if e == LF then None else ReadQuoted(s2, name + [Unsigned(e)])
        else ReadQuoted(s1, name + [Unsigned(c)])
  {
  }

  lemma HeaderUnfold(s: Stream, name: Bytes)
    ensures
      var (c, s1) := s.Next();
      ReadHeader(s, name) ==
        if s1.eof then None
        else if c == CLOSE then Some((name, s1))
        else if IsSpace(c) then ReadSubsection(c, s1, name)
        else if !IsKeyChar(c) && c != DOT then None
        else ReadHeader(s1, name + [Lower(Unsigned(c))])
  {
  }

  lemma KeyUnfold(s: Stream, name: Bytes)
    ensures
      var (c, s1) := s.Next();
      ReadKey(s, name) == if s1.eof || !IsKeyChar(c) then (c, s1, name) else ReadKey(s1, name + [Lower(Unsigned(c))])
  {
  }

  lemma BlanksUnfold(c: Char, s: Stream)
    ensures SkipBlanks(c, s) == if !IsBlank(c) then (c, s) else var (c1, s1) := s.Next(); SkipBlanks(c1, s1)
  {
  }

  lemma AllUnfold(s: Stream, base: Bytes, comment: bool)
    ensures
      var (c, s1) := s.Next();
      ReadAll(s, base, comment) ==
        if c == LF then (if s1.eof then ([], true) else ReadAll(s1, base, false))
        else if comment then ReadAll(s1, base, true)
        else if IsSpace(c) then ReadAll(s1, base, false)
        else if c == HASH || c == SEMICOLON then ReadAll(s1, base, true)
        else if c == OPEN then
          var header := ReadHeader(s1, []);
          if header.None? || header.value.0 == [] then ([], false)
          else ReadAll(header.value.1, header.value.0 + [Unsigned(DOT)], false)
        else if !IsAlpha(c) then ([], false)
        else
          var entry := ReadEntry(s1, base + [Lower(Unsigned(c))]);
          if entry.None? then ([], false)
          else
            var (rest, ok) := ReadAll(entry.value.1, base, false);
            ([entry.value.0] + rest, ok)
  {
  }

  // ----- standard form

  datatype ConfigEntry = ConfigEntry(key: Bytes, value: Bytes)

  datatype Section = Section(name: Bytes, subsection: Bytes, entries: seq<ConfigEntry>)

  const BACK: byte := 92

  function EscapedByte(b: byte, inValue: bool): seq<byte> {
    if b == 34 || b == 92 then [BACK, b]
    else if inValue && b == 10 then [BACK, 110]
    else if inValue && b == 9 then [BACK, 116]
    else if inValue && b == 8 then [BACK, 98]
    else [b]
  }

  /** Quotes and backslashes are escaped; in values also LF, tab and backspace. */
  function Escaped(bytes: Bytes, inValue: bool): Bytes {
    if bytes == [] then [] else EscapedByte(bytes[0], inValue) + Escaped(bytes[1..], inValue)
  }

  /** A quoted string and its closing quote. */
  function Quoted(bytes: Bytes, inValue: bool): Bytes {
    Escaped(bytes, inValue) + [34]
  }

  function PrintEntry(e: ConfigEntry): Bytes {
    [9] + e.key + [32, 61, 32, 34] + Quoted(e.value, true) + [10]
  }

  function PrintEntries(es: seq<ConfigEntry>): Bytes {
    if es == [] then [] else PrintEntry(es[0]) + PrintEntries(es[1..])
  }

  function PrintHeader(sec: Section): Bytes {
    [91] + sec.name + [32, 34] + Quoted(sec.subsection, false) + [93, 10]
  }

  function Print(doc: seq<Section>): Bytes {
    if doc == [] then [] else PrintHeader(doc[0]) + PrintEntries(doc[0].entries) + Print(doc[1..])
  }

  /** A letter, a digit or a hyphen. */
  predicate NameByte(b: byte) {
    65 <= b <= 90 || 97 <= b <= 122 || 48 <= b <= 57 || b == 45
  }

  predicate KeyOk(key: Bytes) {
    key != [] && (65 <= key[0] <= 90 || 97 <= key[0] <= 122) && forall i :: 0 <= i < |key| ==> NameByte(key[i])
  }

  predicate SectionNameOk(name: Bytes) {
    forall i :: 0 <= i < |name| ==> NameByte(name[i]) || name[i] == 46
  }

  predicate EntryOk(e: ConfigEntry) {
    KeyOk(e.key) && 0 !in e.value && 255 !in e.value
  }

  predicate SectionOk(sec: Section) {
    && SectionNameOk(sec.name) && 0 !in sec.subsection && 10 !in sec.subsection && 255 !in sec.subsection
    && forall i :: 0 <= i < |sec.entries| ==> EntryOk(sec.entries[i])
  }

  /** ASCII upper case becomes lower case; every other byte stays. */
  function LowerAll(bytes: Bytes): (r: Bytes)
    ensures |r| == |bytes| && forall i :: 0 <= i < |r| ==> r[i] == if 65 <= bytes[i] <= 90 then bytes[i] + 32 else bytes[i]
  {
    if bytes == [] then [] else [Lower(bytes[0])] + LowerAll(bytes[1..])
  }

  function SectionBase(sec: Section): Bytes {
    LowerAll(sec.name) + [46] + sec.subsection + [46]
  }

  /** The visits a section stands for. */
  function EntryVisits(base: Bytes, es: seq<ConfigEntry>): seq<Visit> {
    if es == [] then [] else [Visit(base + LowerAll(es[0].key), Some(es[0].value))] + EntryVisits(base, es[1..])
  }

  function DocVisits(doc: seq<Section>): seq<Visit> {
    if doc == [] then [] else EntryVisits(SectionBase(doc[0]), doc[0].entries) + DocVisits(doc[1..])
  }

  // ----- printed text as a character stream

  function Signs(bytes: Bytes): (r: seq<Char>)
    ensures |r| == |bytes| && forall i :: 0 <= i < |r| ==> r[i] == Signed(bytes[i])
  {
    if bytes == [] then [] else [Signed(bytes[0])] + Signs(bytes[1..])
  }

  lemma SignsConcat(a: Bytes, b: Bytes)
    ensures Signs(a + b) == Signs(a) + Signs(b)
  {
  }

  /** No 0xff, and no CR before an LF or at the end. */
  predicate Plain(t: Bytes) {
    forall i :: 0 <= i < |t| ==> PlainAt(t, i)
  }

  predicate PlainAt(t: Bytes, i: nat)
    requires i < |t|
  {
    t[i] != 255 && (t[i] == 13 ==> i + 1 < |t| && t[i + 1] != 10)
  }

  lemma PlainConcat(a: Bytes, b: Bytes)
    requires Plain(a) && Plain(b)
    ensures Plain(a + b)
  {
    forall i | 0 <= i < |a + b| ensures PlainAt(a + b, i) {
      if i < |a| {
        assert PlainAt(a, i);
      } else {
        assert PlainAt(b, i - |a|);
      }
    }
  }

  lemma {:induction false} PlainChars(t: Bytes)
    requires Plain(t)
    ensures Chars(t) == Signs(t)
  {
    if t != [] {
      assert PlainAt(t, 0) && (|t| > 1 ==> PlainAt(t, 1));
      forall i | 0 <= i < |t[1..]| ensures PlainAt(t[1..], i) {
        assert PlainAt(t, i + 1);
      }
      PlainChars(t[1..]);
    }
  }

  lemma {:induction false} QuotedPlain(bytes: Bytes, inValue: bool)
    requires 255 !in bytes && (inValue || 10 !in bytes)
    ensures Plain(Quoted(bytes, inValue)) && Quoted(bytes, inValue)[0] != 10
  {
    if bytes != [] {
      QuotedPlain(bytes[1..], inValue);
      var piece, rest := EscapedByte(bytes[0], inValue), Quoted(bytes[1..], inValue);
      assert Quoted(bytes, inValue) == piece + rest;
      PiecePlain(bytes[0], inValue, rest);
    }
  }

  lemma PiecePlain(b: byte, inValue: bool, rest: Bytes)
    requires b != 255 && (inValue || b != 10) && rest != [] && Plain(rest) && rest[0] != 10
    ensures Plain(EscapedByte(b, inValue) + rest) && (EscapedByte(b, inValue) + rest)[0] != 10
  {
    var piece := EscapedByte(b, inValue);
    var all := piece + rest;
    assert forall i :: 0 <= i < |piece| ==> piece[i] != 255 && piece[i] != 10;
    forall i | 0 <= i < |all| ensures PlainAt(all, i) {
      if i >= |piece| {
        assert PlainAt(rest, i - |piece|);
      }
    }
  }

  lemma NamesPlain(name: Bytes)
    requires SectionNameOk(name)
    ensures Plain(name)
  {
    forall i | 0 <= i < |name| ensures PlainAt(name, i) {
      assert IsKeyChar(Signed(name[i])) || name[i] == 46;
    }
  }

  lemma EntryPlain(e: ConfigEntry)
    requires EntryOk(e)
    ensures Plain(PrintEntry(e))
  {
    NamesPlain(e.key);
    QuotedPlain(e.value, true);
    PlainConcat([9], e.key);
    PlainConcat([9] + e.key, [32, 61, 32, 34]);
    PlainConcat([9] + e.key + [32, 61, 32, 34], Quoted(e.value, true));
    PlainConcat([9] + e.key + [32, 61, 32, 34] + Quoted(e.value, true), [10]);
  }

  lemma HeaderPlain(sec: Section)
    requires SectionOk(sec)
    ensures Plain(PrintHeader(sec))
  {
    NamesPlain(sec.name);
    QuotedPlain(sec.subsection, false);
    PlainConcat([91], sec.name);
    PlainConcat([91] + sec.name, [32, 34]);
    PlainConcat([91] + sec.name + [32, 34], Quoted(sec.subsection, false));
    PlainConcat([91] + sec.name + [32, 34] + Quoted(sec.subsection, false), [93, 10]);
  }

  lemma {:induction false} EntriesPlain(es: seq<ConfigEntry>)
    requires forall i :: 0 <= i < |es| ==> EntryOk(es[i])
    ensures Plain(PrintEntries(es))
  {
    hide PrintEntry, EntryOk, Plain;
    if es == [] {
      EmptyPlain();
    } else {
      EntryPlain(es[0]);
      EntriesPlain(es[1..]);
      PlainConcat(PrintEntry(es[0]), PrintEntries(es[1..]));
    }
  }

  lemma EmptyPlain()
    ensures Plain([])
  {
  }

  lemma {:induction false} PrintPlain(doc: seq<Section>)
    requires forall i :: 0 <= i < |doc| ==> SectionOk(doc[i])
    ensures Plain(Print(doc))
  {
    hide PrintHeader, PrintEntries, Plain;
    if doc == [] {
      EmptyPlain();
    } else {
      HeaderPlain(doc[0]);
      EntriesPlain(doc[0].entries);
      PrintPlain(doc[1..]);
      PlainConcat(PrintHeader(doc[0]), PrintEntries(doc[0].entries));
      PlainConcat(PrintHeader(doc[0]) + PrintEntries(doc[0].entries), Print(doc[1..]));
    }
  }

  // ----- reading printed text back

  function Fresh(cs: seq<Char>): Stream {
    Stream(cs, false)
  }

  lemma NextOf(c: Char, rest: seq<Char>)
    requires c != END
    ensures Fresh([c] + rest).Next() == (c, Fresh(rest))
  {
    assert ([c] + rest)[1..] == rest;
  }

  lemma ValueStep(b: byte, value: Bytes, rest: seq<Char>)
    requires b != 255
    ensures ReadValue(Fresh(Signs(EscapedByte(b, true)) + rest), value, true, false, 0) == ReadValue(Fresh(rest), value + [b], true, false, 0)
  {
    hide ReadValue;
    var piece := EscapedByte(b, true);
    var cs := Signs(piece) + rest;
    ValueUnfold(Fresh(cs), value, true, false, 0);
    if |piece| == 1 {
      assert cs == [Signed(b)] + rest;
      NextOf(Signed(b), rest);
    } else {
      assert cs == [BACKSLASH] + ([Signed(piece[1])] + rest);
      NextOf(BACKSLASH, [Signed(piece[1])] + rest);
      NextOf(Signed(piece[1]), rest);
    }
  }

  /** A quoted string as characters: its first byte's escape, or the closing quote. */
  lemma QuotedSplit(v: Bytes, inValue: bool, rest: seq<Char>)
    ensures v == [] ==> Signs(Quoted(v, inValue)) + rest == [QUOTE] + rest
    ensures v != [] ==>
      Signs(Quoted(v, inValue)) + rest == Signs(EscapedByte(v[0], inValue)) + (Signs(Quoted(v[1..], inValue)) + rest)
  {
    hide Signs, EscapedByte, Escaped;
    EscapedUnfolds(v, inValue);
    if v == [] {
      OneSign(34);
    } else {
      var piece, more := EscapedByte(v[0], inValue), Quoted(v[1..], inValue);
      Associates(piece, Escaped(v[1..], inValue), [34]);
      SignsConcat(piece, more);
      Associates(Signs(piece), Signs(more), rest);
    }
  }

  lemma EscapedUnfolds(v: Bytes, inValue: bool)
    ensures v == [] ==> Escaped(v, inValue) == [] && Quoted(v, inValue) == [34]
    ensures v != [] ==> Escaped(v, inValue) == EscapedByte(v[0], inValue) + Escaped(v[1..], inValue)
  {
  }

  lemma {:induction false} ValueReads(v: Bytes, value: Bytes, rest: seq<Char>)
    requires 255 !in v
    ensures ReadValue(Fresh(Signs(Quoted(v, true)) + ([LF] + rest)), value, true, false, 0) == Some((value + v, Fresh(rest)))
  {
    hide ReadValue, Quoted, Signs, EscapedByte;
    QuotedSplit(v, true, [LF] + rest);
    if v == [] {
      NextOf(QUOTE, [LF] + rest);
      NextOf(LF, rest);
      ValueUnfold(Fresh([QUOTE] + ([LF] + rest)), value, true, false, 0);
      ValueUnfold(Fresh([LF] + rest), value, false, false, 0);
      assert value + v == value;
    } else {
      ValueStep(v[0], value, Signs(Quoted(v[1..], true)) + ([LF] + rest));
      ValueReads(v[1..], value + [v[0]], rest);
      assert value + [v[0]] + v[1..] == value + v;
    }
  }

  lemma SubsectionStep(b: byte, name: Bytes, rest: seq<Char>)
    requires b != 255 && b != 10
    ensures ReadQuoted(Fresh(Signs(EscapedByte(b, false)) + rest), name) == ReadQuoted(Fresh(rest), name + [b])
  {
    hide ReadQuoted;
    var piece := EscapedByte(b, false);
    var cs := Signs(piece) + rest;
    QuotedUnfold(Fresh(cs), name);
    if |piece| == 1 {
      assert cs == [Signed(b)] + rest;
      NextOf(Signed(b), rest);
    } else {
      assert cs == [BACKSLASH] + ([Signed(b)] + rest);
      NextOf(BACKSLASH, [Signed(b)] + rest);
      NextOf(Signed(b), rest);
    }
  }

  lemma {:induction false} SubsectionReads(sub: Bytes, name: Bytes, rest: seq<Char>)
    requires 255 !in sub && 10 !in sub
    ensures ReadQuoted(Fresh(Signs(Quoted(sub, false)) + rest), name) == Some((name + sub, Fresh(rest)))
  {
    hide ReadQuoted, Quoted, Signs, EscapedByte;
    QuotedSplit(sub, false, rest);
    if sub == [] {
      NextOf(QUOTE, rest);
      QuotedUnfold(Fresh([QUOTE] + rest), name);
      assert name + sub == name;
    } else {
      SubsectionStep(sub[0], name, Signs(Quoted(sub[1..], false)) + rest);
      SubsectionReads(sub[1..], name + [sub[0]], rest);
      assert name + [sub[0]] + sub[1..] == name + sub;
    }
  }

  lemma {:induction false} NameReads(n: Bytes, name: Bytes, rest: seq<Char>)
    requires SectionNameOk(n)
    ensures ReadHeader(Fresh(Signs(n) + rest), name) == ReadHeader(Fresh(rest), name + LowerAll(n))
  {
    hide ReadHeader, Signs, LowerAll, ReadSubsection;
    NameSplits(n, name, rest);
    if n != [] {
      assert IsKeyChar(Signed(n[0])) || n[0] == 46;
      NextOf(Signed(n[0]), Signs(n[1..]) + rest);
      HeaderUnfold(Fresh(Signs(n) + rest), name);
      NameReads(n[1..], name + [Lower(n[0])], rest);
    }
  }

  /** The first character of a name, before and after reading it. */
  lemma {:induction false} NameSplits(n: Bytes, name: Bytes, rest: seq<Char>)
    ensures n == [] ==> Signs(n) + rest == rest && name + LowerAll(n) == name
    ensures n != [] ==> Signs(n) + rest == [Signed(n[0])] + (Signs(n[1..]) + rest)
    ensures n != [] ==> name + LowerAll(n) == name + [Lower(n[0])] + LowerAll(n[1..])
  {
    hide Signs, LowerAll;
    TextSplits(n);
    if n != [] {
      Associates([Signed(n[0])], Signs(n[1..]), rest);
      Associates(name, [Lower(n[0])], LowerAll(n[1..]));
    }
  }

  lemma {:induction false} TextSplits(n: Bytes)
    ensures n == [] ==> Signs(n) == [] && LowerAll(n) == []
    ensures n != [] ==> Signs(n) == [Signed(n[0])] + Signs(n[1..]) && LowerAll(n) == [Lower(n[0])] + LowerAll(n[1..])
  {
  }

  lemma Associates<T>(a: seq<T>, b: seq<T>, c: seq<T>)
    ensures a + b + c == a + (b + c)
  {
  }

  lemma {:induction false} KeyReads(k: Bytes, name: Bytes, rest: seq<Char>)
    requires forall i :: 0 <= i < |k| ==> IsKeyChar(Signed(k[i]))
    ensures ReadKey(Fresh(Signs(k) + ([SPACE] + rest)), name) == (SPACE, Fresh(rest), name + LowerAll(k))
  {
    hide ReadKey, Signs, LowerAll;
    NameSplits(k, name, [SPACE] + rest);
    if k == [] {
      NextOf(SPACE, rest);
      KeyUnfold(Fresh([SPACE] + rest), name);
    } else {
      var more := Signs(k[1..]) + ([SPACE] + rest);
      NextOf(Signed(k[0]), more);
      KeyUnfold(Fresh([Signed(k[0])] + more), name);
      KeyReads(k[1..], name + [Lower(k[0])], rest);
    }
  }

  lemma {:induction false} CStringWhole(bytes: Bytes)
    requires 0 !in bytes
    ensures CString(bytes) == bytes
  {
    if bytes != [] {
      CStringWhole(bytes[1..]);
    }
  }

  /** The header of a section gives its base name. */
  lemma HeaderReads(sec: Section, rest: seq<Char>)
    requires SectionOk(sec)
    ensures ReadHeader(Fresh(Signs(sec.name + [32, 34] + Quoted(sec.subsection, false) + [93]) + rest), [])
      == Some((LowerAll(sec.name) + [46] + sec.subsection, Fresh(rest)))
  {
    hide ReadHeader, ReadQuoted, SkipSpaces, Signs, Escaped;
    var quoted := Quoted(sec.subsection, false);
    var tail := Signs(quoted) + ([CLOSE] + rest);
    var lower := LowerAll(sec.name);
    SignsConcat(sec.name + [32, 34] + quoted, [93]);
    SignsConcat(sec.name + [32, 34], quoted);
    SignsConcat(sec.name, [32, 34]);
    FewSigns();
    assert Signs(sec.name + [32, 34] + quoted + [93]) + rest == Signs(sec.name) + ([SPACE] + ([QUOTE] + tail));
    NameReads(sec.name, [], [SPACE] + ([QUOTE] + tail));
    assert [] + lower == lower;
    NextOf(SPACE, [QUOTE] + tail);
    HeaderUnfold(Fresh([SPACE] + ([QUOTE] + tail)), lower);
    NextOf(QUOTE, tail);
    SpacesUnfold(SPACE, Fresh([QUOTE] + tail));
    SubsectionReads(sec.subsection, lower + [46], [CLOSE] + rest);
    NextOf(CLOSE, rest);
  }

  lemma FewSigns()
    ensures Signs([32, 34]) == [SPACE, QUOTE] && Signs([93]) == [CLOSE] && Signs([10]) == [LF] && Signs([9]) == [TAB]
    ensures Signs([32, 61, 32, 34]) == [SPACE, EQUALS, SPACE, QUOTE] && Signs([91]) == [OPEN] && Signs([93, 10]) == [CLOSE, LF]
  {
  }

  /** An entry after its first key character. */
  lemma EntryReads(e: ConfigEntry, base: Bytes, rest: seq<Char>)
    requires EntryOk(e) && 0 !in base
    ensures ReadEntry(Fresh(Signs(e.key[1..] + [32, 61, 32, 34] + Quoted(e.value, true) + [10]) + rest), base + [Lower(e.key[0])])
      == Some((Visit(base + LowerAll(e.key), Some(e.value)), Fresh(rest)))
  {
    hide ReadKey, ReadValue, SkipBlanks, Signs, Escaped, CString, Quoted;
    var k, quoted := e.key[1..], Quoted(e.value, true);
    var name := base + [Lower(e.key[0])];
    var afterKey := [EQUALS] + ([SPACE] + ([QUOTE] + (Signs(quoted) + ([LF] + rest))));
    SignsConcat(k + [32, 61, 32, 34] + quoted, [10]);
    SignsConcat(k + [32, 61, 32, 34], quoted);
    SignsConcat(k, [32, 61, 32, 34]);
    FewSigns();
    assert Signs(k + [32, 61, 32, 34] + quoted + [10]) + rest == Signs(k) + ([SPACE] + afterKey);
    KeyReads(k, name, afterKey);
    BlanksUnfold(SPACE, Fresh(afterKey));
    NextOf(EQUALS, afterKey[1..]);
    BlanksUnfold(EQUALS, Fresh(afterKey[1..]));
    QuoteOpens(quoted, rest);
    ValueReads(e.value, [], rest);
    assert [] + e.value == e.value;
    LowerSplits(base, e.key);
    KeyHasNoNul(base, e.key);
    CStringWhole(base + LowerAll(e.key));
    CStringWhole(e.value);
  }

  lemma QuoteOpens(quoted: Bytes, rest: seq<Char>)
    ensures ReadValue(Fresh([SPACE] + ([QUOTE] + (Signs(quoted) + ([LF] + rest)))), [], false, false, 0)
      == ReadValue(Fresh(Signs(quoted) + ([LF] + rest)), [], true, false, 0)
  {
    hide ReadValue, Signs;
    var tail := Signs(quoted) + ([LF] + rest);
    NextOf(SPACE, [QUOTE] + tail);
    ValueUnfold(Fresh([SPACE] + ([QUOTE] + tail)), [], false, false, 0);
    NextOf(QUOTE, tail);
    ValueUnfold(Fresh([QUOTE] + tail), [], false, false, 0);
  }

  lemma LowerSplits(base: Bytes, key: Bytes)
    requires key != []
    ensures base + [Lower(key[0])] + LowerAll(key[1..]) == base + LowerAll(key)
  {
  }

  lemma KeyHasNoNul(base: Bytes, key: Bytes)
    requires KeyOk(key) && 0 !in base
    ensures 0 !in base + LowerAll(key)
  {
    forall i | 0 <= i < |key| ensures LowerAll(key)[i] != 0 {
      assert IsKeyChar(Signed(key[i]));
    }
  }

  /** Reading one printed entry visits it. */
  lemma EntryVisited(e: ConfigEntry, base: Bytes, rest: seq<Char>)
    requires EntryOk(e) && 0 !in base
    ensures
      var r := ReadAll(Fresh(rest), base, false);
      ReadAll(Fresh(Signs(PrintEntry(e)) + rest), base, false) == ([Visit(base + LowerAll(e.key), Some(e.value))] + r.0, r.1)
  {
    hide ReadAll, ReadEntry, Signs, Quoted;
    var text := e.key[1..] + [32, 61, 32, 34] + Quoted(e.value, true) + [10];
    assert e.key == [e.key[0]] + e.key[1..];
    assert PrintEntry(e) == [9] + ([e.key[0]] + text);
    SignsConcat([9], [e.key[0]] + text);
    SignsConcat([e.key[0]], text);
    FewSigns();
    OneSign(e.key[0]);
    var c := Signed(e.key[0]);
    var tail := Signs(text) + rest;
    assert Signs(PrintEntry(e)) + rest == [TAB] + ([c] + tail);
    NextOf(TAB, [c] + tail);
    AllUnfold(Fresh([TAB] + ([c] + tail)), base, false);
    NextOf(c, tail);
    AllUnfold(Fresh([c] + tail), base, false);
    EntryReads(e, base, rest);
  }

  lemma OneSign(b: byte)
    ensures Signs([b]) == [Signed(b)]
  {
  }

  lemma SignsJoin(a: Bytes, b: Bytes, rest: seq<Char>)
    ensures Signs(a + b) + rest == Signs(a) + (Signs(b) + rest)
  {
    hide Signs;
    SignsConcat(a, b);
  }

  lemma EntriesSplit(es: seq<ConfigEntry>, rest: seq<Char>)
    ensures es == [] ==> Signs(PrintEntries(es)) + rest == rest
    ensures es != [] ==> Signs(PrintEntries(es)) + rest == Signs(PrintEntry(es[0])) + (Signs(PrintEntries(es[1..])) + rest)
  {
    hide PrintEntry, Signs;
    if es == [] {
      assert PrintEntries(es) == [];
    } else {
      SignsJoin(PrintEntry(es[0]), PrintEntries(es[1..]), rest);
    }
  }

  lemma {:induction false} EntriesVisited(es: seq<ConfigEntry>, base: Bytes, rest: seq<Char>)
    requires (forall i :: 0 <= i < |es| ==> EntryOk(es[i])) && 0 !in base
    ensures
      var r := ReadAll(Fresh(rest), base, false);
      ReadAll(Fresh(Signs(PrintEntries(es)) + rest), base, false) == (EntryVisits(base, es) + r.0, r.1)
  {
    hide ReadAll, PrintEntry, EntryOk, PrintEntries, Signs, LowerAll;
    var r := ReadAll(Fresh(rest), base, false);
    EntriesSplit(es, rest);
    if es == [] {
      assert EntryVisits(base, es) + r.0 == r.0;
    } else {
      var tail := Signs(PrintEntries(es[1..])) + rest;
      EntriesVisited(es[1..], base, rest);
      EntryVisited(es[0], base, tail);
      var v := Visit(base + LowerAll(es[0].key), Some(es[0].value));
      assert [v] + (EntryVisits(base, es[1..]) + r.0) == EntryVisits(base, es) + r.0;
    }
  }

  /** Reading a printed header switches to the section's base name. */
  lemma HeaderVisited(sec: Section, base: Bytes, rest: seq<Char>)
    requires SectionOk(sec)
    ensures ReadAll(Fresh(Signs(PrintHeader(sec)) + rest), base, false) == ReadAll(Fresh(rest), SectionBase(sec), false)
  {
    hide ReadAll, ReadHeader, Signs, Quoted;
    var text := sec.name + [32, 34] + Quoted(sec.subsection, false) + [93];
    assert PrintHeader(sec) == [91] + (text + [10]);
    SignsConcat([91], text + [10]);
    SignsConcat(text, [10]);
    FewSigns();
    var tail := Signs(text) + ([LF] + rest);
    assert Signs(PrintHeader(sec)) + rest == [OPEN] + tail;
    NextOf(OPEN, tail);
    AllUnfold(Fresh([OPEN] + tail), base, false);
    HeaderReads(sec, [LF] + rest);
    NextOf(LF, rest);
    AllUnfold(Fresh([LF] + rest), SectionBase(sec), false);
  }

  lemma DocSplit(doc: seq<Section>)
    ensures doc == [] ==> Signs(Print(doc)) == []
    ensures doc != [] ==>
      Signs(Print(doc)) == Signs(PrintHeader(doc[0])) + (Signs(PrintEntries(doc[0].entries)) + Signs(Print(doc[1..])))
  {
    hide PrintHeader, PrintEntries, Signs;
    if doc == [] {
      assert Print(doc) == [];
    } else {
      var header, body, rest := PrintHeader(doc[0]), PrintEntries(doc[0].entries), Print(doc[1..]);
      SignsConcat(header + body, rest);
      SignsJoin(header, body, Signs(rest));
    }
  }

  lemma {:induction false} DocVisited(doc: seq<Section>, base: Bytes)
    requires forall i :: 0 <= i < |doc| ==> SectionOk(doc[i])
    ensures ReadAll(Fresh(Signs(Print(doc))), base, false) == (DocVisits(doc), true)
  {
    hide ReadAll, PrintHeader, PrintEntries, SectionBase, EntryVisits, Print, Signs;
    DocSplit(doc);
    if doc == [] {
      AllUnfold(Fresh([]), base, false);
    } else {
      var sec := doc[0];
      var body, rest := PrintEntries(sec.entries), Print(doc[1..]);
      HeaderVisited(sec, base, Signs(body) + Signs(rest));
      BaseHasNoNul(sec);
      DocVisited(doc[1..], SectionBase(sec));
      EntriesVisited(sec.entries, SectionBase(sec), Signs(rest));
    }
  }

  lemma BaseHasNoNul(sec: Section)
    requires SectionOk(sec)
    ensures 0 !in SectionBase(sec)
  {
    forall i | 0 <= i < |sec.name| ensures LowerAll(sec.name)[i] != 0 {
      assert IsKeyChar(Signed(sec.name[i])) || sec.name[i] == 46;
    }
  }

  /** Printed documents are read back: exactly their entries, in order, names lowercased, subsections and values unchanged. */
  lemma RoundTrip(doc: seq<Section>)
    requires forall i :: 0 <= i < |doc| ==> SectionOk(doc[i])
    ensures Parsed(Print(doc)) == (DocVisits(doc), true)
  {
    hide Print, ReadAll, SectionOk, DocVisits;
    PrintPlain(doc);
    PlainChars(Print(doc));
    DocVisited(doc, []);
  }

  // ----- unquoted forms

  /** Characters that stand for themselves outside quotes. */
  predicate Unquoted(cs: seq<Char>) {
    forall i :: 0 <= i < |cs| ==> cs[i] !in {LF, END, QUOTE, BACKSLASH, SEMICOLON, HASH}
  }

  /** Space that is trimmed from the ends of a value: tab, CR and space. */
  predicate IsOuterSpace(c: Char) {
    c == 9 || c == 13 || c == 32
  }

  function StripLeft(cs: seq<Char>): seq<Char> {
    if cs != [] && IsOuterSpace(cs[0]) then StripLeft(cs[1..]) else cs
  }

  function StripRight(bytes: Bytes): (r: Bytes)
    ensures r <= bytes
  {
    if bytes != [] && IsOuterSpace(Signed(bytes[|bytes| - 1])) then StripRight(bytes[..|bytes| - 1]) else bytes
  }

  function Unsigneds(cs: seq<Char>): (r: Bytes)
    ensures |r| == |cs| && forall i :: 0 <= i < |r| ==> r[i] == Unsigned(cs[i])
  {
    if cs == [] then [] else [Unsigned(cs[0])] + Unsigneds(cs[1..])
  }

  /** While reading, the trim mark is where trailing space begins, if any. */
  predicate Marked(value: Bytes, trim: nat) {
    trim == if value != [] && IsSpace(Signed(value[|value| - 1])) then |StripRight(value)| else 0
  }

  lemma {:induction false} StripRightStarts(value: Bytes)
    requires value != [] && !IsSpace(Signed(value[0]))
    ensures StripRight(value) != []
  {
    if |value| > 1 && IsSpace(Signed(value[|value| - 1])) {
      StripRightStarts(value[..|value| - 1]);
    }
  }

  /** What reading one character outside quotes does to the value and the mark. */
  lemma UnquotedStep(c: Char, value: Bytes, trim: nat, rest: seq<Char>)
    requires Unquoted([c]) && Marked(value, trim) && (value != [] ==> !IsSpace(Signed(value[0])))
    ensures
      var value' := if IsSpace(c) && value == [] then value else value + [Unsigned(c)];
      && Marked(value', if IsSpace(c) then (if trim == 0 then |value| else trim) else 0)
      && ReadValue(Fresh([c] + rest), value, false, false, trim)
         == ReadValue(Fresh(rest), value', false, false, if IsSpace(c) then (if trim == 0 then |value| else trim) else 0)
  {
    hide ReadValue;
    assert [c][0] == c;
    NextOf(c, rest);
    ValueUnfold(Fresh([c] + rest), value, false, false, trim);
    var more := value + [Unsigned(c)];
    assert more[..|more| - 1] == value;
    if value != [] {
      StripRightStarts(value);
    }
  }

  /** Reading one character moves it from the text into the value, or drops leading space. */
  lemma KeptText(cs: seq<Char>, value: Bytes)
    requires Unquoted(cs)
    ensures
      var text := value + Unsigneds(if value == [] then StripLeft(cs) else cs);
      if cs == [] then text == value
      else
        var value' := if IsSpace(cs[0]) && value == [] then value else value + [Unsigned(cs[0])];
        text == value' + Unsigneds(if value' == [] then StripLeft(cs[1..]) else cs[1..])
  {
    hide Unsigneds, StripLeft, Unquoted;
    TextUnfolds(cs);
    if cs != [] {
      AppendOne(value, Unsigned(cs[0]), Unsigneds(cs[1..]));
    }
  }

  lemma TextUnfolds(cs: seq<Char>)
    requires Unquoted(cs)
    ensures cs == [] ==> Unsigneds(cs) == [] && StripLeft(cs) == []
    ensures cs != [] ==> Unsigneds(cs) == [Unsigned(cs[0])] + Unsigneds(cs[1..])
    ensures cs != [] ==> StripLeft(cs) == if IsSpace(cs[0]) then StripLeft(cs[1..]) else cs
  {
  }

  lemma AppendOne(a: Bytes, b: byte, c: Bytes)
    ensures a + ([b] + c) == a + [b] + c
  {
  }

  lemma {:induction false} UnquotedReads(cs: seq<Char>, value: Bytes, trim: nat, rest: seq<Char>)
    requires Unquoted(cs) && Marked(value, trim) && (value != [] ==> !IsSpace(Signed(value[0])))
    ensures ReadValue(Fresh(cs + ([LF] + rest)), value, false, false, trim)
      == Some((StripRight(value + Unsigneds(if value == [] then StripLeft(cs) else cs)), Fresh(rest)))
    decreases |cs|
  {
    hide ReadValue, Marked, Unquoted, StripRight, Unsigneds, StripLeft;
    KeptText(cs, value);
    if cs == [] {
      assert cs + ([LF] + rest) == [LF] + rest;
      NextOf(LF, rest);
      ValueUnfold(Fresh([LF] + rest), value, false, false, trim);
      MarkStrips(value, trim);
    } else {
      var c, more := cs[0], cs[1..];
      UnquotedSplit(cs);
      HeadSplits(cs, [LF] + rest);
      UnquotedStep(c, value, trim, more + ([LF] + rest));
      var value' := if IsSpace(c) && value == [] then value else value + [Unsigned(c)];
      UnquotedReads(more, value', if IsSpace(c) then (if trim == 0 then |value| else trim) else 0, rest);
    }
  }

  lemma HeadSplits(cs: seq<Char>, rest: seq<Char>)
    requires cs != []
    ensures cs + rest == [cs[0]] + (cs[1..] + rest)
  {
  }

  lemma UnquotedSplit(cs: seq<Char>)
    requires Unquoted(cs) && cs != []
    ensures Unquoted([cs[0]]) && Unquoted(cs[1..])
  {
  }

  lemma MarkStrips(value: Bytes, trim: nat)
    requires Marked(value, trim) && (value != [] ==> !IsSpace(Signed(value[0])))
    ensures (if 0 < trim <= |value| then value[..trim] else value) == StripRight(value)
  {
    if value != [] {
      StripRightStarts(value);
    }
  }

  /** An unquoted value loses exactly its leading and trailing space; inner space stays. */
  lemma UnquotedValue(cs: seq<Char>, rest: seq<Char>)
    requires Unquoted(cs)
    ensures ReadValue(Fresh(cs + ([LF] + rest)), [], false, false, 0) == Some((StripRight(Unsigneds(StripLeft(cs))), Fresh(rest)))
  {
    hide ReadValue, StripRight;
    UnquotedReads(cs, [], 0, rest);
    assert [] + Unsigneds(StripLeft(cs)) == Unsigneds(StripLeft(cs));
  }

  /** After a comment character everything up to the line end is ignored. */
  lemma {:induction false} CommentReads(comment: seq<Char>, value: Bytes, trim: nat, rest: seq<Char>)
    requires LF !in comment && END !in comment
    ensures ReadValue(Fresh(comment + ([LF] + rest)), value, false, true, trim) == ReadValue(Fresh([LF] + rest), value, false, false, trim)
  {
    hide ReadValue;
    if comment == [] {
      assert comment + ([LF] + rest) == [LF] + rest;
      ValueUnfold(Fresh([LF] + rest), value, false, true, trim);
      ValueUnfold(Fresh([LF] + rest), value, false, false, trim);
      NextOf(LF, rest);
    } else {
      var tail := comment[1..] + ([LF] + rest);
      assert comment + ([LF] + rest) == [comment[0]] + tail;
      NextOf(comment[0], tail);
      ValueUnfold(Fresh([comment[0]] + tail), value, false, true, trim);
      CommentReads(comment[1..], value, trim, rest);
    }
  }

  /** In a value, a backslash before anything but t, b, n, a backslash, a quote or the line end is an error. */
  lemma UnknownEscape(c: Char, value: Bytes, quoted: bool, trim: nat, rest: seq<Char>)
    requires c !in {116, 98, 110, 92, 34, 10, -1}
    ensures ReadValue(Fresh([BACKSLASH] + ([c] + rest)), value, quoted, false, trim) == None
  {
    NextOf(BACKSLASH, [c] + rest);
    NextOf(c, rest);
  }

  /** A line that starts with a hash or a semicolon is skipped. */
  lemma CommentLine(mark: Char, text: seq<Char>, base: Bytes, rest: seq<Char>)
    requires mark == 35 || mark == 59
    requires LF !in text && END !in text
    ensures ReadAll(Fresh([mark] + (text + ([LF] + rest))), base, false) == ReadAll(Fresh(rest), base, false)
  {
    hide ReadAll;
    NextOf(mark, text + ([LF] + rest));
    AllUnfold(Fresh([mark] + (text + ([LF] + rest))), base, false);
    CommentSkipped(text, base, rest);
  }

  lemma {:induction false} CommentSkipped(text: seq<Char>, base: Bytes, rest: seq<Char>)
    requires LF !in text && END !in text
    ensures ReadAll(Fresh(text + ([LF] + rest)), base, true) == ReadAll(Fresh(rest), base, false)
  {
    hide ReadAll;
    if text == [] {
      assert text + ([LF] + rest) == [LF] + rest;
      NextOf(LF, rest);
      AllUnfold(Fresh([LF] + rest), base, true);
    } else {
      var tail := text[1..] + ([LF] + rest);
      assert text + ([LF] + rest) == [text[0]] + tail;
      NextOf(text[0], tail);
      AllUnfold(Fresh([text[0]] + tail), base, true);
      CommentSkipped(text[1..], base, rest);
    }
  }

  /** Any run of spaces and tabs behind a key is skipped. */
  lemma {:induction false} BlanksSkipped(blanks: seq<Char>, c: Char, rest: seq<Char>)
    requires (forall i :: 0 <= i < |blanks| ==> blanks[i] == 32 || blanks[i] == 9) && c != 32 && c != 9 && c != END
    ensures
      var all := blanks + ([c] + rest);
      SkipBlanks(all[0], Fresh(all[1..])) == (c, Fresh(rest))
  {
    hide SkipBlanks;
    var all := blanks + ([c] + rest);
    BlanksUnfold(all[0], Fresh(all[1..]));
    if blanks == [] {
      assert all == [c] + rest;
    } else {
      BlanksSkipped(blanks[1..], c, rest);
      var more := blanks[1..] + ([c] + rest);
      assert all[1..] == more == [more[0]] + more[1..];
      NextOf(more[0], more[1..]);
    }
  }

  /** A key alone on its line is visited without a value. */
  lemma BareKey(key: Bytes, base: Bytes, rest: seq<Char>)
    requires KeyOk(key) && 0 !in base
    ensures
      var r := ReadAll(Fresh(rest), base, false);
      ReadAll(Fresh(Signs(key) + ([SPACE] + ([LF] + rest))), base, false) == ([Visit(base + LowerAll(key), None)] + r.0, r.1)
  {
    hide ReadAll, ReadKey, SkipBlanks, Signs, LowerAll, CString;
    var c, k, tail := Signed(key[0]), key[1..], [LF] + rest;
    var name := base + [Lower(key[0])];
    NameSplits(key, base, [SPACE] + tail);
    NextOf(c, Signs(k) + ([SPACE] + tail));
    AllUnfold(Fresh([c] + (Signs(k) + ([SPACE] + tail))), base, false);
    KeyReads(k, name, tail);
    BlanksUnfold(SPACE, Fresh(tail));
    NextOf(LF, rest);
    BlanksUnfold(LF, Fresh(rest));
    KeyHasNoNul(base, key);
    CStringWhole(base + LowerAll(key));
  }

  /** A C string ends before the first NUL. */
  lemma {:induction false} CStringIs(bytes: Bytes)
    ensures CString(bytes) <= bytes && 0 !in CString(bytes)
    ensures |CString(bytes)| < |bytes| ==> bytes[|CString(bytes)|] == 0
  {
    if bytes != [] && bytes[0] != 0 {
      CStringIs(bytes[1..]);
      assert bytes == [bytes[0]] + bytes[1..];
    }
  }

  /** The legacy dotted header is lowercased as a whole. */
  lemma DottedHeader(name: Bytes, rest: seq<Char>)
    requires SectionNameOk(name)
    ensures ReadHeader(Fresh(Signs(name) + ([CLOSE] + rest)), []) == Some((LowerAll(name), Fresh(rest)))
  {
    hide ReadHeader;
    NameReads(name, [], [CLOSE] + rest);
    assert [] + LowerAll(name) == LowerAll(name);
    NextOf(CLOSE, rest);
    HeaderUnfold(Fresh([CLOSE] + rest), LowerAll(name));
  }

  // ----- line endings

  /** Every LF written as CRLF. */
  function WithCrlf(input: Bytes): Bytes {
    if input == [] then [] else (if input[0] == 10 then [13, 10] else [input[0]]) + WithCrlf(input[1..])
  }

  lemma {:induction false} CrlfChars(input: Bytes)
    requires 13 !in input
    ensures Chars(WithCrlf(input)) == Chars(input)
  {
    if input != [] {
      CrlfChars(input[1..]);
      var rest := WithCrlf(input[1..]);
      if input[0] == 10 {
        assert WithCrlf(input)[2..] == rest;
      } else {
        assert WithCrlf(input)[1..] == rest;
      }
    }
  }

  /** Line endings do not matter: any input without CR parses the same with CRLF line ends. */
  lemma CrlfParsesAlike(input: Bytes)
    requires 13 !in input
    ensures Parsed(WithCrlf(input)) == Parsed(input)
  {
    hide ReadAll, Chars, WithCrlf;
    CrlfChars(input);
  }
}
