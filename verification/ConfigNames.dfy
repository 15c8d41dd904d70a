/** The names a configuration parse visits (crates/gitility-core/src/git_config.rs). */
module ConfigNames {
  import opened Basics
  import opened GitConfig

  // ----- the form of a visited name

  /** Lower-case letters, digits, hyphens and dots. */
  predicate Lowercase(bytes: Bytes) {
    forall i :: 0 <= i < |bytes| ==> 97 <= bytes[i] <= 122 || 48 <= bytes[i] <= 57 || bytes[i] == 45 || bytes[i] == 46
  }

  /** A key as it is visited: a lower-case letter, then lower-case letters, digits and hyphens. */
  predicate KeyForm(key: Bytes) {
    key != [] && 97 <= key[0] <= 122 && Lowercase(key) && 46 !in key
  }

  /** A section name in lower case, alone or before a subsection that may be anything. */
  ghost predicate HeaderForm(header: Bytes) {
    Lowercase(header) || exists sec, sub :: Lowercase(sec) && header == sec + [46] + sub
  }

  /** What stands before the key. */
  ghost predicate BaseForm(base: Bytes) {
    base == [] || exists header :: HeaderForm(header) && base == header + [46]
  }

  /** A key behind its base, cut at the first NUL. */
  ghost predicate NameForm(name: Bytes) {
    exists base, key :: BaseForm(base) && KeyForm(key) && name == CString(base + key)
  }

  lemma LowercaseConcat(a: Bytes, b: Bytes)
    requires Lowercase(a) && Lowercase(b)
    ensures Lowercase(a + b)
  {
  }

  lemma KeyStarts(c: Char)
    requires IsAlpha(c)
    ensures KeyForm([Lower(Unsigned(c))])
  {
  }

  lemma {:induction false} KeyHasForm(s: Stream, base: Bytes, key: Bytes) returns (full: Bytes)
    requires KeyForm(key)
    ensures KeyForm(full) && ReadKey(s, base + key).2 == base + full
    decreases |s.cs|
  {
    hide ReadKey, KeyForm;
    KeyUnfold(s, base + key);
    var (c, s1) := s.Next();
    if s1.eof || !IsKeyChar(c) {
      full := key;
    } else {
      KeyFormMore(key, c);
      NextShrinks(s);
      var more := key + [Lower(Unsigned(c))];
      Associates(base, key, [Lower(Unsigned(c))]);
      full := KeyHasForm(s1, base, more);
    }
  }

  lemma KeyFormMore(key: Bytes, c: Char)
    requires IsKeyChar(c) && KeyForm(key)
    ensures KeyForm(key + [Lower(Unsigned(c))])
  {
    LowercaseConcat(key, [Lower(Unsigned(c))]);
  }

  /** Reading on before an end consumes a character. */
  lemma NextShrinks(s: Stream)
    ensures |s.Next().1.cs| <= |s.cs|
    ensures !s.Next().1.eof || s.Next().0 != LF ==> |s.Next().1.cs| < |s.cs|
  {
  }

  lemma {:induction false} QuotedGrows(s: Stream, name: Bytes) returns (sub: Bytes)
    requires ReadQuoted(s, name).Some?
    ensures ReadQuoted(s, name).value.0 == name + sub
    decreases |s.cs|
  {
    hide ReadQuoted;
    QuotedUnfold(s, name);
    var (c, s1) := s.Next();
    NextShrinks(s);
    if c == QUOTE {
      sub := [];
      assert name + sub == name;
    } else {
      var (e, s2) := s1.Next();
      NextShrinks(s1);
      var b := Unsigned(if c == BACKSLASH then e else c);
      var more := QuotedGrows(if c == BACKSLASH then s2 else s1, name + [b]);
      sub := [b] + more;
      Associates(name, [b], more);
    }
  }

  lemma {:induction false} HeaderHasForm(s: Stream, name: Bytes)
    requires Lowercase(name) && ReadHeader(s, name).Some?
    ensures HeaderForm(ReadHeader(s, name).value.0)
    decreases |s.cs|
  {
    hide ReadHeader, ReadQuoted, SkipSpaces, Lowercase;
    HeaderUnfold(s, name);
    var (c, s1) := s.Next();
    NextShrinks(s);
    if IsSpace(c) {
      var start := SkipSpaces(c, s1);
      var sub := QuotedGrows(start.value.1, name + [Unsigned(DOT)]);
    } else if c != CLOSE {
      HeaderChar(name, c);
      HeaderHasForm(s1, name + [Lower(Unsigned(c))]);
    }
  }

  lemma HeaderChar(name: Bytes, c: Char)
    requires Lowercase(name) && (IsKeyChar(c) || c == DOT)
    ensures Lowercase(name + [Lower(Unsigned(c))])
  {
  }

  lemma EntryHasForm(s: Stream, base: Bytes, c: Char)
    requires BaseForm(base) && IsAlpha(c) && ReadEntry(s, base + [Lower(Unsigned(c))]).Some?
    ensures NameForm(ReadEntry(s, base + [Lower(Unsigned(c))]).value.0.name)
  {
    hide ReadKey, ReadValue, SkipBlanks, BaseForm, KeyForm, CString;
    KeyStarts(c);
    var key := KeyHasForm(s, base, [Lower(Unsigned(c))]);
    assert ReadKey(s, base + [Lower(Unsigned(c))]).2 == base + key;
  }

  lemma {:induction false} AllHaveForm(s: Stream, base: Bytes, comment: bool)
    requires BaseForm(base)
    ensures forall i :: 0 <= i < |ReadAll(s, base, comment).0| ==> NameForm(ReadAll(s, base, comment).0[i].name)
    decreases |s.cs|
  {
    hide ReadAll, ReadHeader, ReadEntry, BaseForm, NameForm;
    AllUnfold(s, base, comment);
    var (c, s1) := s.Next();
    NextShrinks(s);
    if c == LF {
      if !s1.eof { AllHaveForm(s1, base, false); }
    } else if comment || IsSpace(c) || c == HASH || c == SEMICOLON {
      AllHaveForm(s1, base, comment || !IsSpace(c));
    } else if c == OPEN {
      var header := ReadHeader(s1, []);
      if header.Some? && header.value.0 != [] {
        HeaderBase(s1);
        AllHaveForm(header.value.1, header.value.0 + [Unsigned(DOT)], false);
      }
    } else if IsAlpha(c) {
      var entry := ReadEntry(s1, base + [Lower(Unsigned(c))]);
      if entry.Some? {
        EntryHasForm(s1, base, c);
        AllHaveForm(entry.value.1, base, false);
      }
    }
  }

  lemma HeaderBase(s: Stream)
    requires ReadHeader(s, []).Some?
    ensures BaseForm(ReadHeader(s, []).value.0 + [Unsigned(DOT)])
  {
    hide ReadHeader, HeaderForm;
    HeaderHasForm(s, []);
  }

  /**
   * Whatever the input, every visited name is a lower-case key without dots,
   * behind nothing, a lower-case section name, or a lower-case section name and
   * a subsection; upper case can only stand in the subsection.
   */
  lemma VisitedNames(input: Bytes)
    ensures forall i :: 0 <= i < |Parsed(input).0| ==> NameForm(Parsed(input).0[i].name)
  {
    hide ReadAll, NameForm;
    AllHaveForm(Stream(Chars(input), false), [], false);
  }

  // ----- case does not matter

  /** The same letters up to ASCII case, and every other byte the same. */
  predicate SameButCase(a: Bytes, b: Bytes) {
    |a| == |b| && forall i :: 0 <= i < |a| ==> SameLetter(a[i], b[i])
  }

  predicate SameLetter(a: byte, b: byte) {
    a == b || (65 <= a <= 90 && b == a + 32) || (65 <= b <= 90 && a == b + 32)
  }

  lemma SameButCaseIff(a: Bytes, b: Bytes)
    ensures SameButCase(a, b) <==> LowerAll(a) == LowerAll(b)
  {
    hide LowerAll;
    if |a| == |b| {
      forall i | 0 <= i < |a| ensures SameLetter(a[i], b[i]) <==> LowerAll(a)[i] == LowerAll(b)[i] {
      }
      if SameButCase(a, b) {
        assert LowerAll(a) == LowerAll(b);
      }
    }
  }

  predicate SameEntries(a: seq<ConfigEntry>, b: seq<ConfigEntry>) {
    |a| == |b| && forall i :: 0 <= i < |a| ==> SameButCase(a[i].key, b[i].key) && a[i].value == b[i].value
  }

  /** The same document up to the case of section names and keys. */
  predicate SameDocument(a: seq<Section>, b: seq<Section>) {
    |a| == |b| && forall i :: 0 <= i < |a| ==>
      SameButCase(a[i].name, b[i].name) && a[i].subsection == b[i].subsection && SameEntries(a[i].entries, b[i].entries)
  }

  lemma {:induction false} SameEntryVisits(base: Bytes, a: seq<ConfigEntry>, b: seq<ConfigEntry>)
    requires SameEntries(a, b)
    ensures EntryVisits(base, a) == EntryVisits(base, b)
    decreases |a|
  {
    hide SameButCase, LowerAll;
    if a != [] {
      SameButCaseIff(a[0].key, b[0].key);
      SameEntryVisits(base, a[1..], b[1..]);
    }
  }

  lemma {:induction false} SameDocVisits(a: seq<Section>, b: seq<Section>)
    requires SameDocument(a, b)
    ensures DocVisits(a) == DocVisits(b)
    decreases |a|
  {
    hide SameButCase, LowerAll, SameEntries, EntryVisits;
    if a != [] {
      SameButCaseIff(a[0].name, b[0].name);
      SameEntryVisits(SectionBase(a[0]), a[0].entries, b[0].entries);
      SameDocVisits(a[1..], b[1..]);
    }
  }

  /** Documents that differ only in the case of section names and keys parse alike. */
  lemma CaseParsesAlike(a: seq<Section>, b: seq<Section>)
    requires (forall i :: 0 <= i < |a| ==> SectionOk(a[i])) && SameDocument(a, b)
    ensures Parsed(Print(a)) == Parsed(Print(b))
  {
    hide Parsed, Print, SectionOk, DocVisits;
    forall i | 0 <= i < |b| ensures SectionOk(b[i]) {
      SameSectionOk(a[i], b[i]);
    }
    SameDocVisits(a, b);
    RoundTrip(a);
    RoundTrip(b);
  }

  lemma SameSectionOk(a: Section, b: Section)
    requires SectionOk(a) && SameButCase(a.name, b.name) && a.subsection == b.subsection && SameEntries(a.entries, b.entries)
    ensures SectionOk(b)
  {
    forall i | 0 <= i < |b.name| ensures IsKeyChar(Signed(b.name[i])) || b.name[i] == 46 {
      assert IsKeyChar(Signed(a.name[i])) || a.name[i] == 46;
    }
    forall i | 0 <= i < |b.entries| ensures EntryOk(b.entries[i]) {
      assert EntryOk(a.entries[i]);
      SameKeyOk(a.entries[i].key, b.entries[i].key);
    }
  }

  lemma SameKeyOk(a: Bytes, b: Bytes)
    requires KeyOk(a) && SameButCase(a, b)
    ensures KeyOk(b)
  {
    forall i | 0 <= i < |b| ensures IsKeyChar(Signed(b[i])) {
      assert IsKeyChar(Signed(a[i]));
    }
  }

  /** `[Submodule "X"]` with `Path` visits `submodule.X.path`: the section and the key in lower case, the subsection as written. */
  lemma SubmodulePath(value: Bytes)
    requires 0 !in value && 255 !in value
    ensures
      var submodule, path := [83, 117, 98, 109, 111, 100, 117, 108, 101], [80, 97, 116, 104];
      Parsed(Print([Section(submodule, [88], [ConfigEntry(path, value)])])) ==
        ([Visit([115, 117, 98, 109, 111, 100, 117, 108, 101, 46, 88, 46, 112, 97, 116, 104], Some(value))], true)
  {
    hide Parsed, Print, LowerAll, DocVisits;
    var submodule: Bytes, path: Bytes := [83, 117, 98, 109, 111, 100, 117, 108, 101], [80, 97, 116, 104];
    var sec := Section(submodule, [88], [ConfigEntry(path, value)]);
    assert SectionOk(sec);
    RoundTrip([sec]);
    OneVisit(sec);
    assert LowerAll(submodule) == [115, 117, 98, 109, 111, 100, 117, 108, 101];
    assert LowerAll(path) == [112, 97, 116, 104];
    assert LowerAll(submodule) + [46] + sec.subsection + [46] + LowerAll(path)
      == [115, 117, 98, 109, 111, 100, 117, 108, 101, 46, 88, 46, 112, 97, 116, 104];
  }

  lemma OneVisit(sec: Section)
    requires |sec.entries| == 1
    ensures DocVisits([sec])
      == [Visit(LowerAll(sec.name) + [46] + sec.subsection + [46] + LowerAll(sec.entries[0].key), Some(sec.entries[0].value))]
  {
    hide LowerAll;
    var base, visits := SectionBase(sec), EntryVisits(SectionBase(sec), sec.entries);
    assert sec.entries[1..] == [] && [sec][1..] == [];
    assert EntryVisits(base, sec.entries[1..]) == [] && DocVisits([sec][1..]) == [];
    assert visits + [] == visits;
  }
}
