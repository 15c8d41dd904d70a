/** Byte-oriented pathspec matching and subtree pruning (crates/gitility-core/src/pathspec.rs). */
module Pathspec {
  import opened Basics
  import opened Trees

  /** The foreign wildmatch engine, as a predicate on pattern and path. */
  type Wildmatch = (seq<byte>, Path) -> bool

  /** `:(glob)` */
  const GLOB_MAGIC: seq<byte> := [0x3a, 0x28, 0x67, 0x6c, 0x6f, 0x62, 0x29]

  predicate IsMeta(b: byte) {
    b == 0x2a || b == 0x3f || b == 0x5b
  }

  function StripMagic(pattern: seq<byte>): (seq<byte>, bool) {
    if GLOB_MAGIC <= pattern then (pattern[|GLOB_MAGIC|..], true) else (pattern, false)
  }

  /** The bytes before the first metacharacter. */
  function FixedPart(pattern: seq<byte>): (r: seq<byte>)
    ensures r <= pattern
  {
    if pattern == [] || IsMeta(pattern[0]) then [] else [pattern[0]] + FixedPart(pattern[1..])
  }

  predicate HasMeta(pattern: seq<byte>) {
    FixedPart(pattern) != pattern
  }

  /** The position of the last slash, or -1. */
  function LastSlash(s: seq<byte>): (i: int)
    ensures -1 <= i < |s|
    ensures i >= 0 ==> s[i] == SLASH
  {
    if s == [] then -1
    else if s[|s| - 1] == SLASH then |s| - 1
    else LastSlash(s[..|s| - 1])
  }

  predicate StartsAtSlash(path: seq<byte>, prefix: seq<byte>) {
    prefix <= path && |prefix| < |path| && path[|prefix|] == SLASH
  }

  /** `path_prefixes_overlap`. */
  predicate PrefixesOverlap(left: seq<byte>, right: seq<byte>) {
    left == right || StartsAtSlash(left, right) || StartsAtSlash(right, left)
  }

  /** `matches`. */
  predicate PatternMatches(wild: Wildmatch, pattern: seq<byte>, path: Path) {
    var (stripped, forceGlob) := StripMagic(pattern);
    if !forceGlob && !HasMeta(stripped) then path == stripped || StartsAtSlash(path, stripped)
    else wild(stripped, path)
  }

  /** `pattern_may_match_descendant`. */
  predicate PatternMayMatchDescendant(pattern: seq<byte>, prefix: Path) {
    var (stripped, forceGlob) := StripMagic(pattern);
    if !forceGlob && !HasMeta(stripped) then PrefixesOverlap(stripped, prefix)
    else
      var fixed := FixedPart(stripped);
      var slash := LastSlash(fixed);
      slash < 0 || PrefixesOverlap(fixed[..slash], prefix)
  }

  predicate Matches(wild: Wildmatch, patterns: seq<seq<byte>>, path: Path) {
    patterns == [] || exists i :: 0 <= i < |patterns| && PatternMatches(wild, patterns[i], path)
  }

  predicate MayMatchDescendant(patterns: seq<seq<byte>>, prefix: Path) {
    patterns == [] || exists i :: 0 <= i < |patterns| && PatternMayMatchDescendant(patterns[i], prefix)
  }

  // ----- what patterns select

  /** None of the three glob metacharacters. */
  predicate MetaFree(pattern: seq<byte>) {
    0x2a !in pattern && 0x3f !in pattern && 0x5b !in pattern
  }

  lemma {:induction false} MetaFreeIff(pattern: seq<byte>)
    ensures HasMeta(pattern) <==> !MetaFree(pattern)
  {
    if pattern != [] {
      assert pattern == [pattern[0]] + pattern[1..];
      MetaFreeIff(pattern[1..]);
    }
  }

  /** A literal pattern selects its own path and everything beneath it, and nothing else. */
  lemma LiteralSelects(wild: Wildmatch, pattern: seq<byte>, path: Path)
    requires MetaFree(pattern) && !(GLOB_MAGIC <= pattern)
    ensures PatternMatches(wild, pattern, path) <==> path == pattern || exists below: seq<byte> :: path == pattern + [SLASH] + below
  {
    hide HasMeta;
    MetaFreeIff(pattern);
    if StartsAtSlash(path, pattern) {
      assert path == pattern + [SLASH] + path[|pattern| + 1..];
    }
  }

  /** Any other pattern is left to the glob engine, without its magic prefix. */
  lemma GlobSelects(wild: Wildmatch, pattern: seq<byte>, path: Path)
    ensures PatternMatches(wild, GLOB_MAGIC + pattern, path) <==> wild(pattern, path)
    ensures !MetaFree(pattern) && !(GLOB_MAGIC <= pattern) ==> (PatternMatches(wild, pattern, path) <==> wild(pattern, path))
  {
    hide HasMeta;
    MetaFreeIff(pattern);
    assert (GLOB_MAGIC + pattern)[|GLOB_MAGIC|..] == pattern;
  }

  /** A literal pattern opens exactly the directories with a path it selects beneath them. */
  lemma LiteralOpens(wild: Wildmatch, pattern: seq<byte>, prefix: Path)
    requires MetaFree(pattern) && !(GLOB_MAGIC <= pattern)
    ensures PatternMayMatchDescendant(pattern, prefix) <==>
      exists path: Path :: StartsAtSlash(path, prefix) && PatternMatches(wild, pattern, path)
  {
    hide HasMeta;
    MetaFreeIff(pattern);
    if PatternMayMatchDescendant(pattern, prefix) {
      var path := if StartsAtSlash(pattern, prefix) then pattern else prefix + [SLASH];
      assert prefix != pattern && StartsAtSlash(prefix, pattern) ==> path[..|pattern|] == pattern;
      assert StartsAtSlash(path, prefix) && PatternMatches(wild, pattern, path);
    }
    forall path: Path | StartsAtSlash(path, prefix) && PatternMatches(wild, pattern, path) ensures PatternMayMatchDescendant(pattern, prefix) {
      ComponentsOverlap(path, pattern, prefix);
    }
  }

  // ----- when pruning is sound

  /** A directory above a matching path is never pruned. */
  ghost predicate PrunesSoundly(wild: Wildmatch, pattern: seq<byte>) {
    forall prefix: Path, path: Path ::
      StartsAtSlash(path, prefix) && PatternMatches(wild, pattern, path) ==> PatternMayMatchDescendant(pattern, prefix)
  }

  /** The same for a whole matcher. */
  ghost predicate SetPrunesSoundly(wild: Wildmatch, patterns: seq<seq<byte>>) {
    forall prefix: Path, path: Path ::
      StartsAtSlash(path, prefix) && Matches(wild, patterns, path) ==> MayMatchDescendant(patterns, prefix)
  }

  /** The directory a path lies in, when it has one. */
  predicate HasParent(path: Path) {
    LastSlash(path) >= 0
  }

  function Parent(path: Path): Path
    requires HasParent(path)
  {
    path[..LastSlash(path)]
  }

  /**
   * A literal pattern, a pattern without a fixed directory, or one whose
   * fixed directory overlaps the directory of every path the glob accepts.
   */
  ghost predicate FixedDirectoryHolds(wild: Wildmatch, pattern: seq<byte>) {
    var (stripped, forceGlob) := StripMagic(pattern);
    var fixed := FixedPart(stripped);
    var slash := LastSlash(fixed);
    || (!forceGlob && !HasMeta(stripped))
    || slash < 0
    || forall path: Path :: wild(stripped, path) && HasParent(path) ==> PrefixesOverlap(fixed[..slash], Parent(path))
  }

  /** Two whole-component prefixes of one path overlap. */
  lemma ComponentsOverlap(path: Path, left: seq<byte>, right: seq<byte>)
    requires left == path || StartsAtSlash(path, left)
    requires StartsAtSlash(path, right)
    ensures PrefixesOverlap(left, right)
  {
    if |left| == |right| {
      assert left == path[..|left|] == right;
    } else if |left| > |right| {
      assert right == left[..|right|];
    } else {
      assert left == right[..|left|];
    }
  }

  lemma {:induction false} LastSlashIsLast(s: seq<byte>, i: nat)
    requires i < |s| && s[i] == SLASH
    ensures LastSlash(s) >= i
  {
    if s[|s| - 1] != SLASH {
      LastSlashIsLast(s[..|s| - 1], i);
    }
  }

  /** The directory of a path lies directly above it, and every directory above the path is that one or above it. */
  lemma ParentAbove(path: Path, prefix: Path)
    requires StartsAtSlash(path, prefix)
    ensures HasParent(path) && StartsAtSlash(path, Parent(path))
    ensures prefix == Parent(path) || StartsAtSlash(Parent(path), prefix)
  {
    LastSlashIsLast(path, |prefix|);
    var parent := Parent(path);
    assert prefix == path[..|prefix|];
    if |prefix| < |parent| {
      assert parent[..|prefix|] == prefix;
    }
  }

  lemma ParentStarts(path: Path)
    requires HasParent(path)
    ensures StartsAtSlash(path, Parent(path))
  {
  }

  /** What overlaps a directory overlaps every directory above it. */
  lemma OverlapRises(left: seq<byte>, dir: Path, prefix: Path)
    requires PrefixesOverlap(left, dir) && (prefix == dir || StartsAtSlash(dir, prefix))
    ensures PrefixesOverlap(left, prefix)
  {
    if prefix != dir {
      if left == dir || StartsAtSlash(left, dir) {
        assert prefix == left[..|prefix|];
      } else {
        ComponentsOverlap(dir, left, prefix);
      }
    }
  }

  lemma MayMatchRises(pattern: seq<byte>, dir: Path, prefix: Path)
    requires PatternMayMatchDescendant(pattern, dir) && (prefix == dir || StartsAtSlash(dir, prefix))
    ensures PatternMayMatchDescendant(pattern, prefix)
  {
    hide PrefixesOverlap, FixedPart, HasMeta;
    var (stripped, forceGlob) := StripMagic(pattern);
    var fixed := FixedPart(stripped);
    var slash := LastSlash(fixed);
    if !forceGlob && !HasMeta(stripped) {
      OverlapRises(stripped, dir, prefix);
    } else if slash >= 0 {
      OverlapRises(fixed[..slash], dir, prefix);
    }
  }

  /** Pruning by one pattern is sound if and only if its fixed directory holds. */
  lemma PrunesSoundlyIff(wild: Wildmatch, pattern: seq<byte>)
    ensures PrunesSoundly(wild, pattern) <==> FixedDirectoryHolds(wild, pattern)
  {
    hide PrefixesOverlap, LastSlash, FixedPart, HasMeta, StartsAtSlash;
    var (stripped, forceGlob) := StripMagic(pattern);
    var fixed := FixedPart(stripped);
    var slash := LastSlash(fixed);
    if PrunesSoundly(wild, pattern) && !(!forceGlob && !HasMeta(stripped)) && slash >= 0 {
      forall path: Path | wild(stripped, path) && HasParent(path) ensures PrefixesOverlap(fixed[..slash], Parent(path)) {
        ParentStarts(path);
        assert PatternMatches(wild, pattern, path);
        assert PatternMayMatchDescendant(pattern, Parent(path));
      }
    }
    if FixedDirectoryHolds(wild, pattern) {
      forall prefix: Path, path: Path | StartsAtSlash(path, prefix) && PatternMatches(wild, pattern, path)
        ensures PatternMayMatchDescendant(pattern, prefix)
      {
        SoundAt(wild, pattern, prefix, path);
      }
    }
  }

  lemma SoundAt(wild: Wildmatch, pattern: seq<byte>, prefix: Path, path: Path)
    requires FixedDirectoryHolds(wild, pattern) && StartsAtSlash(path, prefix) && PatternMatches(wild, pattern, path)
    ensures PatternMayMatchDescendant(pattern, prefix)
  {
    hide PrefixesOverlap, LastSlash, FixedPart, HasMeta;
    var (stripped, forceGlob) := StripMagic(pattern);
    if !forceGlob && !HasMeta(stripped) {
      ComponentsOverlap(path, stripped, prefix);
    } else {
      var fixed := FixedPart(stripped);
      var slash := LastSlash(fixed);
      ParentAbove(path, prefix);
      if slash >= 0 {
        OverlapRises(fixed[..slash], Parent(path), prefix);
      }
    }
  }

  /** A whole matcher prunes soundly if and only if the directory of every matching path stays open. */
  lemma SetPrunesSoundlyIff(wild: Wildmatch, patterns: seq<seq<byte>>)
    ensures SetPrunesSoundly(wild, patterns) <==>
      forall path: Path :: HasParent(path) && Matches(wild, patterns, path) ==> MayMatchDescendant(patterns, Parent(path))
  {
    hide PatternMatches, PatternMayMatchDescendant, LastSlash, StartsAtSlash;
    if SetPrunesSoundly(wild, patterns) {
      forall path: Path | HasParent(path) && Matches(wild, patterns, path) ensures MayMatchDescendant(patterns, Parent(path)) {
        ParentStarts(path);
      }
    }
    if forall path: Path :: HasParent(path) && Matches(wild, patterns, path) ==> MayMatchDescendant(patterns, Parent(path)) {
      forall prefix: Path, path: Path | StartsAtSlash(path, prefix) && Matches(wild, patterns, path)
        ensures MayMatchDescendant(patterns, prefix)
      {
        ParentAbove(path, prefix);
        SetMayMatchRises(patterns, Parent(path), prefix);
      }
    }
  }

  lemma SetMayMatchRises(patterns: seq<seq<byte>>, dir: Path, prefix: Path)
    requires MayMatchDescendant(patterns, dir) && (prefix == dir || StartsAtSlash(dir, prefix))
    ensures MayMatchDescendant(patterns, prefix)
  {
    hide PatternMayMatchDescendant;
    if patterns != [] {
      var i :| 0 <= i < |patterns| && PatternMayMatchDescendant(patterns[i], dir);
      MayMatchRises(patterns[i], dir, prefix);
    }
  }

  /** Patterns that each prune soundly do so together. */
  lemma PruningSound(wild: Wildmatch, patterns: seq<seq<byte>>)
    requires forall i :: 0 <= i < |patterns| ==> FixedDirectoryHolds(wild, patterns[i])
    ensures SetPrunesSoundly(wild, patterns)
  {
    hide FixedDirectoryHolds, PatternMatches, PatternMayMatchDescendant, StartsAtSlash;
    forall prefix: Path, path: Path | StartsAtSlash(path, prefix) && Matches(wild, patterns, path)
      ensures MayMatchDescendant(patterns, prefix)
    {
      if patterns != [] {
        var i :| 0 <= i < |patterns| && PatternMatches(wild, patterns[i], path);
        SoundAt(wild, patterns[i], prefix, path);
      }
    }
  }

  // ----- what a caller can check

  const BACKSLASH: byte := 0x5c

  /** A glob engine takes unescaped bytes before the first metacharacter literally. */
  ghost predicate TakesLiterally(wild: Wildmatch) {
    forall pattern: seq<byte>, path: Path, k: nat ::
      wild(pattern, path) && k <= |FixedPart(pattern)| && BACKSLASH !in pattern[..k] ==> pattern[..k] <= path
  }

  /** No backslash in the fixed directory is enough. */
  lemma UnescapedPrunesSoundly(wild: Wildmatch, pattern: seq<byte>)
    requires TakesLiterally(wild)
    requires
      var fixed := FixedPart(StripMagic(pattern).0);
      LastSlash(fixed) >= 0 ==> BACKSLASH !in fixed[..LastSlash(fixed)]
    ensures FixedDirectoryHolds(wild, pattern) && PrunesSoundly(wild, pattern)
  {
    hide PrefixesOverlap, HasMeta, PrunesSoundly, FixedPart, LastSlash, HasParent, TakesLiterally, StripMagic;
    var stripped := StripMagic(pattern).0;
    var slash := LastSlash(FixedPart(stripped));
    if slash >= 0 {
      forall path: Path | wild(stripped, path) && HasParent(path)
        ensures PrefixesOverlap(FixedPart(stripped)[..slash], Parent(path))
      {
        LiteralDirectory(wild, stripped, path, slash);
        DirectoryOverlaps(path, FixedPart(stripped)[..slash]);
      }
    }
    PrunesSoundlyIff(wild, pattern);
  }

  lemma LiteralDirectory(wild: Wildmatch, pattern: seq<byte>, path: Path, slash: nat)
    requires TakesLiterally(wild) && wild(pattern, path) && slash < |FixedPart(pattern)| && FixedPart(pattern)[slash] == SLASH
    requires BACKSLASH !in FixedPart(pattern)[..slash]
    ensures FixedPart(pattern)[..slash] + [SLASH] <= path
  {
    hide FixedPart;
    var k := slash + 1;
    assert pattern[..k] == FixedPart(pattern)[..slash] + [SLASH];
    assert pattern[..k] <= path;
  }

  lemma DirectoryOverlaps(path: Path, dir: seq<byte>)
    requires dir + [SLASH] <= path
    ensures HasParent(path) && PrefixesOverlap(dir, Parent(path))
  {
    assert (dir + [SLASH])[|dir|] == SLASH;
    assert dir == path[..|dir|];
    ParentAbove(path, dir);
  }

  // The pattern d, backslash, slash, star: an escaped slash in front of a star.
  const ESCAPED: seq<byte> := [0x64, 0x5c, SLASH, 0x2a]
  /** `d/f` */
  const UNDER_D: Path := [0x64, SLASH, 0x66]

  /** With a backslash in it the fixed directory need not hold, and a matching subtree is pruned. */
  lemma EscapedPatternIsPruned(wild: Wildmatch)
    requires wild(ESCAPED, UNDER_D)
    ensures PatternMatches(wild, ESCAPED, UNDER_D) && StartsAtSlash(UNDER_D, UNDER_D[..1])
    ensures !PatternMayMatchDescendant(ESCAPED, UNDER_D[..1])
    ensures !FixedDirectoryHolds(wild, ESCAPED)
  {
    assert StripMagic(ESCAPED) == (ESCAPED, false);
    FixedSteps();
    var fixed := FixedPart(ESCAPED);
    assert HasMeta(ESCAPED);
    assert LastSlash(fixed) == 2;
    assert fixed[..2] == [0x64, 0x5c];
    assert UNDER_D[..1] == [0x64];
    assert PatternMatches(wild, ESCAPED, UNDER_D) && StartsAtSlash(UNDER_D, UNDER_D[..1]);
    assert !PatternMayMatchDescendant(ESCAPED, UNDER_D[..1]);
    assert !PrunesSoundly(wild, ESCAPED);
    PrunesSoundlyIff(wild, ESCAPED);
  }

  lemma FixedSteps()
    ensures FixedPart(ESCAPED) == [0x64, 0x5c, SLASH]
  {
    assert ESCAPED[1..] == [0x5c, SLASH, 0x2a];
    assert [0x5c, SLASH, 0x2a][1..] == [SLASH, 0x2a];
    assert [SLASH, 0x2a][1..] == [0x2a];
    assert FixedPart([0x2a]) == [];
    assert FixedPart([SLASH, 0x2a]) == [SLASH];
    assert FixedPart([0x5c, SLASH, 0x2a]) == [0x5c, SLASH];
  }
}
