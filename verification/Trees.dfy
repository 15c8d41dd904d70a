/** Tree objects, byte order on paths, and depth-first traversal order. */
module Trees {
  import opened Basics

  type Oid = nat
  type Path = seq<byte>

  const SLASH: byte := 0x2f
  const DOT: byte := 0x2e

  /** One tree entry; `mode` is the raw Unix mode. */
  datatype Entry = Entry(mode: nat, name: seq<byte>, oid: Oid)

  /** `mode & 0o170000`, as the digit group it selects. */
  function ModeType(mode: nat): nat {
    mode / 0x1000 % 16
  }

  predicate IsTree(e: Entry) {
    ModeType(e.mode) == 4
  }

  predicate IsBlob(e: Entry) {
    ModeType(e.mode) == 8
  }

  /** Of Git's modes, 040000 is a directory and 100644 and 100755 are files; 120000, a link, and 160000, a submodule, are neither. */
  lemma GitModes(name: seq<byte>, oid: Oid)
    ensures IsTree(Entry(0x4000, name, oid)) && !IsBlob(Entry(0x4000, name, oid))
    ensures IsBlob(Entry(0x81a4, name, oid)) && IsBlob(Entry(0x81ed, name, oid))
    ensures !IsTree(Entry(0x81a4, name, oid)) && !IsTree(Entry(0x81ed, name, oid))
    ensures !IsTree(Entry(0xa000, name, oid)) && !IsBlob(Entry(0xa000, name, oid))
    ensures !IsTree(Entry(0xe000, name, oid)) && !IsBlob(Entry(0xe000, name, oid))
  {
  }

  /** `join_path`. */
  function JoinPath(prefix: Path, name: seq<byte>): Path {
    if prefix == [] then name else prefix + [SLASH] + name
  }

  /** The part of a path before an entry's name. */
  function Base(prefix: Path): Path {
    if prefix == [] then [] else prefix + [SLASH]
  }

  lemma JoinBase(prefix: Path, name: seq<byte>)
    ensures JoinPath(prefix, name) == Base(prefix) + name
  {
  }

  // ----- byte order

  /** Lexicographic order on byte strings. */
  predicate Less(a: seq<byte>, b: seq<byte>) {
    b != [] && (a == [] || a[0] < b[0] || (a[0] == b[0] && Less(a[1..], b[1..])))
  }

  lemma {:induction false} LessTotal(a: seq<byte>, b: seq<byte>)
    ensures !(Less(a, b) && Less(b, a)) && !Less(a, a) && (Less(a, b) || Less(b, a) || a == b)
    decreases |a|
  {
    if a != [] {
      LessTotal(a[1..], if b == [] then [] else b[1..]);
      assert a == [a[0]] + a[1..];
      if b != [] {
        assert b == [b[0]] + b[1..];
      }
    }
  }

  lemma {:induction false} LessDiffers(a: seq<byte>, b: seq<byte>)
    requires Less(a, b)
    ensures a != b
  {
    if a != [] && a[0] == b[0] {
      LessDiffers(a[1..], b[1..]);
    }
  }

  lemma {:induction false} LessPrepend(p: seq<byte>, a: seq<byte>, b: seq<byte>)
    ensures Less(p + a, p + b) <==> Less(a, b)
  {
    if p == [] {
      assert p + a == a && p + b == b;
    } else {
      LessPrepend(p[1..], a, b);
      assert (p + a)[1..] == p[1..] + a && (p + b)[1..] == p[1..] + b;
    }
  }

  lemma {:induction false} ProperPrefixLess(a: seq<byte>, b: seq<byte>)
    requires a <= b && a != b
    ensures Less(a, b)
  {
    if a != [] {
      ProperPrefixLess(a[1..], b[1..]);
    }
  }

  /** A difference inside the keys decides between any extensions of them. */
  lemma {:induction false} ExtensionsLess(k1: seq<byte>, k2: seq<byte>, x1: seq<byte>, x2: seq<byte>)
    requires Less(k1, k2) && !(k1 <= k2) && k1 <= x1 && k2 <= x2
    ensures Less(x1, x2)
  {
    if k1 != [] && k1[0] == k2[0] {
      assert k1 == [k1[0]] + k1[1..] && k2 == [k2[0]] + k2[1..];
      ExtensionsLess(k1[1..], k2[1..], x1[1..], x2[1..]);
    }
  }

  /** The first difference decides: a smaller byte, or an end where the other goes on. */
  ghost predicate DiffersAt(a: seq<byte>, b: seq<byte>, k: nat) {
    k <= |a| && k < |b| && a[..k] == b[..k] && (k == |a| || a[k] < b[k])
  }

  lemma {:induction false} LessIff(a: seq<byte>, b: seq<byte>)
    ensures Less(a, b) <==> exists k :: DiffersAt(a, b, k)
    decreases |a|
  {
    if a == [] {
      assert b != [] ==> DiffersAt(a, b, 0);
    } else if b != [] {
      LessIff(a[1..], b[1..]);
      if a[0] < b[0] {
        assert DiffersAt(a, b, 0);
      }
      if a[0] == b[0] {
        if k: nat :| DiffersAt(a[1..], b[1..], k) {
          assert a[..k + 1] == [a[0]] + a[1..][..k] && b[..k + 1] == [b[0]] + b[1..][..k];
          assert DiffersAt(a, b, k + 1);
        }
      }
      if k: nat :| DiffersAt(a, b, k) {
        if k > 0 {
          assert a[..k][0] == b[..k][0];
          assert a[1..][..k - 1] == a[..k][1..] && b[1..][..k - 1] == b[..k][1..];
          assert DiffersAt(a[1..], b[1..], k - 1);
        }
      }
    }
  }

  // ----- Git's entry order

  /** The bytes an entry sorts by: directories compare as if they ended in a slash. */
  function SortKey(e: Entry): seq<byte> {
    if IsTree(e) then e.name + [SLASH] else e.name
  }

  /** `validate_tree_name`, which every tree read applies to every entry. */
  predicate PlainName(name: seq<byte>) {
    name != [] && 0 !in name && SLASH !in name && name != [DOT] && name != [DOT, DOT]
  }

  /** Entries with slash-free names, distinct and in Git order. */
  predicate GitSorted(entries: seq<Entry>) {
    && (forall i :: 0 <= i < |entries| ==> PlainName(entries[i].name))
    && forall i, j :: 0 <= i < j < |entries| ==> Less(SortKey(entries[i]), SortKey(entries[j]))
  }

  /** A directory's key is a prefix of no other key. */
  lemma DirectoryKeyEnds(a: Entry, b: Entry)
    requires PlainName(b.name) && IsTree(a) && SortKey(a) <= SortKey(b)
    ensures SortKey(a) == SortKey(b)
  {
    var n := |a.name|;
    assert SortKey(a)[n] == SLASH == SortKey(b)[n];
    assert n >= |b.name|;
  }

  /** Everything under an entry extends its key; a file's path is exactly its key. */
  ghost predicate Under(prefix: Path, e: Entry, path: Path) {
    Base(prefix) + SortKey(e) <= path && (!IsTree(e) ==> path == Base(prefix) + e.name)
  }

  /** Paths under an earlier entry come before paths under a later one. */
  lemma UnderOrdered(prefix: Path, a: Entry, b: Entry, x: Path, y: Path)
    requires PlainName(a.name) && PlainName(b.name) && Less(SortKey(a), SortKey(b))
    requires Under(prefix, a, x) && Under(prefix, b, y)
    ensures Less(x, y)
  {
    var base := Base(prefix);
    var x', y' := x[|base|..], y[|base|..];
    assert x == base + x' && y == base + y';
    assert SortKey(a) <= x' && SortKey(b) <= y';
    LessDiffers(SortKey(a), SortKey(b));
    if SortKey(a) <= SortKey(b) {
      if IsTree(a) {
        DirectoryKeyEnds(a, b);
      }
      assert x' == SortKey(a) && |SortKey(a)| < |SortKey(b)|;
      ProperPrefixLess(x', y');
    } else {
      ExtensionsLess(SortKey(a), SortKey(b), x', y');
    }
    LessPrepend(base, x', y');
  }

  // ----- valid paths

  /** The segments between slashes. */
  function Segments(path: Path): (r: seq<seq<byte>>)
    ensures r != []
  {
    if path == [] then [[]]
    else
      var rest := Segments(path[1..]);
      if path[0] == SLASH then [[]] + rest else [[path[0]] + rest[0]] + rest[1..]
  }

  /** `validate_path`. */
  predicate ValidPath(path: Path) {
    0 !in path && (path == [] || (var s := Segments(path); [] !in s && [DOT] !in s && [DOT, DOT] !in s))
  }

  lemma {:induction false} PlainSegments(name: seq<byte>)
    requires SLASH !in name
    ensures Segments(name) == [name]
  {
    if name != [] {
      PlainSegments(name[1..]);
      assert [name[0]] + name[1..] == name;
    }
  }

  lemma {:induction false} SegmentsJoin(prefix: Path, rest: Path)
    ensures Segments(prefix + ([SLASH] + rest)) == Segments(prefix) + Segments(rest)
  {
    hide Segments;
    NoSegments();
    if prefix == [] {
      assert prefix + ([SLASH] + rest) == [SLASH] + rest;
      SegmentsCons(SLASH, rest);
    } else {
      var b, more := prefix[0], prefix[1..];
      SegmentsJoin(more, rest);
      SegmentsCons(b, more);
      SegmentsCons(b, more + ([SLASH] + rest));
      HeadJoins(b, Segments(more), Segments(rest));
      assert [b] + more == prefix;
      assert [b] + (more + ([SLASH] + rest)) == prefix + ([SLASH] + rest);
    }
  }

  lemma HeadJoins(b: byte, s: seq<seq<byte>>, t: seq<seq<byte>>)
    requires s != []
    ensures [[b] + (s + t)[0]] + (s + t)[1..] == [[b] + s[0]] + s[1..] + t
    ensures [[]] + (s + t) == [[]] + s + t
  {
  }

  lemma NoSegments()
    ensures Segments([]) == [[]]
  {
  }

  lemma SegmentsCons(b: byte, rest: Path)
    ensures
      var s := Segments(rest);
      Segments([b] + rest) == if b == SLASH then [[]] + s else [[b] + s[0]] + s[1..]
  {
    assert ([b] + rest)[1..] == rest;
  }

  /** Joining an accepted name to a valid path gives a valid path. */
  lemma JoinValid(prefix: Path, name: seq<byte>)
    requires ValidPath(prefix) && PlainName(name)
    ensures ValidPath(JoinPath(prefix, name)) && JoinPath(prefix, name) != []
  {
    PlainSegments(name);
    if prefix != [] {
      SegmentsJoin(prefix, name);
      assert prefix + [SLASH] + name == prefix + ([SLASH] + name);
    }
  }

  // ----- stores of trees

  /** The trees that reading accepts; any other tree is an error wherever it is met. */
  type TreeStore = map<Oid, seq<Entry>>

  /** A height for every object ID; trees are content-addressed, so they nest finitely. */
  type Rank = Oid -> nat

  ghost predicate Ranked(store: TreeStore, rank: Rank) {
    forall oid, e :: oid in store && e in store[oid] && IsTree(e) ==> rank(e.oid) < rank(oid)
  }

  /** One more than the highest subtree listed. */
  ghost function Height(rank: Rank, entries: seq<Entry>): (h: nat)
    ensures forall e :: e in entries && IsTree(e) ==> rank(e.oid) < h
  {
    if entries == [] then 0
    else Max(if IsTree(entries[0]) then rank(entries[0].oid) + 1 else 0, Height(rank, entries[1..]))
  }

  lemma {:induction false} HeightBelow(rank: Rank, entries: seq<Entry>, bound: nat)
    requires forall e :: e in entries && IsTree(e) ==> rank(e.oid) < bound
    ensures Height(rank, entries) <= bound
  {
    if entries != [] {
      HeightBelow(rank, entries[1..], bound);
    }
  }

  lemma ChildHeight(store: TreeStore, rank: Rank, e: Entry)
    requires Ranked(store, rank) && e.oid in store
    ensures Height(rank, store[e.oid]) <= rank(e.oid)
  {
    HeightBelow(rank, store[e.oid], rank(e.oid));
  }

  /** No path with an empty segment, a single or a double dot between two slashes is valid. */
  lemma SegmentRejected(before: Path, segment: seq<byte>, after: Path)
    requires segment == [] || segment == [0x2e] || segment == [0x2e, 0x2e]
    ensures !ValidPath(before + ([SLASH] + (segment + ([SLASH] + after))))
    ensures segment != [] ==> !ValidPath(segment) && !ValidPath(segment + ([SLASH] + after))
    ensures !ValidPath(before + ([SLASH] + segment))
  {
    hide Segments;
    PlainSegments(segment);
    SegmentsJoin(segment, after);
    SegmentsJoin(before, segment + ([SLASH] + after));
    SegmentsJoin(before, segment);
    assert segment in Segments(segment);
  }
}
