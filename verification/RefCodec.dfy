/** Reference cursors and the base-215 name packer (crates/gitility-core/src/refs.rs). */
module RefCodec {
  import opened Basics
  import opened Cursors

  const BLOCK_SYMBOLS: nat := 32
  const BLOCK_BYTES: nat := 31
  const ALPHABET: nat := 215
  const MAX_REF_NAME_BYTES: nat := 4096

  type rank = x: int | 0 <= x < 215

  datatype RefError = ResultTooLarge | InvalidCursor

  // ----- the alphabet

  predicate IsForbidden(b: byte) {
    b in {0x2a, 0x3a, 0x3f, 0x5b, 0x5c, 0x5e, 0x7e}
  }

  /** How many forbidden printable bytes are below `b`. */
  function Skipped(b: byte): (r: nat)
  {
    (if 0x2a < b then 1 else 0) + (if 0x3a < b then 1 else 0) + (if 0x3f < b then 1 else 0) + (if 0x5b < b then 1 else 0)
    + (if 0x5c < b then 1 else 0) + (if 0x5e < b then 1 else 0) + (if 0x7e < b then 1 else 0)
  }

  function AlphabetRank(b: byte): (r: Option<rank>)
    ensures r.Some? <==> InAlphabet(b)
  {
    if b >= 0x80 then Some(87 + (b - 0x80))
    else if !(0x21 <= b <= 0x7e) || IsForbidden(b) then None
    else Some(b - 0x21 - Skipped(b))
  }

  /** The bytes Git allows in reference names. */
  predicate InAlphabet(b: byte) {
    b >= 0x80 || (0x21 <= b <= 0x7e && !IsForbidden(b))
  }

  /** `ref_name_alphabet_byte`: the inverse of `AlphabetRank`, total on the 215 ranks. */
  method AlphabetByte(r: byte) returns (b: Option<byte>)
    ensures b.Some? <==> r < ALPHABET
    ensures b.Some? ==> AlphabetRank(b.value) == Some(r)
  {
    if r >= 87 {
      return if r <= 214 then Some(0x80 + (r - 87)) else None;
    }
    var seen := 0;
    for candidate := 0x21 to 0x7f
      invariant seen == candidate - 0x21 - Skipped(candidate) && seen <= r
    {
      if IsForbidden(candidate) { continue; }
      if seen == r { return Some(candidate); }
      seen := seen + 1;
    }
    return None;
  }

  lemma AlphabetRankInjective(a: byte, b: byte)
    requires AlphabetRank(a).Some? && AlphabetRank(a) == AlphabetRank(b)
    ensures a == b
  {
  }

  predicate AllInAlphabet(name: seq<byte>) {
    forall i :: 0 <= i < |name| ==> InAlphabet(name[i])
  }

  function Ranks(block: seq<byte>): (r: seq<rank>)
    requires AllInAlphabet(block)
    ensures |r| == |block|
    ensures forall i :: 0 <= i < |r| ==> Some(r[i]) == AlphabetRank(block[i])
  {
    seq(|block|, i requires 0 <= i < |block| => AlphabetRank(block[i]).value)
  }

  lemma RanksSnoc(block: seq<byte>, i: nat)
    requires i < |block| && AllInAlphabet(block[..i + 1])
    ensures AllInAlphabet(block[..i]) && InAlphabet(block[i])
    ensures
      var done := Ranks(block[..i + 1]);
      |done| == i + 1 && done[..i] == Ranks(block[..i]) && Some(done[i]) == AlphabetRank(block[i])
  {
    hide InAlphabet, AlphabetRank;
    assert block[..i + 1][i] == block[i];
    forall k | 0 <= k < i ensures InAlphabet(block[k]) {
      assert block[k] == block[..i + 1][k];
    }
  }

  lemma RanksInjective(a: seq<byte>, b: seq<byte>)
    requires AllInAlphabet(a) && AllInAlphabet(b) && Ranks(a) == Ranks(b)
    ensures a == b
  {
    assert |a| == |Ranks(a)| == |b|;
    forall i | 0 <= i < |a| ensures a[i] == b[i] {
      assert Ranks(a)[i] == Ranks(b)[i];
      AlphabetRankInjective(a[i], b[i]);
    }
  }

  // ----- positional values

  function Pow215(n: nat): (r: nat)
    ensures r >= 1
    decreases n
  {
    if n == 0 then 1 else 215 * Pow215(n - 1)
  }

  lemma {:induction false} Pow215Add(m: nat, n: nat)
    ensures Pow215(m + n) == Pow215(m) * Pow215(n)
  {
    if m != 0 {
      Pow215Add(m - 1, n);
      calc {
        Pow215(m + n);
        215 * Pow215(m - 1 + n);
        215 * (Pow215(m - 1) * Pow215(n));
        (215 * Pow215(m - 1)) * Pow215(n);
      }
    }
  }

  lemma {:induction false} Pow256Add(m: nat, n: nat)
    ensures Pow256(m + n) == Pow256(m) * Pow256(n)
  {
    if m != 0 {
      Pow256Add(m - 1, n);
      calc {
        Pow256(m + n);
        256 * Pow256(m - 1 + n);
        256 * (Pow256(m - 1) * Pow256(n));
        (256 * Pow256(m - 1)) * Pow256(n);
      }
    }
  }

  lemma Pow215At32()
    ensures Pow215(32) == 434540957817089433549490303848237566365551461364850425161421298980712890625
  {
    assert Pow215(2) == 46225;
    hide Pow215;
    Pow215Add(2, 2);
    assert Pow215(4) == 2136750625;
    Pow215Add(4, 4);
    assert Pow215(8) == 4565703233437890625;
    Pow215Add(8, 8);
    assert Pow215(16) == 20845646015825209573717529449462890625;
    Pow215Add(16, 16);
  }

  lemma Pow256At31()
    ensures Pow256(31) == 452312848583266388373324160190187140051835877600158453279131187530910662656
  {
    assert Pow256(1) == 256;
    Pow256Widths();
    hide Pow256;
    Pow256Add(8, 8);
    Pow256Add(16, 8);
    Pow256Add(4, 2);
    Pow256Add(24, 6);
    Pow256Add(30, 1);
  }

  /** The tight bound the packer relies on: 215^32 < 256^31. */
  lemma BlockFits()
    ensures Pow215(BLOCK_SYMBOLS) < Pow256(BLOCK_BYTES)
  {
    hide Pow215, Pow256;
    Pow215At32();
    Pow256At31();
  }

  /** The number whose base-215 digits, most significant first, are `ranks`. */
  function Horner(ranks: seq<rank>): (r: nat)
  {
    if ranks == [] then 0 else Horner(ranks[..|ranks| - 1]) * 215 + ranks[|ranks| - 1]
  }

  lemma {:induction false} HornerBound(ranks: seq<rank>)
    ensures Horner(ranks) < Pow215(|ranks|)
  {
    if ranks != [] {
      HornerBound(ranks[..|ranks| - 1]);
    }
  }

  lemma {:induction false} HornerPrepend(first: rank, rest: seq<rank>)
    ensures Horner([first] + rest) == first * Pow215(|rest|) + Horner(rest)
  {
    var all := [first] + rest;
    if rest == [] {
      assert all[..0] == [];
    } else {
      var init, last := rest[..|rest| - 1], rest[|rest| - 1];
      HornerPrepend(first, init);
      assert all[..|all| - 1] == [first] + init;
      HornerUnfold(all);
      HornerUnfold(rest);
      assert Pow215(|rest|) == 215 * Pow215(|init|);
      hide Horner, Pow215;
      PrependArithmetic(first, Pow215(|init|), Horner(init), last);
    }
  }

  lemma HornerUnfold(ranks: seq<rank>)
    requires ranks != []
    ensures Horner(ranks) == Horner(ranks[..|ranks| - 1]) * 215 + ranks[|ranks| - 1]
  {
  }

  lemma PrependArithmetic(first: nat, p: nat, h: nat, last: nat)
    ensures (first * p + h) * 215 + last == first * (215 * p) + (h * 215 + last)
  {
  }

  lemma {:induction false} HornerInjective(a: seq<rank>, b: seq<rank>)
    requires |a| == |b| && Horner(a) == Horner(b)
    ensures a == b
  {
    if a != [] {
      var n := |a| - 1;
      HornerInjective(a[..n], b[..n]);
      assert a == a[..n] + [a[n]] && b == b[..n] + [b[n]];
    }
  }

  lemma {:induction false} FromLeAppend(s: seq<byte>, b: byte)
    ensures FromLe(s + [b]) == FromLe(s) + b * Pow256(|s|)
  {
    if s == [] {
      assert [b][1..] == [];
    } else {
      assert (s + [b])[1..] == s[1..] + [b];
      FromLeAppend(s[1..], b);
      calc {
        FromLe(s + [b]);
        s[0] + 256 * (FromLe(s[1..]) + b * Pow256(|s| - 1));
        s[0] + 256 * FromLe(s[1..]) + b * (256 * Pow256(|s| - 1));
      }
    }
  }

  // ----- one block

  function PackedBlock(block: seq<byte>): (r: seq<byte>)
    requires |block| == BLOCK_SYMBOLS && AllInAlphabet(block)
    ensures |r| == BLOCK_BYTES
  {
    LeBytes(Horner(Ranks(block)), BLOCK_BYTES)
  }

  lemma PackedBlockValue(block: seq<byte>)
    requires |block| == BLOCK_SYMBOLS && AllInAlphabet(block)
    ensures FromLe(PackedBlock(block)) == Horner(Ranks(block)) < Pow215(BLOCK_SYMBOLS)
  {
    BlockFits();
    HornerBound(Ranks(block));
    FromLeLeBytes(Horner(Ranks(block)), BLOCK_BYTES);
  }

  /** The number with `carry` above the `|low|` low bytes. */
  function Carried(low: seq<byte>, carry: nat): nat {
    FromLe(low) + carry * Pow256(|low|)
  }

  lemma CarryArithmetic(lo: nat, slot: byte, carry: nat, p: nat, value: nat, old_lo: nat, r: nat)
    requires value == slot * 215 + carry
    requires lo + carry * p == old_lo * 215 + r
    ensures lo + (value % 256) * p + (value / 256) * (256 * p) == (old_lo + slot * p) * 215 + r
  {
    assert value == value / 256 * 256 + value % 256;
    calc {
      lo + (value % 256) * p + (value / 256) * (256 * p);
      lo + (value % 256 + value / 256 * 256) * p;
      lo + value * p;
      lo + (slot * 215 + carry) * p;
      lo + carry * p + slot * 215 * p;
      (old_lo + slot * p) * 215 + r;
    }
  }

  lemma CarryStep(low: seq<byte>, was: seq<byte>, slot: byte, carry: nat, r: nat)
    requires |low| == |was| && Carried(low, carry) == FromLe(was) * 215 + r
    ensures
      var value := slot * 215 + carry;
      Carried(low + [value % 256], value / 256) == FromLe(was + [slot]) * 215 + r
  {
    hide FromLe;
    var value, p := slot * 215 + carry, Pow256(|low|);
    FromLeAppend(low, value % 256);
    FromLeAppend(was, slot);
    CarryArithmetic(FromLe(low), slot, carry, p, value, FromLe(was), r);
  }

  /** Multiply the 31-byte number by 215 and add one digit; no 16-bit value overflows. */
  method MultiplyAdd(packed: array<byte>, digit: rank) returns (carry: nat)
    requires packed.Length == BLOCK_BYTES
    modifies packed
    ensures Carried(packed[..], carry) == FromLe(old(packed[..])) * 215 + digit
  {
    ghost var was := packed[..];
    assert Carried([], digit) == FromLe([]) * 215 + digit;
    hide FromLe, Carried;
    carry := digit;
    var j := 0;
    while j < packed.Length
      invariant 0 <= j <= packed.Length && carry <= 214
      invariant packed[j..] == was[j..]
      invariant Carried(packed[..j], carry) == FromLe(was[..j]) * 215 + digit
    {
      assert packed[j] == packed[j..][0] == was[j];
      ghost var low, high := packed[..j], packed[j + 1..];
      assert high == packed[j..][1..] && was[j + 1..] == was[j..][1..];
      var value := packed[j] * 215 + carry;
      assert value <= U16_MAX;
      CarryStep(low, was[..j], packed[j], carry, digit);
      assert was[..j + 1] == was[..j] + [was[j]];
      packed[j] := value % 256;
      carry := value / 256;
      assert packed[..j] == low;
      assert packed[..j + 1] == low + [packed[j]];
      assert packed[j + 1..] == high;
      j := j + 1;
    }
    assert packed[..j] == packed[..] && was[..j] == was;
  }

  lemma CarryIsZero(low: nat, carry: nat, p: nat, total: nat)
    requires low + carry * p == total < p
    ensures carry == 0
  {
    if carry != 0 {
      AtLeastOnce(carry, p);
    }
  }

  lemma AtLeastOnce(n: nat, p: nat)
    requires n != 0
    ensures n * p >= p
  {
  }

  lemma {:induction false} FromLeZeros(s: seq<byte>)
    ensures (forall i :: 0 <= i < |s| ==> s[i] == 0) <==> FromLe(s) == 0
  {
    if s != [] {
      FromLeZeros(s[1..]);
      assert s == [s[0]] + s[1..];
    }
  }

  lemma {:induction false} Pow215Monotone(m: nat, n: nat)
    requires m <= n
    ensures Pow215(m) <= Pow215(n)
    decreases n - m
  {
    if m < n {
      Pow215Monotone(m, n - 1);
    }
  }

  lemma DigitsFit(ranks: seq<rank>)
    requires |ranks| <= BLOCK_SYMBOLS
    ensures Horner(ranks) < Pow256(BLOCK_BYTES)
  {
    BlockFits();
    Pow215Monotone(|ranks|, BLOCK_SYMBOLS);
    HornerBound(ranks);
  }

  /** One more digit still fits, so its carry is zero. */
  lemma PackStep(block: seq<byte>, i: nat, packed: seq<byte>, carry: nat)
    requires i < |block| && AllInAlphabet(block[..i + 1]) && Horner(Ranks(block[..i + 1])) < Pow256(|packed|)
    requires Carried(packed, carry) == Horner(Ranks(block[..i])) * 215 + AlphabetRank(block[i]).value
    ensures carry == 0 && FromLe(packed) == Horner(Ranks(block[..i + 1]))
  {
    hide Horner, FromLe, Pow256, InAlphabet;
    var done := Ranks(block[..i + 1]);
    RanksSnoc(block, i);
    HornerUnfold(done);
    CarryIsZero(FromLe(packed), carry, Pow256(|packed|), Horner(done));
  }

  method PackBlock(block: seq<byte>) returns (r: Option<seq<byte>>)
    requires |block| == BLOCK_SYMBOLS
    ensures r.Some? <==> AllInAlphabet(block)
    ensures r.Some? ==> r.value == PackedBlock(block)
  {
    hide Pow256, Pow215, FromLe, LeBytes, Carried;
    var packed := new byte[BLOCK_BYTES](_ => 0);
    FromLeZeros(packed[..]);
    assert block[..0] == [];
    for i := 0 to BLOCK_SYMBOLS
      invariant AllInAlphabet(block[..i])
      invariant FromLe(packed[..]) == Horner(Ranks(block[..i]))
    {
      var digit := AlphabetRank(block[i]);
      if digit.None? { return None; }
      var carry := MultiplyAdd(packed, digit.value);
      DigitsFit(Ranks(block[..i + 1]));
      PackStep(block, i, packed[..], carry);
    }
    assert block[..BLOCK_SYMBOLS] == block;
    LeBytesFromLe(packed[..]);
    return Some(packed[..]);
  }

  /** Divide the 31-byte number by 215 in place; no 16-bit value overflows. */
  method DivideOut(value: array<byte>) returns (remainder: rank)
    requires value.Length == BLOCK_BYTES
    modifies value
    ensures FromLe(old(value[..])) == FromLe(value[..]) * 215 + remainder
  {
    remainder := 0;
    var j := value.Length;
    ghost var was := value[..];
    while j > 0
      invariant 0 <= j <= value.Length
      invariant value[..j] == was[..j]
      invariant FromLe(was[j..]) == FromLe(value[j..]) * 215 + remainder
    {
      j := j - 1;
      assert value[j] == value[..j + 1][j] == was[j];
      var dividend := remainder * 256 + value[j];
      assert dividend <= U16_MAX;
      ghost var above := value[j + 1..];
      assert was[j..][1..] == was[j + 1..];
      value[j] := dividend / 215;
      remainder := dividend % 215;
      assert value[j..][1..] == above;
    }
    assert was[0..] == was && value[0..] == value[..];
  }

  /** The 32 rounds of division. */
  method DivideAll(value: array<byte>) returns (ranks: seq<rank>)
    requires value.Length == BLOCK_BYTES
    modifies value
    ensures |ranks| == BLOCK_SYMBOLS
    ensures FromLe(old(value[..])) == Reassembled(FromLe(value[..]), ranks)
  {
    ranks := [];
    assert Reassembled(FromLe(value[..]), []) == FromLe(value[..]);
    hide FromLe, Horner, Pow215, Reassembled;
    var k := 0;
    while k < BLOCK_SYMBOLS
      invariant 0 <= k <= BLOCK_SYMBOLS && |ranks| == k
      invariant FromLe(old(value[..])) == Reassembled(FromLe(value[..]), ranks)
    {
      ghost var v := FromLe(value[..]);
      var remainder := DivideOut(value);
      RankStep(v, FromLe(value[..]), remainder, ranks);
      ranks := [remainder] + ranks;
      k := k + 1;
    }
  }

  /** The digits of a block, and whether a nonzero rest shows it is out of range. */
  method ExtractRanks(packed: seq<byte>) returns (ranks: seq<rank>, overflow: bool)
    requires |packed| == BLOCK_BYTES
    ensures |ranks| == BLOCK_SYMBOLS
    ensures overflow <==> FromLe(packed) >= Pow215(BLOCK_SYMBOLS)
    ensures !overflow ==> FromLe(packed) == Horner(ranks)
  {
    hide FromLe, Horner, Pow215, Reassembled;
    var value := new byte[BLOCK_BYTES](i requires 0 <= i < BLOCK_BYTES => packed[i]);
    assert value[..] == packed;
    ranks := DivideAll(value);
    overflow := exists i :: 0 <= i < BLOCK_BYTES && value[i] != 0;
    FromLeZeros(value[..]);
    Rest(FromLe(value[..]), ranks);
  }

  /** The number with quotient `v` above the extracted digits. */
  function Reassembled(v: nat, ranks: seq<rank>): nat {
    v * Pow215(|ranks|) + Horner(ranks)
  }

  lemma RankStep(v: nat, q: nat, r: rank, ranks: seq<rank>)
    requires v == q * 215 + r
    ensures Reassembled(v, ranks) == Reassembled(q, [r] + ranks)
  {
    hide Horner;
    HornerPrepend(r, ranks);
    DigitStep(v, q, r, Pow215(|ranks|));
  }

  lemma Rest(v: nat, ranks: seq<rank>)
    ensures v != 0 <==> Reassembled(v, ranks) >= Pow215(|ranks|)
    ensures v == 0 ==> Reassembled(v, ranks) == Horner(ranks)
  {
    HornerBound(ranks);
    if v != 0 {
      AtLeastOnce(v, Pow215(|ranks|));
    }
  }

  method UnpackBlock(packed: seq<byte>) returns (r: Option<seq<byte>>)
    requires |packed| == BLOCK_BYTES
    ensures r.Some? ==> |r.value| == BLOCK_SYMBOLS && AllInAlphabet(r.value) && packed == PackedBlock(r.value)
    ensures r.None? ==> FromLe(packed) >= Pow215(BLOCK_SYMBOLS)
  {
    hide Pow215, FromLe, LeBytes, Horner;
    var ranks, overflow := ExtractRanks(packed);
    if overflow { return None; }
    var name: seq<byte> := [];
    for i := 0 to BLOCK_SYMBOLS
      invariant |name| == i && AllInAlphabet(name) && Ranks(name) == ranks[..i]
    {
      var b := AlphabetByte(ranks[i]);
      var grown := name + [b.value];
      assert Ranks(grown) == ranks[..i + 1];
      name := grown;
    }
    assert ranks[..BLOCK_SYMBOLS] == ranks;
    LeBytesFromLe(packed);
    return Some(name);
  }

  lemma DigitStep(v: nat, q: nat, r: nat, p: nat)
    requires v == q * 215 + r
    ensures v * p == q * (215 * p) + r * p
  {
  }

  // ----- whole names

  /** `name` is `k` full blocks of alphabet bytes. */
  predicate IsBlocks(name: seq<byte>, k: nat) {
    |name| == BLOCK_SYMBOLS * k && AllInAlphabet(name)
  }

  function PackedBlocks(name: seq<byte>, k: nat): (r: seq<byte>)
    requires IsBlocks(name, k)
    ensures |r| == BLOCK_BYTES * k
    decreases k
  {
    if k == 0 then []
    else
      var n := BLOCK_SYMBOLS * (k - 1);
      PackedBlocks(name[..n], k - 1) + PackedBlock(name[n..])
  }

  lemma PackedBlocksSplit(name: seq<byte>, k: nat)
    requires IsBlocks(name, k + 1)
    ensures
      var n, m := BLOCK_SYMBOLS * k, BLOCK_BYTES * k;
      && IsBlocks(name[..n], k) && AllInAlphabet(name[n..]) && name == name[..n] + name[n..]
      && PackedBlocks(name, k + 1)[..m] == PackedBlocks(name[..n], k)
      && PackedBlocks(name, k + 1)[m..] == PackedBlock(name[n..])
  {
    hide PackedBlock;
  }

  lemma PackedBlockInjective(a: seq<byte>, b: seq<byte>)
    requires |a| == |b| == BLOCK_SYMBOLS && AllInAlphabet(a) && AllInAlphabet(b)
    requires PackedBlock(a) == PackedBlock(b)
    ensures a == b
  {
    hide Pow215, Horner, PackedBlock, FromLe;
    PackedBlockValue(a);
    PackedBlockValue(b);
    HornerInjective(Ranks(a), Ranks(b));
    RanksInjective(a, b);
  }

  lemma {:induction false} PackedBlocksInjective(a: seq<byte>, b: seq<byte>, k: nat)
    requires IsBlocks(a, k) && IsBlocks(b, k) && PackedBlocks(a, k) == PackedBlocks(b, k)
    ensures a == b
    decreases k
  {
    hide PackedBlock, PackedBlocks;
    if k != 0 {
      PackedBlocksSplit(a, k - 1);
      PackedBlocksSplit(b, k - 1);
      var n := BLOCK_SYMBOLS * (k - 1);
      PackedBlocksInjective(a[..n], b[..n], k - 1);
      PackedBlockInjective(a[n..], b[n..]);
    }
  }

  method EncodeBlocks(name: seq<byte>, k: nat) returns (r: Option<seq<byte>>)
    requires |name| == BLOCK_SYMBOLS * k
    ensures r.Some? <==> AllInAlphabet(name)
    ensures r.Some? ==> r.value == PackedBlocks(name, k)
  {
    hide PackedBlock;
    var encoded: seq<byte> := [];
    assert name[..0] == [];
    for i := 0 to k
      invariant IsBlocks(name[..BLOCK_SYMBOLS * i], i)
      invariant encoded == PackedBlocks(name[..BLOCK_SYMBOLS * i], i)
    {
      var lo, hi := BLOCK_SYMBOLS * i, BLOCK_SYMBOLS * i + BLOCK_SYMBOLS;
      var packed := PackBlock(name[lo..hi]);
      if packed.None? { return None; }
      assert name[..hi] == name[..lo] + name[lo..hi];
      assert name[..hi][..lo] == name[..lo] && name[..hi][lo..] == name[lo..hi];
      encoded := encoded + packed.value;
    }
    assert name[..BLOCK_SYMBOLS * k] == name;
    return Some(encoded);
  }

  method DecodeBlocks(packed: seq<byte>, k: nat) returns (r: Option<seq<byte>>)
    requires |packed| == BLOCK_BYTES * k
    ensures r.Some? ==> IsBlocks(r.value, k) && packed == PackedBlocks(r.value, k)
    ensures r.None? ==> forall name | IsBlocks(name, k) :: packed != PackedBlocks(name, k)
  {
    hide PackedBlock, Pow215;
    var name: seq<byte> := [];
    for i := 0 to k
      invariant IsBlocks(name, i) && PackedBlocks(name, i) == packed[..BLOCK_BYTES * i]
    {
      var lo, hi := BLOCK_BYTES * i, BLOCK_BYTES * i + BLOCK_BYTES;
      var block := UnpackBlock(packed[lo..hi]);
      if block.None? {
        forall other | IsBlocks(other, k) && packed == PackedBlocks(other, k) ensures false {
          BlockInRange(other, k, i);
        }
        return None;
      }
      var grown := name + block.value;
      assert grown[..BLOCK_SYMBOLS * i] == name && grown[BLOCK_SYMBOLS * i..] == block.value;
      assert packed[..hi] == packed[..lo] + packed[lo..hi];
      name := grown;
    }
    assert packed[..BLOCK_BYTES * k] == packed;
    return Some(name);
  }

  /** Every block of a packed name is below 215^32. */
  lemma {:induction false} BlockInRange(name: seq<byte>, k: nat, i: nat)
    requires IsBlocks(name, k) && i < k
    ensures FromLe(PackedBlocks(name, k)[BLOCK_BYTES * i..BLOCK_BYTES * i + BLOCK_BYTES]) < Pow215(BLOCK_SYMBOLS)
    decreases k
  {
    hide PackedBlock, PackedBlocks, Pow215, FromLe, Horner;
    PackedBlocksSplit(name, k - 1);
    var n, m := BLOCK_SYMBOLS * (k - 1), BLOCK_BYTES * (k - 1);
    var lo, hi := BLOCK_BYTES * i, BLOCK_BYTES * i + BLOCK_BYTES;
    var all := PackedBlocks(name, k);
    if i == k - 1 {
      PackedBlockValue(name[n..]);
      assert all[lo..hi] == all[m..];
    } else {
      BlockInRange(name[..n], k - 1, i);
      assert all[lo..hi] == all[..m][lo..hi];
    }
  }

  function TailStart(length: nat): (r: nat)
    ensures r == BLOCK_SYMBOLS * (length / BLOCK_SYMBOLS) && length - BLOCK_SYMBOLS < r <= length
  {
    length / BLOCK_SYMBOLS * BLOCK_SYMBOLS
  }

  /** The names the packer takes: short enough, and no forbidden byte in a full block. */
  predicate Packable(name: seq<byte>) {
    |name| <= U16_MAX && AllInAlphabet(name[..TailStart(|name|)])
  }

  /** The compact form: a 16-bit length, the packed blocks, and the raw tail. */
  function Compact(name: seq<byte>): (r: seq<byte>)
    requires Packable(name)
    ensures |r| == CompactSize(|name|)
  {
    LeBytes(|name|, 2) + PackedBlocks(name[..TailStart(|name|)], |name| / BLOCK_SYMBOLS) + name[TailStart(|name|)..]
  }

  function CompactSize(length: nat): nat {
    2 + BLOCK_BYTES * (length / BLOCK_SYMBOLS) + (length - TailStart(length))
  }

  method EncodeCompact(name: seq<byte>) returns (r: Result<seq<byte>, RefError>)
    ensures r.Ok? <==> Packable(name)
    ensures r.Ok? ==> r.value == Compact(name)
    ensures r == Err(ResultTooLarge) <==> |name| > U16_MAX
  {
    hide LeBytes, PackedBlocks;
    if |name| > U16_MAX { return Err(ResultTooLarge); }
    var fullBlocks := |name| / BLOCK_SYMBOLS;
    var tailStart := fullBlocks * BLOCK_SYMBOLS;
    var blocks := EncodeBlocks(name[..tailStart], fullBlocks);
    if blocks.None? { return Err(InvalidCursor); }
    return Ok(LeBytes(|name|, 2) + blocks.value + name[tailStart..]);
  }

  /** The three parts of a compact form can be read back. */
  lemma CompactParts(name: seq<byte>)
    requires Packable(name)
    ensures
      var k, t, e := |name| / BLOCK_SYMBOLS, TailStart(|name|), Compact(name);
      && FromLe(e[..2]) == |name|
      && e[2..2 + BLOCK_BYTES * k] == PackedBlocks(name[..t], k)
      && e[2 + BLOCK_BYTES * k..] == name[t..]
      && name == name[..t] + name[t..]
  {
    hide PackedBlocks;
    Pow256Widths();
    FromLeLeBytes(|name|, 2);
    assert Compact(name)[..2] == LeBytes(|name|, 2);
  }

  /** A compact form determines its name. */
  lemma CompactInjective(a: seq<byte>, b: seq<byte>)
    requires Packable(a) && Packable(b) && Compact(a) == Compact(b)
    ensures a == b
  {
    hide PackedBlocks, FromLe, Compact;
    CompactParts(a);
    CompactParts(b);
    var t := TailStart(|a|);
    PackedBlocksInjective(a[..t], b[..t], |a| / BLOCK_SYMBOLS);
  }

  /** `encoded` is the compact form of the accepted name `name`. */
  ghost predicate IsCompact(encoded: seq<byte>, name: seq<byte>) {
    Packable(name) && |name| <= MAX_REF_NAME_BYTES && encoded == Compact(name)
  }

  /** `decode_compact_ref_position`: accepts exactly the compact forms, and inverts them. */
  method DecodeCompact(encoded: seq<byte>) returns (r: Result<seq<byte>, RefError>)
    ensures r.Ok? ==> IsCompact(encoded, r.value)
    ensures r.Err? ==> forall name :: !IsCompact(encoded, name)
  {
    hide LeBytes, FromLe, PackedBlocks, IsCompact, CompactSize, TailStart;
    if |encoded| < 2 { NotCompact(encoded, 0); return Err(InvalidCursor); }
    var length := FromLe(encoded[..2]);
    if length > MAX_REF_NAME_BYTES { NotCompact(encoded, length); return Err(InvalidCursor); }
    var fullBlocks := length / BLOCK_SYMBOLS;
    var tailStart := 2 + fullBlocks * BLOCK_BYTES;
    CompactSizeIs(length);
    if |encoded| != tailStart + length % BLOCK_SYMBOLS { NotCompact(encoded, length); return Err(InvalidCursor); }
    var blocks := DecodeBlocks(encoded[2..tailStart], fullBlocks);
    if blocks.None? { NotCompact(encoded, length); return Err(InvalidCursor); }
    var name := blocks.value + encoded[tailStart..];
    CompactOf(encoded, blocks.value, fullBlocks, name);
    return Ok(name);
  }

  lemma CompactSizeIs(length: nat)
    ensures CompactSize(length) == 2 + length / BLOCK_SYMBOLS * BLOCK_BYTES + length % BLOCK_SYMBOLS
  {
  }

  /** What disqualifies bytes from being a compact form. */
  lemma NotCompact(encoded: seq<byte>, length: nat)
    requires |encoded| >= 2 ==> length == FromLe(encoded[..2])
    requires
      var k := length / BLOCK_SYMBOLS;
      || |encoded| < 2 || length > MAX_REF_NAME_BYTES || |encoded| != CompactSize(length)
      || forall blocks | IsBlocks(blocks, k) :: encoded[2..2 + BLOCK_BYTES * k] != PackedBlocks(blocks, k)
    ensures forall name :: !IsCompact(encoded, name)
  {
    hide FromLe, PackedBlocks;
    forall name | IsCompact(encoded, name) ensures false {
      CompactParts(name);
    }
  }

  lemma CompactOf(encoded: seq<byte>, blocks: seq<byte>, k: nat, name: seq<byte>)
    requires |encoded| >= 2 + BLOCK_BYTES * k && FromLe(encoded[..2]) == |name|
    requires IsBlocks(blocks, k) && encoded[2..2 + BLOCK_BYTES * k] == PackedBlocks(blocks, k)
    requires name == blocks + encoded[2 + BLOCK_BYTES * k..] && |name| - BLOCK_SYMBOLS < |blocks|
    requires |name| <= MAX_REF_NAME_BYTES
    ensures IsCompact(encoded, name)
  {
    hide FromLe, PackedBlocks, LeBytes;
    Pow256Widths();
    LeBytesFromLe(encoded[..2]);
    assert k == |name| / BLOCK_SYMBOLS;
    assert name[..|blocks|] == blocks && name[|blocks|..] == encoded[2 + BLOCK_BYTES * k..];
    assert encoded == encoded[..2] + encoded[2..2 + BLOCK_BYTES * k] + encoded[2 + BLOCK_BYTES * k..];
  }

  // ----- reference cursors

  const OPERATION_REFS: byte := 5
  const COMPACT_GENERATION: seq<byte> := [1]

  function CursorIdentity(hash: HashKind, fingerprint: u64): CursorExpected {
    CursorExpected(hash, seq(hash.DigestLen(), _ => 0), OPERATION_REFS, fingerprint)
  }

  function RefCursor(hash: HashKind, fingerprint: u64, generation: seq<byte>, position: seq<byte>): (c: Cursor)
    ensures WellFormed(c) && Identity(c) == CursorIdentity(hash, fingerprint)
  {
    Cursor(hash, seq(hash.DigestLen(), _ => 0), OPERATION_REFS, fingerprint, generation, position)
  }

  lemma RefCursorSize(hash: HashKind, fingerprint: u64, generation: seq<byte>, position: seq<byte>)
    ensures |Encoded(RefCursor(hash, fingerprint, generation, position))|
         == 19 + hash.DigestLen() + |generation| + |position|
  {
    hide Trailer, LeBytes;
  }

  /** `encode_ref_cursor`: every name of at most 4096 alphabet bytes gets a cursor within 4096 bytes. */
  method EncodeRefCursor(hash: HashKind, fingerprint: u64, position: seq<byte>)
    returns (r: Result<seq<byte>, RefError>)
    ensures r.Ok? ==> |r.value| <= MAX_CURSOR_BYTES && IsRefCursor(r.value, hash, fingerprint, position)
    ensures |position| <= MAX_REF_NAME_BYTES && AllInAlphabet(position) ==> r.Ok?
  {
    hide Encoded, Compact, Packable;
    var plain := RefCursor(hash, fingerprint, [], position);
    var encoded := Encode(plain);
    RefCursorSize(hash, fingerprint, [], position);
    if |encoded| > MAX_CURSOR_BYTES {
      var packed := EncodeCompact(position);
      if |position| <= MAX_REF_NAME_BYTES && AllInAlphabet(position) {
        PackableName(position);
      }
      if packed.Err? { return Err(packed.error); }
      var compact := RefCursor(hash, fingerprint, COMPACT_GENERATION, packed.value);
      encoded := Encode(compact);
      RefCursorSize(hash, fingerprint, COMPACT_GENERATION, packed.value);
    }
    if |encoded| > MAX_CURSOR_BYTES { return Err(ResultTooLarge); }
    return Ok(encoded);
  }

  lemma PackableName(name: seq<byte>)
    requires |name| <= MAX_REF_NAME_BYTES && AllInAlphabet(name)
    ensures Packable(name)
  {
  }

  /** `encoded` is one of the two envelopes of the name `position`. */
  ghost predicate IsRefCursor(encoded: seq<byte>, hash: HashKind, fingerprint: u64, position: seq<byte>) {
    || encoded == Encoded(RefCursor(hash, fingerprint, [], position))
    || (Packable(position) && encoded == Encoded(RefCursor(hash, fingerprint, COMPACT_GENERATION, Compact(position))))
  }

  /**
   * `decode_ref_cursor`: answers the name a reference cursor was made from, for
   * any full-name validator that bounds names to 4096 bytes.
   */
  method DecodeRefCursor(encoded: seq<byte>, hash: HashKind, fingerprint: u64, validName: seq<byte> -> bool)
    returns (r: Result<seq<byte>, RefError>)
    requires forall name :: validName(name) ==> |name| <= MAX_REF_NAME_BYTES
    ensures r.Ok? ==> validName(r.value) && IsRefCursor(encoded, hash, fingerprint, r.value)
    ensures r.Err? && |encoded| <= MAX_CURSOR_BYTES ==>
      forall name | validName(name) :: !IsRefCursor(encoded, hash, fingerprint, name)
  {
    hide Encoded, Carries, Accepts, IsCompact, IsRefCursor;
    var decoded := Decode(encoded, CursorIdentity(hash, fingerprint));
    forall name | validName(name) && |encoded| <= MAX_CURSOR_BYTES && IsRefCursor(encoded, hash, fingerprint, name)
      ensures decoded.Ok? && HoldsName(decoded.value, name)
    {
      RefCursorCarried(encoded, hash, fingerprint, name);
      if decoded.Ok? {
        CarriedName(encoded, hash, fingerprint, decoded.value, name);
      }
    }
    if decoded.Err? { return Err(InvalidCursor); }
    var cursor := decoded.value;
    var position;
    if cursor.generation == [] {
      position := cursor.position;
    } else if cursor.generation == COMPACT_GENERATION {
      var unpacked := DecodeCompact(cursor.position);
      if unpacked.Err? { return Err(InvalidCursor); }
      position := unpacked.value;
    } else {
      return Err(InvalidCursor);
    }
    assert HoldsName(cursor, position);
    forall name | HoldsName(cursor, name) ensures name == position {
      NameHeldOnce(cursor, name, position);
    }
    if !validName(position) { return Err(InvalidCursor); }
    HeldNameCarried(encoded, hash, fingerprint, cursor, position);
    return Ok(position);
  }

  /** The cursor `c` carries `name`, either raw or packed. */
  ghost predicate HoldsName(c: Cursor, name: seq<byte>) {
    if c.generation == [] then c.position == name else c.generation == COMPACT_GENERATION && IsCompact(c.position, name)
  }

  lemma NameHeldOnce(c: Cursor, a: seq<byte>, b: seq<byte>)
    requires HoldsName(c, a) && HoldsName(c, b)
    ensures a == b
  {
    if c.generation != [] {
      CompactInjective(a, b);
    }
  }

  lemma RefCursorCarried(encoded: seq<byte>, hash: HashKind, fingerprint: u64, name: seq<byte>)
    requires IsRefCursor(encoded, hash, fingerprint, name) && |encoded| <= MAX_CURSOR_BYTES
    ensures Accepts(encoded, CursorIdentity(hash, fingerprint))
  {
    hide Encoded, Compact;
    if encoded == Encoded(RefCursor(hash, fingerprint, [], name)) {
      assert Carries(encoded, CursorIdentity(hash, fingerprint), RefCursor(hash, fingerprint, [], name));
    } else {
      assert Carries(encoded, CursorIdentity(hash, fingerprint), RefCursor(hash, fingerprint, COMPACT_GENERATION, Compact(name)));
    }
  }

  lemma CarriedName(encoded: seq<byte>, hash: HashKind, fingerprint: u64, c: Cursor, name: seq<byte>)
    requires IsRefCursor(encoded, hash, fingerprint, name) && Carries(encoded, CursorIdentity(hash, fingerprint), c)
    requires |name| <= MAX_REF_NAME_BYTES
    ensures HoldsName(c, name)
  {
    hide Encoded, Compact;
    var e := CursorIdentity(hash, fingerprint);
    if encoded == Encoded(RefCursor(hash, fingerprint, [], name)) {
      CarriedUnique(encoded, e, c, RefCursor(hash, fingerprint, [], name));
    } else {
      CarriedUnique(encoded, e, c, RefCursor(hash, fingerprint, COMPACT_GENERATION, Compact(name)));
    }
  }

  lemma HeldNameCarried(encoded: seq<byte>, hash: HashKind, fingerprint: u64, c: Cursor, name: seq<byte>)
    requires Carries(encoded, CursorIdentity(hash, fingerprint), c) && HoldsName(c, name)
    ensures IsRefCursor(encoded, hash, fingerprint, name)
  {
    hide Encoded, Compact;
    assert c == RefCursor(hash, fingerprint, c.generation, c.position);
  }
}
