/** Versioned, checksummed continuation cursors (crates/gitility-core/src/cursor.rs). */
module Cursors {
  import opened Basics

  datatype HashKind = Sha1 | Sha256 {
    function DigestLen(): nat { if Sha1? then 20 else 32 }
    function Tag(): byte { if Sha1? then 1 else 2 }
  }

  const VERSION: byte := 1
  const MAX_CURSOR_BYTES: nat := 4096
  const CRC_BYTES: nat := 4

  datatype Cursor = Cursor(
    hashKind: HashKind,
    snapshotDigest: seq<byte>,
    operationTag: byte,
    optionFingerprint: u64,
    generation: seq<byte>,
    position: seq<byte>)

  datatype CursorExpected = CursorExpected(
    hashKind: HashKind,
    snapshotDigest: seq<byte>,
    operationTag: byte,
    optionFingerprint: u64)

  datatype CursorError =
    | LengthCheck | CrcCheck | VersionCheck | HashKindCheck | DigestCheck
    | OperationCheck | FingerprintCheck | GenerationCheck | PositionCheck | TrailingCheck

  // ----- little-endian integers

  function Pow256(width: nat): (r: nat)
    ensures r >= 1
  {
    if width == 0 then 1 else 256 * Pow256(width - 1)
  }

  function LeBytes(value: nat, width: nat): (r: seq<byte>)
    ensures |r| == width
    decreases width, value
  {
    if width == 0 then [] else [value % 256] + LeBytes(value / 256, width - 1)
  }

  function FromLe(bytes: seq<byte>): (r: nat)
  {
    if bytes == [] then 0 else bytes[0] + 256 * FromLe(bytes[1..])
  }

  lemma {:induction false} FromLeLeBytes(value: nat, width: nat)
    requires value < Pow256(width)
    ensures FromLe(LeBytes(value, width)) == value
    decreases width
  {
    if width != 0 {
      FromLeLeBytes(value / 256, width - 1);
      assert LeBytes(value, width)[1..] == LeBytes(value / 256, width - 1);
    }
  }

  lemma {:induction false} LeBytesFromLe(bytes: seq<byte>)
    ensures FromLe(bytes) < Pow256(|bytes|)
    ensures LeBytes(FromLe(bytes), |bytes|) == bytes
  {
    if bytes != [] {
      LeBytesFromLe(bytes[1..]);
      assert bytes == [bytes[0]] + bytes[1..];
    }
  }

  lemma Pow256Widths()
    ensures Pow256(2) == 0x1_0000 && Pow256(4) == 0x1_0000_0000
    ensures Pow256(8) == 0x1_0000_0000_0000_0000
  {
    assert Pow256(4) == 256 * (256 * Pow256(2));
    assert Pow256(6) == 256 * (256 * Pow256(4));
  }

  // ----- bytes as bit vectors

  function Pow2(width: nat): (r: nat)
    ensures r >= 1
  {
    if width == 0 then 1 else 2 * Pow2(width - 1)
  }

  /** The low `width` bits of `value`, least significant first. */
  function BitsOf(value: nat, width: nat): (r: seq<bool>)
    ensures |r| == width
    decreases width, value
  {
    if width == 0 then [] else [value % 2 == 1] + BitsOf(value / 2, width - 1)
  }

  function BitsValue(bits: seq<bool>): (r: nat)
    ensures r < Pow2(|bits|)
  {
    if bits == [] then 0 else (if bits[0] then 1 else 0) + 2 * BitsValue(bits[1..])
  }

  lemma {:induction false} BitsValueOfBits(value: nat, width: nat)
    requires value < Pow2(width)
    ensures BitsValue(BitsOf(value, width)) == value
    decreases width
  {
    if width != 0 {
      BitsValueOfBits(value / 2, width - 1);
      assert BitsOf(value, width)[1..] == BitsOf(value / 2, width - 1);
    }
  }

  lemma {:induction false} BitsOfBitsValue(bits: seq<bool>)
    ensures BitsOf(BitsValue(bits), |bits|) == bits
  {
    if bits != [] {
      BitsOfBitsValue(bits[1..]);
      assert bits == [bits[0]] + bits[1..];
    }
  }

  lemma Pow2Eight()
    ensures Pow2(8) == 256
  {
    assert Pow2(4) == 16;
    assert Pow2(8) == 2 * (2 * (2 * (2 * Pow2(4))));
  }

  function BitsWord(c: seq<bool>): bv32
    requires |c| == 8
  {
    (if c[0] then 0x01 else 0) | (if c[1] then 0x02 else 0) | (if c[2] then 0x04 else 0) | (if c[3] then 0x08 else 0) |
    (if c[4] then 0x10 else 0) | (if c[5] then 0x20 else 0) | (if c[6] then 0x40 else 0) | (if c[7] then 0x80 else 0)
  }

  function WordBits(x: bv32): (r: seq<bool>)
    ensures |r| == 8
  {
    [x & 0x01 != 0, x & 0x02 != 0, x & 0x04 != 0, x & 0x08 != 0,
     x & 0x10 != 0, x & 0x20 != 0, x & 0x40 != 0, x & 0x80 != 0]
  }

  lemma WordBitsOfBitsWord(c: seq<bool>)
    requires |c| == 8
    ensures WordBits(BitsWord(c)) == c
  {
    assert c == [c[0], c[1], c[2], c[3], c[4], c[5], c[6], c[7]];
    WordBitsAt(c[0], c[1], c[2], c[3], c[4], c[5], c[6], c[7]);
  }

  lemma WordBitsAt(b0: bool, b1: bool, b2: bool, b3: bool, b4: bool, b5: bool, b6: bool, b7: bool)
    ensures WordBits(BitsWord([b0, b1, b2, b3, b4, b5, b6, b7])) == [b0, b1, b2, b3, b4, b5, b6, b7]
  {
  }

  /** `u32::from(byte)`. */
  function ByteWord(b: byte): bv32 {
    BitsWord(BitsOf(b, 8))
  }

  /** `word as u8`. */
  function LowByte(x: bv32): byte {
    Pow2Eight();
    BitsValue(WordBits(x))
  }

  lemma LowByteOfByteWord(b: byte)
    ensures LowByte(ByteWord(b)) == b
  {
    Pow2Eight();
    WordBitsOfBitsWord(BitsOf(b, 8));
    BitsValueOfBits(b, 8);
  }

  lemma ByteWordOfLowByte(x: bv32)
    ensures ByteWord(LowByte(x)) == x & 0xff
  {
    BitsOfBitsValue(WordBits(x));
    BitsWordOfWordBits(x);
  }

  lemma BitsWordOfWordBits(x: bv32)
    ensures BitsWord(WordBits(x)) == x & 0xff
  {
  }

  /** `crc.to_le_bytes()`. */
  function CrcBytes(crc: bv32): (r: seq<byte>)
    ensures |r| == CRC_BYTES
  {
    [LowByte(crc), LowByte(crc >> 8), LowByte(crc >> 16), LowByte(crc >> 24)]
  }

  /** `u32::from_le_bytes(bytes)`. */
  function ReadCrc(bytes: seq<byte>): bv32
    requires |bytes| == CRC_BYTES
  {
    ByteWord(bytes[0]) | (ByteWord(bytes[1]) << 8) | (ByteWord(bytes[2]) << 16) | (ByteWord(bytes[3]) << 24)
  }

  lemma ReadCrcOfCrcBytes(crc: bv32)
    ensures ReadCrc(CrcBytes(crc)) == crc
  {
    ByteWordOfLowByte(crc);
    ByteWordOfLowByte(crc >> 8);
    ByteWordOfLowByte(crc >> 16);
    ByteWordOfLowByte(crc >> 24);
  }

  /** Equal trailers carry equal checksums. */
  lemma CrcBytesInjective(x: bv32, y: bv32)
    requires CrcBytes(x) == CrcBytes(y)
    ensures x == y
  {
    ReadCrcOfCrcBytes(x);
    ReadCrcOfCrcBytes(y);
  }

  // ----- CRC-32

  /** One shift of the reflected CRC-32 register. */
  function CrcShift(crc: bv32): bv32 {
    (crc >> 1) ^ (0xedb8_8320 & (0 - (crc & 1)))
  }

  function CrcShifts(crc: bv32, times: nat): bv32
    decreases times, crc
  {
    if times == 0 then crc else CrcShifts(CrcShift(crc), times - 1)
  }

  function CrcByte(crc: bv32, b: byte): bv32 {
    CrcShifts(crc ^ ByteWord(b), 8)
  }

  /** The register after feeding `bytes`, starting from `crc`. */
  function CrcFold(crc: bv32, bytes: seq<byte>): bv32
    decreases |bytes|
  {
    if bytes == [] then crc else CrcFold(CrcByte(crc, bytes[0]), bytes[1..])
  }

  function Invert(crc: bv32): bv32 {
    crc ^ 0xffff_ffff
  }

  function Crc32(bytes: seq<byte>): bv32 {
    Invert(CrcFold(0xffff_ffff, bytes))
  }

  /** The polynomial's top bit is set, so the shifted-out bit can be read back. */
  lemma CrcShiftInjective(a: bv32, b: bv32)
    requires CrcShift(a) == CrcShift(b)
    ensures a == b
  {
  }

  lemma {:induction false} CrcShiftsInjective(a: bv32, b: bv32, times: nat)
    requires CrcShifts(a, times) == CrcShifts(b, times)
    ensures a == b
    decreases times
  {
    if times != 0 {
      CrcShiftsInjective(CrcShift(a), CrcShift(b), times - 1);
      CrcShiftInjective(a, b);
    }
  }

  lemma ByteBitsInjective(a: byte, b: byte)
    requires ByteWord(a) == ByteWord(b)
    ensures a == b
  {
    LowByteOfByteWord(a);
    LowByteOfByteWord(b);
  }

  lemma CrcByteUnfolds(a: bv32, x: byte, b: bv32, y: byte)
    requires CrcByte(a, x) == CrcByte(b, y)
    ensures CrcShifts(a ^ ByteWord(x), 8) == CrcShifts(b ^ ByteWord(y), 8)
  {
  }

  lemma CrcWordInjective(a: bv32, x: bv32, b: bv32, y: bv32)
    requires CrcShifts(a ^ x, 8) == CrcShifts(b ^ y, 8)
    ensures x == y ==> a == b
    ensures a == b ==> x == y
  {
    CrcShiftsInjective(a ^ x, b ^ y, 8);
    XorCancels(a, x, b, y);
  }

  lemma XorCancels(a: bv32, x: bv32, b: bv32, y: bv32)
    requires a ^ x == b ^ y
    ensures x == y ==> a == b
    ensures a == b ==> x == y
  {
  }

  lemma CrcByteInjectiveAt(a: bv32, x: byte, b: bv32, y: byte)
    requires CrcByte(a, x) == CrcByte(b, y)
    ensures x == y ==> a == b
    ensures a == b ==> x == y
  {
    CrcByteUnfolds(a, x, b, y);
    CrcWordInjective(a, ByteWord(x), b, ByteWord(y));
    if a == b {
      ByteBitsInjective(x, y);
    }
  }

  /** Distinct registers stay distinct over the same input. */
  lemma {:induction false} CrcFoldInjective(a: bv32, b: bv32, bytes: seq<byte>)
    requires CrcFold(a, bytes) == CrcFold(b, bytes)
    ensures a == b
    decreases |bytes|
  {
    hide CrcByte;
    if bytes != [] {
      CrcFoldInjective(CrcByte(a, bytes[0]), CrcByte(b, bytes[0]), bytes[1..]);
      CrcByteInjectiveAt(a, bytes[0], b, bytes[0]);
    }
  }

  /** Changing one byte changes the final register. */
  lemma {:induction false} CrcFoldDetectsByteChange(crc: bv32, bytes: seq<byte>, i: nat, b: byte)
    requires i < |bytes| && bytes[i] != b
    ensures CrcFold(crc, bytes[i := b]) != CrcFold(crc, bytes)
    decreases |bytes|
  {
    hide CrcByte;
    var changed := bytes[i := b];
    if i == 0 {
      assert changed[1..] == bytes[1..];
      if CrcFold(crc, changed) == CrcFold(crc, bytes) {
        CrcFoldInjective(CrcByte(crc, b), CrcByte(crc, bytes[0]), bytes[1..]);
        CrcByteInjectiveAt(crc, b, crc, bytes[0]);
      }
    } else {
      assert changed[1..] == bytes[1..][i - 1 := b];
      CrcFoldDetectsByteChange(CrcByte(crc, bytes[0]), bytes[1..], i - 1, b);
    }
  }

  lemma CrcDetectsByteChange(bytes: seq<byte>, i: nat, b: byte)
    requires i < |bytes| && bytes[i] != b
    ensures Crc32(bytes[i := b]) != Crc32(bytes)
  {
    CrcFoldDetectsByteChange(0xffff_ffff, bytes, i, b);
  }

  /** `crc32(bytes).to_le_bytes()`. */
  function Trailer(bytes: seq<byte>): (r: seq<byte>)
    ensures |r| == CRC_BYTES
  {
    CrcBytes(Crc32(bytes))
  }

  lemma TrailerDetectsByteChange(bytes: seq<byte>, i: nat, b: byte)
    requires i < |bytes| && bytes[i] != b
    ensures Trailer(bytes[i := b]) != Trailer(bytes)
  {
    CrcDetectsByteChange(bytes, i, b);
    if Trailer(bytes[i := b]) == Trailer(bytes) {
      CrcBytesInjective(Crc32(bytes[i := b]), Crc32(bytes));
    }
  }

  /** The inner loop of `crc32`: mix in one byte with eight shifts. */
  method FeedByte(start: bv32, b: byte) returns (crc: bv32)
    ensures crc == CrcByte(start, b)
  {
    crc := start ^ ByteWord(b);
    for k := 0 to 8
      invariant CrcShifts(crc, 8 - k) == CrcByte(start, b)
    {
      crc := CrcShift(crc);
    }
  }

  method FeedAll(start: bv32, bytes: seq<byte>) returns (crc: bv32)
    ensures crc == CrcFold(start, bytes)
  {
    hide CrcByte;
    crc := start;
    for i := 0 to |bytes|
      invariant CrcFold(crc, bytes[i..]) == CrcFold(start, bytes)
    {
      assert bytes[i..][1..] == bytes[i + 1..];
      crc := FeedByte(crc, bytes[i]);
    }
  }

  method ComputeCrc32(bytes: seq<byte>) returns (crc: bv32)
    ensures crc == Crc32(bytes)
  {
    hide CrcFold, Invert;
    crc := FeedAll(0xffff_ffff, bytes);
    crc := Invert(crc);
  }

  /** `crc32`, with its result as the four bytes of an envelope trailer. */
  method Checksum(bytes: seq<byte>) returns (trailer: seq<byte>)
    ensures trailer == Trailer(bytes)
  {
    var crc := ComputeCrc32(bytes);
    trailer := CrcBytes(crc);
  }

  // ----- the v1 envelope

  /** `u16::try_from(len).unwrap_or(u16::MAX).to_le_bytes()`. */
  function LengthBytes(len: nat): (r: seq<byte>)
    ensures |r| == 2
  {
    LeBytes(if len > U16_MAX then U16_MAX else len, 2)
  }

  /** The fixed fields: version, hash tag, digest, operation tag and fingerprint. */
  function Header(e: CursorExpected): seq<byte> {
    [VERSION, e.hashKind.Tag()] + e.snapshotDigest + [e.operationTag] + LeBytes(e.optionFingerprint, 8)
  }

  /** The two length-prefixed fields. */
  function Fields(generation: seq<byte>, position: seq<byte>): seq<byte> {
    LengthBytes(|generation|) + generation + LengthBytes(|position|) + position
  }

  /** Everything the checksum covers. */
  function Body(c: Cursor): seq<byte> {
    Header(Identity(c)) + Fields(c.generation, c.position)
  }

  function Encoded(c: Cursor): seq<byte> {
    Body(c) + Trailer(Body(c))
  }

  predicate WellFormed(c: Cursor) {
    |c.snapshotDigest| == c.hashKind.DigestLen()
  }

  function Identity(c: Cursor): CursorExpected {
    CursorExpected(c.hashKind, c.snapshotDigest, c.operationTag, c.optionFingerprint)
  }

  /** `c` is a cursor that decoding `bytes` for `expected` may answer. */
  ghost predicate Carries(bytes: seq<byte>, expected: CursorExpected, c: Cursor) {
    WellFormed(c) && Identity(c) == expected && |bytes| <= MAX_CURSOR_BYTES && bytes == Encoded(c)
  }

  ghost predicate Accepts(bytes: seq<byte>, expected: CursorExpected) {
    exists c :: Carries(bytes, expected, c)
  }

  method Encode(c: Cursor) returns (out: seq<byte>)
    ensures out == Encoded(c)
  {
    out := [VERSION];
    out := out + [c.hashKind.Tag()];
    out := out + c.snapshotDigest;
    out := out + [c.operationTag];
    out := out + LeBytes(c.optionFingerprint, 8);
    out := out + LengthBytes(|c.generation|);
    out := out + c.generation;
    out := out + LengthBytes(|c.position|);
    out := out + c.position;
    assert out == Body(c);
    var trailer := Checksum(out);
    out := out + trailer;
  }

  /** `take`: the next `len` bytes, if the slice is in range. */
  function Take(bytes: seq<byte>, offset: nat, len: nat): Option<seq<byte>> {
    if offset + len <= |bytes| then Some(bytes[offset..offset + len]) else None
  }

  ghost predicate IsBody(body: seq<byte>, expected: CursorExpected, c: Cursor) {
    WellFormed(c) && Identity(c) == expected && |c.generation| <= U16_MAX && |c.position| <= U16_MAX && body == Body(c)
  }

  /** The fixed fields up to the first length agree with the expectation. */
  predicate HeaderMatches(body: seq<byte>, e: CursorExpected) {
    var d := e.hashKind.DigestLen();
    && |e.snapshotDigest| == d && |body| >= 11 + d
    && body[0] == VERSION && body[1] == e.hashKind.Tag()
    && body[2..2 + d] == e.snapshotDigest
    && body[2 + d] == e.operationTag
    && FromLe(body[3 + d..11 + d]) == e.optionFingerprint
  }

  /** The bytes from `offset` on are two length-prefixed fields and nothing else. */
  ghost predicate IsTail(body: seq<byte>, offset: nat, generation: seq<byte>, position: seq<byte>) {
    var g := offset + 2 + |generation|;
    && |body| == g + 2 + |position|
    && FromLe(body[offset..offset + 2]) == |generation| && body[offset + 2..g] == generation
    && FromLe(body[g..g + 2]) == |position| && body[g + 2..] == position
  }

  lemma HeaderParses(body: seq<byte>, e: CursorExpected)
    ensures HeaderMatches(body, e) <==>
      && |e.snapshotDigest| == e.hashKind.DigestLen() && |body| >= 11 + e.hashKind.DigestLen()
      && body[..11 + e.hashKind.DigestLen()] == Header(e)
  {
    hide LeBytes, FromLe, Pow256;
    var d := e.hashKind.DigestLen();
    if |e.snapshotDigest| == d && |body| >= 11 + d {
      Pow256Widths();
      FromLeLeBytes(e.optionFingerprint, 8);
      LeBytesFromLe(body[3 + d..11 + d]);
      HeaderSlices(body[..11 + d], e, d);
    }
  }

  lemma HeaderSlices(head: seq<byte>, e: CursorExpected, d: nat)
    requires |e.snapshotDigest| == d && |head| == 11 + d
    ensures head == Header(e) <==>
      && head[0] == VERSION && head[1] == e.hashKind.Tag() && head[2..2 + d] == e.snapshotDigest
      && head[2 + d] == e.operationTag && head[3 + d..] == LeBytes(e.optionFingerprint, 8)
  {
    hide LeBytes;
    assert head == [head[0], head[1]] + head[2..2 + d] + [head[2 + d]] + head[3 + d..];
    if head == Header(e) {
      assert head[2..2 + d] == e.snapshotDigest && head[3 + d..] == LeBytes(e.optionFingerprint, 8);
    }
  }

  lemma FieldsParse(body: seq<byte>, offset: nat, g: seq<byte>, p: seq<byte>)
    requires offset <= |body|
    ensures IsTail(body, offset, g, p) <==> |g| <= U16_MAX && |p| <= U16_MAX && body[offset..] == Fields(g, p)
  {
    Pow256Widths();
    var next := offset + 2 + |g|;
    if IsTail(body, offset, g, p) {
      LeBytesFromLe(body[offset..offset + 2]);
      LeBytesFromLe(body[next..next + 2]);
      assert body[offset..] == body[offset..offset + 2] + body[offset + 2..next] + body[next..next + 2] + body[next + 2..];
    }
    if |g| <= U16_MAX && |p| <= U16_MAX && body[offset..] == Fields(g, p) {
      FromLeLeBytes(|g|, 2);
      FromLeLeBytes(|p|, 2);
      var tail := body[offset..];
      assert tail[..2] == LengthBytes(|g|) == body[offset..offset + 2];
      assert tail[2..2 + |g|] == g == body[offset + 2..next];
      assert tail[2 + |g|..4 + |g|] == LengthBytes(|p|) == body[next..next + 2];
      assert tail[4 + |g|..] == p == body[next + 2..];
    }
  }

  /** Parsing the header and the two length-prefixed fields inverts `Body`. */
  lemma BodySplits(body: seq<byte>, e: CursorExpected, c: Cursor)
    requires Identity(c) == e
    ensures IsBody(body, e, c) <==> HeaderMatches(body, e) && IsTail(body, 11 + e.hashKind.DigestLen(), c.generation, c.position)
  {
    var n := 11 + e.hashKind.DigestLen();
    HeaderParses(body, e);
    if n <= |body| {
      FieldsParse(body, n, c.generation, c.position);
      assert body == body[..n] + body[n..];
      if IsBody(body, e, c) {
        assert body[..n] == Header(e) && body[n..] == Fields(c.generation, c.position);
      }
    }
  }

  method DecodeHeader(body: seq<byte>, expected: CursorExpected) returns (r: Option<CursorError>)
    ensures r.None? <==> HeaderMatches(body, expected)
    ensures r != Some(LengthCheck) && r != Some(CrcCheck)
  {
    if |body| < 1 || body[0] != VERSION { return Some(VersionCheck); }
    if |body| < 2 || body[1] != expected.hashKind.Tag() { return Some(HashKindCheck); }
    var digestLen := expected.hashKind.DigestLen();
    if |expected.snapshotDigest| != digestLen { return Some(DigestCheck); }
    var offset := 2;
    var digest := Take(body, offset, digestLen);
    if digest.None? || digest.value != expected.snapshotDigest { return Some(DigestCheck); }
    offset := offset + digestLen;
    var tag := Take(body, offset, 1);
    if tag.None? || tag.value[0] != expected.operationTag { return Some(OperationCheck); }
    offset := offset + 1;
    var fingerprint := Take(body, offset, 8);
    if fingerprint.None? || FromLe(fingerprint.value) != expected.optionFingerprint { return Some(FingerprintCheck); }
    return None;
  }

  method DecodeTail(body: seq<byte>, start: nat) returns (r: Result<(seq<byte>, seq<byte>), CursorError>)
    ensures r.Ok? ==> IsTail(body, start, r.value.0, r.value.1)
    ensures r.Err? ==> r.error in {GenerationCheck, PositionCheck, TrailingCheck}
    ensures r.Err? ==> forall g, p :: !IsTail(body, start, g, p)
  {
    var offset := start;
    var generationLen := Take(body, offset, 2);
    if generationLen.None? { return Err(GenerationCheck); }
    offset := offset + 2;
    var generation := Take(body, offset, FromLe(generationLen.value));
    if generation.None? { return Err(GenerationCheck); }
    offset := offset + |generation.value|;
    var positionLen := Take(body, offset, 2);
    if positionLen.None? { return Err(PositionCheck); }
    offset := offset + 2;
    var position := Take(body, offset, FromLe(positionLen.value));
    if position.None? { return Err(PositionCheck); }
    offset := offset + |position.value|;
    if offset != |body| { return Err(TrailingCheck); }
    return Ok((generation.value, position.value));
  }

  /** The field-by-field part of `decode`, after the length and checksum checks. */
  method DecodeBody(body: seq<byte>, expected: CursorExpected) returns (r: Result<Cursor, CursorError>)
    ensures r.Ok? ==> IsBody(body, expected, r.value)
    ensures r.Err? ==> forall c :: !IsBody(body, expected, c)
    ensures r != Err(LengthCheck) && r != Err(CrcCheck)
  {
    forall c | IsBody(body, expected, c)
      ensures HeaderMatches(body, expected)
      ensures IsTail(body, 11 + expected.hashKind.DigestLen(), c.generation, c.position)
    {
      BodySplits(body, expected, c);
    }
    var header := DecodeHeader(body, expected);
    if header.Some? { return Err(header.value); }
    var tail := DecodeTail(body, 11 + expected.hashKind.DigestLen());
    match tail {
      case Err(e) => return Err(e);
      case Ok((generation, position)) =>
        var c := Cursor(expected.hashKind, expected.snapshotDigest, expected.operationTag,
                        expected.optionFingerprint, generation, position);
        BodySplits(body, expected, c);
        return Ok(c);
    }
  }

  /** An envelope is accepted exactly when its trailer and its body are. */
  lemma EnvelopeSplits(bytes: seq<byte>, e: CursorExpected, c: Cursor)
    requires CRC_BYTES <= |bytes| <= MAX_CURSOR_BYTES
    ensures
      var n := |bytes| - CRC_BYTES;
      Carries(bytes, e, c) <==> IsBody(bytes[..n], e, c) && bytes[n..] == Trailer(bytes[..n])
  {
    var n := |bytes| - CRC_BYTES;
    assert bytes == bytes[..n] + bytes[n..];
    if Carries(bytes, e, c) {
      assert bytes[..n] == Body(c) && bytes[n..] == Trailer(Body(c));
    }
  }

  lemma EnvelopeAccepts(bytes: seq<byte>, e: CursorExpected)
    requires CRC_BYTES <= |bytes| <= MAX_CURSOR_BYTES
    ensures
      var n := |bytes| - CRC_BYTES;
      && (forall c :: Carries(bytes, e, c) <==> IsBody(bytes[..n], e, c) && bytes[n..] == Trailer(bytes[..n]))
      && (Accepts(bytes, e) ==> bytes[n..] == Trailer(bytes[..n]) && exists c :: IsBody(bytes[..n], e, c))
  {
    hide Trailer, IsBody;
    var n := |bytes| - CRC_BYTES;
    forall c ensures Carries(bytes, e, c) <==> IsBody(bytes[..n], e, c) && bytes[n..] == Trailer(bytes[..n]) {
      EnvelopeSplits(bytes, e, c);
    }
  }

  /**
   * `decode`: accepts exactly the in-limit encodings of the expected identity
   * and answers the cursor they encode; the length check comes first and the
   * checksum second.
   */
  method Decode(bytes: seq<byte>, expected: CursorExpected) returns (r: Result<Cursor, CursorError>)
    ensures r.Ok? ==> Carries(bytes, expected, r.value)
    ensures r.Err? ==> !Accepts(bytes, expected)
    ensures r == Err(LengthCheck) <==> |bytes| > MAX_CURSOR_BYTES
    ensures r == Err(CrcCheck) <==>
      && |bytes| <= MAX_CURSOR_BYTES
      && (|bytes| < CRC_BYTES || Trailer(bytes[..|bytes| - CRC_BYTES]) != bytes[|bytes| - CRC_BYTES..])
  {
    if |bytes| > MAX_CURSOR_BYTES { return Err(LengthCheck); }
    if |bytes| < CRC_BYTES { return Err(CrcCheck); }
    hide Trailer, Carries, Accepts, IsBody;
    var bodyLen := |bytes| - CRC_BYTES;
    var body := bytes[..bodyLen];
    EnvelopeAccepts(bytes, expected);
    var trailer := Checksum(body);
    if trailer != bytes[bodyLen..] { return Err(CrcCheck); }
    r := DecodeBody(body, expected);
  }

  /** Decoding inverts encoding exactly for the cursors whose encoding is within the limit. */
  lemma RoundTrip(c: Cursor)
    requires WellFormed(c)
    ensures Accepts(Encoded(c), Identity(c)) <==> |Encoded(c)| <= MAX_CURSOR_BYTES
    ensures forall d :: Carries(Encoded(c), Identity(c), d) ==> d == c
    ensures |c.generation| > U16_MAX || |c.position| > U16_MAX ==> !Accepts(Encoded(c), Identity(c))
  {
    if |Encoded(c)| <= MAX_CURSOR_BYTES {
      assert Carries(Encoded(c), Identity(c), c);
      forall d | Carries(Encoded(c), Identity(c), d) ensures d == c {
        CarriedUnique(Encoded(c), Identity(c), c, d);
      }
    }
  }

  lemma CarriedUnique(bytes: seq<byte>, expected: CursorExpected, c: Cursor, d: Cursor)
    requires Carries(bytes, expected, c) && Carries(bytes, expected, d)
    ensures c == d
  {
    EnvelopeSplits(bytes, expected, c);
    EnvelopeSplits(bytes, expected, d);
    var body := bytes[..|bytes| - CRC_BYTES];
    BodySplits(body, expected, c);
    BodySplits(body, expected, d);
    TailUnique(body, 11 + expected.hashKind.DigestLen(), c, d);
  }

  lemma TailUnique(body: seq<byte>, offset: nat, c: Cursor, d: Cursor)
    requires IsTail(body, offset, c.generation, c.position) && IsTail(body, offset, d.generation, d.position)
    ensures c.generation == d.generation && c.position == d.position
  {
  }

  lemma CorruptionSplits(body: seq<byte>, tail: seq<byte>, i: nat, b: byte, body2: seq<byte>, tail2: seq<byte>)
    requires |tail| == |tail2| && i < |body + tail| && (body + tail)[i] != b
    requires (body + tail)[i := b] == body2 + tail2
    ensures i < |body| ==> body2 == body[i := b] && body[i] != b && tail2 == tail
    ensures i >= |body| ==> body2 == body && tail2 != tail
  {
    var all := (body + tail)[i := b];
    assert |body2| == |body|;
    assert body2 == all[..|body|] && tail2 == all[|body|..];
    if i >= |body| {
      assert tail2[i - |body|] == b;
    }
  }

  /** No single-byte corruption of an encoding is accepted, for any expectation. */
  lemma CorruptionRejected(c: Cursor, i: nat, b: byte, expected: CursorExpected)
    requires i < |Encoded(c)| && Encoded(c)[i] != b
    ensures !Accepts(Encoded(c)[i := b], expected)
  {
    var corrupt := Encoded(c)[i := b];
    forall d | Carries(corrupt, expected, d) ensures false {
      CorruptionSplits(Body(c), Trailer(Body(c)), i, b, Body(d), Trailer(Body(d)));
      if i < |Body(c)| {
        TrailerDetectsByteChange(Body(c), i, b);
      }
    }
  }
}
