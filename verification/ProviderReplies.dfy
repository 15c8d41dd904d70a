/** Validation of one provider reply (crates/gitility-core/src/provider_odb.rs). */
module ProviderReplies {
  import opened Basics

  type Oid = nat

  const HEADER_SIZE_CEILING: u64 := 0x100_0000_0000

  datatype Kind = Header | Object

  datatype Value = HeaderValue(size: u64) | ObjectValue(data: seq<byte>) | NotFound

  datatype Item = Item(oid: Oid, value: Value)

  datatype Limits = Limits(maxObjectBytes: u64, maxProviderBytes: u64, maxTotalBytes: Option<u64>, providerSpent: u64)

  datatype ReplyError = ProtocolError | ObjectTooLarge | BudgetExceeded | ResultTooLarge | HashMismatch

  predicate RightShape(kind: Kind, v: Value) {
    v.ObjectValue? || v.NotFound? || (kind.Header? && v.HeaderValue?)
  }

  predicate RightSize(v: Value, l: Limits) {
    match v
    case ObjectValue(data) => |data| <= l.maxObjectBytes
    case HeaderValue(size) => size <= HEADER_SIZE_CEILING
    case NotFound => true
  }

  function PayloadBytes(v: Value): nat {
    if v.ObjectValue? then |v.data| else 0
  }

  function ReplyBytes(items: seq<Item>): nat {
    if items == [] then 0 else ReplyBytes(items[..|items| - 1]) + PayloadBytes(items[|items| - 1].value)
  }

  /** The saturating 64-bit sum. */
  function CountedBytes(items: seq<Item>): u64 {
    Min(ReplyBytes(items), U64_MAX)
  }

  predicate WithinCeilings(bytes: u64, l: Limits) {
    bytes <= l.maxProviderBytes && (l.maxTotalBytes.Some? ==> bytes <= l.maxTotalBytes.value)
  }

  /** Distinct requested objects, each well shaped and within its size limit, within the byte ceilings. */
  ghost predicate Sound(kind: Kind, expected: seq<Oid>, items: seq<Item>, l: Limits) {
    && (forall i, j :: 0 <= i < j < |items| ==> items[i].oid != items[j].oid)
    && (forall i :: 0 <= i < |items| ==> items[i].oid in expected && RightShape(kind, items[i].value) && RightSize(items[i].value, l))
    && WithinCeilings(CountedBytes(items), l)
  }

  /** Every requested object is answered. */
  ghost predicate Covers(expected: seq<Oid>, items: seq<Item>) {
    forall oid :: oid in expected ==> exists i :: 0 <= i < |items| && items[i].oid == oid
  }

  ghost predicate Verified(verify: (Oid, seq<byte>) -> bool, items: seq<Item>) {
    forall i :: 0 <= i < |items| && items[i].value.ObjectValue? ==> verify(items[i].oid, items[i].value.data)
  }

  /** The decoded map holds exactly the items. */
  ghost predicate Decodes(decoded: map<Oid, Value>, items: seq<Item>) {
    && (forall i :: 0 <= i < |items| ==> items[i].oid in decoded && decoded[items[i].oid] == items[i].value)
    && (forall oid :: oid in decoded ==> exists i :: 0 <= i < |items| && items[i].oid == oid)
  }

  lemma {:induction false} BytesGrow(items: seq<Item>, n: nat)
    requires n <= |items|
    ensures ReplyBytes(items[..n]) <= ReplyBytes(items)
    decreases |items| - n
  {
    if n == |items| {
      assert items[..n] == items;
    } else {
      BytesGrow(items, n + 1);
      assert items[..n + 1][..n] == items[..n];
    }
  }

  /** A map onto part of the expected set with as many keys covers it. */
  lemma SameSize(decoded: map<Oid, Value>, expected: set<Oid>)
    requires decoded.Keys <= expected
    ensures |decoded| == |expected| <==> decoded.Keys == expected
  {
    assert |decoded| == |decoded.Keys|;
    assert expected == decoded.Keys + (expected - decoded.Keys);
    assert |expected| == |decoded.Keys| + |expected - decoded.Keys|;
  }

  lemma SoundPrefix(kind: Kind, expected: seq<Oid>, items: seq<Item>, n: nat, l: Limits)
    requires n <= |items| && Sound(kind, expected, items, l)
    ensures Sound(kind, expected, items[..n], l)
  {
    hide ReplyBytes;
    BytesGrow(items, n);
  }

  lemma SoundSnoc(kind: Kind, expected: seq<Oid>, items: seq<Item>, n: nat, l: Limits, decoded: map<Oid, Value>)
    requires n < |items| && Sound(kind, expected, items[..n], l) && Decodes(decoded, items[..n])
    ensures Sound(kind, expected, items[..n + 1], l) <==>
      && items[n].oid in expected && items[n].oid !in decoded
      && RightShape(kind, items[n].value) && RightSize(items[n].value, l)
      && WithinCeilings(Min(ReplyBytes(items[..n]) + PayloadBytes(items[n].value), U64_MAX), l)
    ensures items[n].oid !in decoded ==> Decodes(decoded[items[n].oid := items[n].value], items[..n + 1])
  {
    hide ReplyBytes, RightShape, RightSize, WithinCeilings;
    BytesSnoc(items, n);
    var before, after := items[..n], items[..n + 1];
    assert after == before + [items[n]];
    if items[n].oid in decoded {
      var i :| 0 <= i < n && before[i].oid == items[n].oid;
      assert after[i].oid == after[n].oid;
    } else {
      SnocDecodes(before, items[n], decoded);
    }
    if Sound(kind, expected, after, l) {
      assert after[n] == items[n];
    }
  }

  lemma SnocDecodes(before: seq<Item>, item: Item, decoded: map<Oid, Value>)
    requires Decodes(decoded, before) && item.oid !in decoded
    ensures Decodes(decoded[item.oid := item.value], before + [item])
  {
    var after := before + [item];
    var decoded' := decoded[item.oid := item.value];
    forall oid | oid in decoded' ensures exists i :: 0 <= i < |after| && after[i].oid == oid {
      if oid == item.oid {
        assert after[|before|].oid == oid;
      } else {
        var i :| 0 <= i < |before| && before[i].oid == oid;
        assert after[i].oid == oid;
      }
    }
  }

  /** The decoding loop: accepts exactly the sound replies. */
  method DecodeItems(kind: Kind, expected: seq<Oid>, items: seq<Item>, l: Limits) returns (r: Result<(map<Oid, Value>, u64), ReplyError>)
    ensures r.Ok? <==> Sound(kind, expected, items, l)
    ensures r.Ok? ==> Decodes(r.value.0, items) && r.value.1 == CountedBytes(items)
  {
    hide ReplyBytes, Sound, Decodes;
    var decoded: map<Oid, Value> := map[];
    var replyBytes: u64 := 0;
    assert items[..0] == [];
    NothingDecoded(kind, expected, l);
    for n := 0 to |items|
      invariant Sound(kind, expected, items[..n], l) && Decodes(decoded, items[..n]) && replyBytes == CountedBytes(items[..n])
    {
      var item := items[n];
      SoundSnoc(kind, expected, items, n, l, decoded);
      BytesSnoc(items, n);
      assert Sound(kind, expected, items, l) ==> Sound(kind, expected, items[..n + 1], l) by {
        if Sound(kind, expected, items, l) { SoundPrefix(kind, expected, items, n + 1, l); }
      }
      CeilingsHold(kind, expected, items[..n], l);
      if item.oid !in expected || item.oid in decoded { return Err(ProtocolError); }
      if item.value.HeaderValue? && kind.Object? { return Err(ProtocolError); }
      if item.value.ObjectValue? {
        if |item.value.data| > l.maxObjectBytes { return Err(ObjectTooLarge); }
        replyBytes := SaturatingAdd(replyBytes, |item.value.data|);
        if replyBytes > l.maxProviderBytes { return Err(BudgetExceeded); }
        if l.maxTotalBytes.Some? && replyBytes > l.maxTotalBytes.value { return Err(ResultTooLarge); }
      } else if item.value.HeaderValue? {
        if item.value.size > HEADER_SIZE_CEILING { return Err(ProtocolError); }
      }
      decoded := decoded[item.oid := item.value];
    }
    assert items[..|items|] == items;
    return Ok((decoded, replyBytes));
  }

  lemma NothingDecoded(kind: Kind, expected: seq<Oid>, l: Limits)
    ensures Sound(kind, expected, [], l) && Decodes(map[], []) && ReplyBytes([]) == 0
  {
  }

  lemma CeilingsHold(kind: Kind, expected: seq<Oid>, items: seq<Item>, l: Limits)
    requires Sound(kind, expected, items, l)
    ensures WithinCeilings(CountedBytes(items), l)
  {
  }

  function AsSet(oids: seq<Oid>): set<Oid> {
    set oid | oid in oids
  }

  /** Counting keys decides whether every requested object was answered. */
  lemma CountDecides(kind: Kind, expected: seq<Oid>, items: seq<Item>, l: Limits, decoded: map<Oid, Value>)
    requires Sound(kind, expected, items, l) && Decodes(decoded, items)
    ensures |decoded| == |AsSet(expected)| <==> Covers(expected, items)
    ensures Covers(expected, items) ==> forall oid :: oid in decoded <==> oid in expected
  {
    hide ReplyBytes;
    var wanted := AsSet(expected);
    SameSize(decoded, wanted);
    if decoded.Keys == wanted {
      forall oid | oid in expected ensures exists i :: 0 <= i < |items| && items[i].oid == oid {
        assert oid in wanted && oid in decoded;
      }
    }
    if Covers(expected, items) {
      forall oid | oid in expected ensures oid in decoded {
        var i :| 0 <= i < |items| && items[i].oid == oid;
        assert items[i].oid in decoded;
      }
      assert decoded.Keys == wanted;
    }
  }

  /** `request_results`: accepts exactly the sound, complete, affordable and verified replies. */
  method RequestResults(kind: Kind, expected: seq<Oid>, items: seq<Item>, l: Limits, verify: (Oid, seq<byte>) -> bool)
    returns (r: Result<map<Oid, Value>, ReplyError>)
    ensures r.Ok? <==>
      && Sound(kind, expected, items, l) && Covers(expected, items) && Verified(verify, items)
      && SaturatingAdd(l.providerSpent, CountedBytes(items)) <= l.maxProviderBytes
    ensures r.Ok? ==> Decodes(r.value, items) && forall oid :: oid in r.value <==> oid in expected
  {
    hide ReplyBytes, Sound, Covers, Decodes;
    var decoded := DecodeItems(kind, expected, items, l);
    if decoded.Err? { return Err(decoded.error); }
    var (results, replyBytes) := decoded.value;
    CeilingsHold(kind, expected, items, l);
    CountDecides(kind, expected, items, l, results);
    var expectedSet := AsSet(expected);
    if |results| != |expectedSet| { return Err(ProtocolError); }
    if SaturatingAdd(l.providerSpent, replyBytes) > l.maxProviderBytes { return Err(BudgetExceeded); }
    for n := 0 to |items|
      invariant forall i :: 0 <= i < n && items[i].value.ObjectValue? ==> verify(items[i].oid, items[i].value.data)
    {
      if items[n].value.ObjectValue? && !verify(items[n].oid, items[n].value.data) { return Err(HashMismatch); }
    }
    return Ok(results);
  }

  lemma BytesSnoc(items: seq<Item>, n: nat)
    requires n < |items|
    ensures ReplyBytes(items[..n + 1]) == ReplyBytes(items[..n]) + PayloadBytes(items[n].value)
  {
    assert items[..n + 1][..n] == items[..n];
  }
}
