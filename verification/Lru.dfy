/** The slab-backed weighted LRU cache (crates/gitility-core/src/lru.rs). */
module Lru {
  import opened Basics
  import opened Recency

  datatype Node<K, V> = Node(key: K, value: V, weight: u64, previous: Option<nat>, next: Option<nat>) {
    function Contents(): Entry<K, V> { Entry(key, value, weight) }
  }

  type Slab<K, V> = seq<Option<Node<K, V>>>

  predicate Occupied<K, V>(nodes: Slab<K, V>, i: nat) {
    i < |nodes| && nodes[i].Some?
  }

  predicate LinkOk<K, V>(nodes: Slab<K, V>, link: Option<nat>) {
    link.Some? ==> Occupied(nodes, link.value)
  }

  // ----- the representation invariant, on values

  ghost function Before(order: seq<nat>, i: nat): Option<nat>
    requires i < |order|
  {
    if i == 0 then None else Some(order[i - 1])
  }

  ghost function After(order: seq<nat>, i: nat): Option<nat>
    requires i < |order|
  {
    if i + 1 == |order| then None else Some(order[i + 1])
  }

  ghost function First(order: seq<nat>): Option<nat> {
    if order == [] then None else Some(order[0])
  }

  ghost function Last(order: seq<nat>): Option<nat> {
    if order == [] then None else Some(order[|order| - 1])
  }

  /** The links thread exactly the slots of `order`, in that order. */
  ghost predicate Chain<K, V>(nodes: Slab<K, V>, order: seq<nat>) {
    && Distinct(order)
    && (forall i :: 0 <= i < |order| ==> Occupied(nodes, order[i]))
    && (forall i :: 0 <= i < |order| ==> nodes[order[i]].value.previous == Before(order, i))
    && (forall i :: 0 <= i < |order| ==> nodes[order[i]].value.next == After(order, i))
  }

  /** Occupied slots are the chained ones; empty slots are the free ones, listed once. */
  ghost predicate Slots<K, V>(nodes: Slab<K, V>, order: seq<nat>, free: seq<nat>) {
    && Distinct(free)
    && (forall i :: 0 <= i < |nodes| && nodes[i].Some? ==> i in order)
    && (forall i :: 0 <= i < |nodes| && nodes[i].None? ==> i in free)
    && (forall i :: i in free ==> i < |nodes| && nodes[i].None?)
  }

  /** The index map is a bijection between keys and occupied slots. */
  ghost predicate Indexed<K, V>(indices: map<K, nat>, nodes: Slab<K, V>) {
    && (forall k :: k in indices ==> Occupied(nodes, indices[k]) && nodes[indices[k]].value.key == k)
    && (forall i :: 0 <= i < |nodes| && nodes[i].Some? ==>
          nodes[i].value.key in indices && indices[nodes[i].value.key] == i)
  }

  ghost function Contents<K, V>(nodes: Slab<K, V>, order: seq<nat>): (r: seq<Entry<K, V>>)
    requires forall i :: 0 <= i < |order| ==> Occupied(nodes, order[i])
    ensures |r| == |order|
  {
    seq(|order|, i requires 0 <= i < |order| && Occupied(nodes, order[i]) => nodes[order[i]].value.Contents())
  }

  // ----- link surgery

  function SetNext<K, V>(nodes: Slab<K, V>, i: nat, link: Option<nat>): (r: Slab<K, V>)
    requires Occupied(nodes, i)
  {
    nodes[i := Some(nodes[i].value.(next := link))]
  }

  function SetPrevious<K, V>(nodes: Slab<K, V>, i: nat, link: Option<nat>): (r: Slab<K, V>)
    requires Occupied(nodes, i)
  {
    nodes[i := Some(nodes[i].value.(previous := link))]
  }

  /** Only links differ, and only outside slot `except`. */
  ghost predicate SameContents<K, V>(a: Slab<K, V>, b: Slab<K, V>, except: nat) {
    && |a| == |b|
    && forall i :: 0 <= i < |a| && i != except ==>
         (a[i].Some? <==> b[i].Some?) && (a[i].Some? ==> a[i].value.Contents() == b[i].value.Contents())
  }

  /** Point the neighbours of a removed link pair at each other. */
  function Joined<K, V>(nodes: Slab<K, V>, previous: Option<nat>, next: Option<nat>): Slab<K, V>
    requires LinkOk(nodes, previous) && LinkOk(nodes, next)
  {
    var n1 := if previous.Some? then SetNext(nodes, previous.value, next) else nodes;
    if next.Some? then SetPrevious(n1, next.value, previous) else n1
  }

  /** What joining the neighbours of position `p` does to another chained slot. */
  lemma JoinedAt<K, V>(nodes: Slab<K, V>, order: seq<nat>, p: nat, slot: Option<Node<K, V>>, q: nat)
    requires p < |order| && q < |order| && p != q && Chain(nodes, order)
    ensures
      var x := nodes[order[p] := slot];
      && LinkOk(x, Before(order, p)) && LinkOk(x, After(order, p))
      && var j := Joined(x, Before(order, p), After(order, p));
      && Occupied(j, order[q])
      && j[order[q]].value.previous == (if q == p + 1 then Before(order, p) else Before(order, q))
      && j[order[q]].value.next == (if q + 1 == p then After(order, p) else After(order, q))
  {
    hide Chain, Joined;
    JoinedLinksOk(nodes, order, p, slot);
    LinksAt(nodes, order, p);
    LinksAt(nodes, order, q);
    Apart(nodes, order, p, q);
    var x := nodes[order[p] := slot];
    JoinedSlot(x, Before(order, p), After(order, p), order[q]);
    if p > 0 { Apart(nodes, order, p - 1, q); }
    if p + 1 < |order| { Apart(nodes, order, p + 1, q); }
  }

  lemma Apart<K, V>(nodes: Slab<K, V>, order: seq<nat>, p: nat, q: nat)
    requires Chain(nodes, order) && p < |order| && q < |order|
    ensures order[p] == order[q] <==> p == q
  {
  }

  /** What joining two neighbours does to one slot. */
  lemma JoinedSlot<K, V>(x: Slab<K, V>, previous: Option<nat>, next: Option<nat>, o: nat)
    requires LinkOk(x, previous) && LinkOk(x, next) && Occupied(x, o)
    ensures
      var j := Joined(x, previous, next);
      && Occupied(j, o)
      && j[o].value.previous == (if next == Some(o) then previous else x[o].value.previous)
      && j[o].value.next == (if previous == Some(o) then next else x[o].value.next)
  {
  }

  lemma JoinedLinksOk<K, V>(nodes: Slab<K, V>, order: seq<nat>, p: nat, slot: Option<Node<K, V>>)
    requires p < |order| && Chain(nodes, order)
    ensures LinkOk(nodes[order[p] := slot], Before(order, p)) && LinkOk(nodes[order[p] := slot], After(order, p))
  {
  }

  lemma JoinedSame<K, V>(nodes: Slab<K, V>, x: Slab<K, V>, previous: Option<nat>, next: Option<nat>, index: nat)
    requires SameContents(nodes, x, index) && LinkOk(x, previous) && LinkOk(x, next)
    requires previous != Some(index) && next != Some(index) && index < |x|
    ensures SameContents(nodes, Joined(x, previous, next), index) && Joined(x, previous, next)[index] == x[index]
  {
  }

  /** Joining the neighbours of position `p` leaves the chain without it, whatever slot `order[p]` holds. */
  lemma JoinedChain<K, V>(nodes: Slab<K, V>, order: seq<nat>, p: nat, slot: Option<Node<K, V>>)
    requires p < |order| && Chain(nodes, order)
    ensures
      var x := nodes[order[p] := slot];
      && LinkOk(x, Before(order, p)) && LinkOk(x, After(order, p))
      && var j := Joined(x, Before(order, p), After(order, p));
      && Chain(j, DropAt(order, p)) && SameContents(nodes, j, order[p]) && j[order[p]] == slot
      && order[p] !in DropAt(order, p)
  {
    hide Joined, LinkOk, Chain;
    NeighboursDiffer(nodes, order, p);
    var x := nodes[order[p] := slot];
    JoinedLinksOk(nodes, order, p, slot);
    var j := Joined(x, Before(order, p), After(order, p));
    JoinedSame(nodes, x, Before(order, p), After(order, p), order[p]);
    forall q | 0 <= q < |order| && q != p ensures Skips(j, order, p, q) {
      JoinedAt(nodes, order, p, slot, q);
    }
    SkippedChain(j, order, p);
  }

  lemma NeighboursDiffer<K, V>(nodes: Slab<K, V>, order: seq<nat>, p: nat)
    requires p < |order| && Chain(nodes, order)
    ensures Distinct(order) && order[p] < |nodes|
    ensures Before(order, p) != Some(order[p]) && After(order, p) != Some(order[p])
  {
  }

  /** The slot at position `q` is linked as if position `p` were not there. */
  ghost predicate Skips<K, V>(j: Slab<K, V>, order: seq<nat>, p: nat, q: nat)
    requires p < |order| && q < |order|
  {
    && Occupied(j, order[q])
    && j[order[q]].value.previous == (if q == p + 1 then Before(order, p) else Before(order, q))
    && j[order[q]].value.next == (if q + 1 == p then After(order, p) else After(order, q))
  }

  lemma SkippedChain<K, V>(j: Slab<K, V>, order: seq<nat>, p: nat)
    requires p < |order| && Distinct(order)
    requires forall q :: 0 <= q < |order| && q != p ==> Skips(j, order, p, q)
    ensures Chain(j, DropAt(order, p)) && order[p] !in DropAt(order, p)
  {
    var rest := DropAt(order, p);
    assert forall i :: 0 <= i < |rest| ==> rest[i] == if i < p then order[i] else order[i + 1];
    forall i | 0 <= i < |rest|
      ensures Occupied(j, rest[i]) && j[rest[i]].value.previous == Before(rest, i) && j[rest[i]].value.next == After(rest, i)
    {
      assert Skips(j, order, p, if i < p then i else i + 1);
    }
  }

  lemma AppendedAt<K, V>(nodes: Slab<K, V>, order: seq<nat>, index: nat, node: Node<K, V>, i: nat)
    requires Chain(nodes, order) && index < |nodes| && index !in order && i < |order|
    ensures
      var j := SetNext(nodes[index := Some(node)], order[|order| - 1], Some(index));
      && Occupied(j, order[i]) && j[order[i]].value.previous == Before(order, i)
      && j[order[i]].value.next == (if i + 1 == |order| then Some(index) else After(order, i))
  {
    hide Chain;
    assert order[|order| - 1] in order && order[i] in order;
    LinksAt(nodes, order, |order| - 1);
    LinksAt(nodes, order, i);
    Apart(nodes, order, i, |order| - 1);
  }

  /** Appending a fresh slot after the last one extends the chain. */
  lemma AppendedChain<K, V>(nodes: Slab<K, V>, order: seq<nat>, index: nat, node: Node<K, V>)
    requires Chain(nodes, order) && index < |nodes| && index !in order
    requires node.previous == Last(order) && node.next == None
    ensures
      var x := nodes[index := Some(node)];
      && LinkOk(x, Last(order))
      && var j := if order == [] then x else SetNext(x, order[|order| - 1], Some(index));
      && Chain(j, order + [index]) && SameContents(nodes, j, index)
      && Occupied(j, index) && j[index].value.Contents() == node.Contents()
  {
    hide SetNext;
    var x := nodes[index := Some(node)];
    if order == [] {
      assert order + [index] == [index];
    } else {
      var last := order[|order| - 1];
      assert last in order;
      AppendedLast(x, last, index);
      AppendedLinks(nodes, order, index, node);
    }
  }

  /** Behind a last slot, the new one closes the chain. */
  lemma AppendedLinks<K, V>(nodes: Slab<K, V>, order: seq<nat>, index: nat, node: Node<K, V>)
    requires Chain(nodes, order) && index < |nodes| && index !in order && order != []
    requires node.previous == Last(order) && node.next == None
    ensures
      var x := nodes[index := Some(node)];
      && Occupied(x, order[|order| - 1])
      && Chain(SetNext(x, order[|order| - 1], Some(index)), order + [index])
  {
    hide SetNext;
    var x, last, all := nodes[index := Some(node)], order[|order| - 1], order + [index];
    assert last in order;
    AppendedLast(x, last, index);
    DistinctSnoc(order, index);
    var j := SetNext(x, last, Some(index));
    forall i | 0 <= i < |all|
      ensures Occupied(j, all[i]) && j[all[i]].value.previous == Before(all, i) && j[all[i]].value.next == After(all, i)
    {
      if i < |order| {
        AppendedAt(nodes, order, index, node, i);
      }
    }
  }

  lemma AppendedLast<K, V>(x: Slab<K, V>, last: nat, index: nat)
    requires Occupied(x, last) && Occupied(x, index) && last != index
    ensures
      var j := SetNext(x, last, Some(index));
      && |j| == |x| && j[index] == x[index]
      && forall i :: 0 <= i < |x| ==> (x[i].Some? <==> j[i].Some?) && (x[i].Some? ==> x[i].value.Contents() == j[i].value.Contents())
  {
  }

  lemma ContentsOfRest<K, V>(a: Slab<K, V>, b: Slab<K, V>, order: seq<nat>, p: nat)
    requires p < |order| && Chain(a, order) && Chain(b, DropAt(order, p)) && SameContents(a, b, order[p])
    ensures Contents(b, DropAt(order, p)) == DropAt(Contents(a, order), p)
  {
    var rest := DropAt(order, p);
    forall i | 0 <= i < |rest| ensures Contents(b, rest)[i] == DropAt(Contents(a, order), p)[i] {
      var q := if i < p then i else i + 1;
      assert rest[i] == order[q] && order[q] != order[p];
    }
  }

  lemma ContentsOfAppend<K, V>(a: Slab<K, V>, b: Slab<K, V>, order: seq<nat>, index: nat)
    requires Chain(a, order) && Chain(b, order + [index]) && SameContents(a, b, index)
    requires index !in order && Occupied(b, index)
    ensures Contents(b, order + [index]) == Contents(a, order) + [b[index].value.Contents()]
  {
    var all := order + [index];
    forall i | 0 <= i < |order| ensures Contents(b, all)[i] == Contents(a, order)[i] {
      assert all[i] == order[i] && order[i] in order;
    }
  }

  /** Unique slots and keys: the abstract position of a key is its slot's place in the chain. */
  lemma PositionOfSlot<K, V>(indices: map<K, nat>, nodes: Slab<K, V>, order: seq<nat>, p: nat)
    requires Chain(nodes, order) && Indexed(indices, nodes) && p < |order|
    ensures Position(Contents(nodes, order), nodes[order[p]].value.key) == p
  {
    var all := Contents(nodes, order);
    var key := nodes[order[p]].value.key;
    var q := Position(all, key);
    assert all[p].key == key;
    assert q <= p;
    assert nodes[order[q]].value.key == key;
    assert indices[key] == order[q] == order[p];
  }

  lemma AbsentKey<K, V>(indices: map<K, nat>, nodes: Slab<K, V>, order: seq<nat>, key: K)
    requires Chain(nodes, order) && Indexed(indices, nodes) && key !in indices
    ensures Position(Contents(nodes, order), key) == |order|
  {
    var all := Contents(nodes, order);
    forall i | 0 <= i < |all| ensures all[i].key != key {
      assert Occupied(nodes, order[i]);
    }
  }

  // ----- bookkeeping lemmas for the index map and the free list

  lemma KeptByDrop(order: seq<nat>, p: nat, i: nat)
    requires p < |order| && i in order && i != order[p]
    ensures i in DropAt(order, p)
  {
    var q :| 0 <= q < |order| && order[q] == i;
    assert DropAt(order, p)[if q < p then q else q - 1] == i;
  }

  lemma SlotsAfterRemoval<K, V>(a: Slab<K, V>, b: Slab<K, V>, order: seq<nat>, p: nat, free: seq<nat>)
    requires p < |order| && Occupied(a, order[p]) && Slots(a, order, free)
    requires SameContents(a, b, order[p]) && b[order[p]].None?
    ensures Slots(b, DropAt(order, p), free + [order[p]])
  {
    hide Distinct, DropAt;
    var index, more := order[p], free + [order[p]];
    forall i | 0 <= i < |b| && b[i].Some? ensures i in DropAt(order, p) {
      KeptByDrop(order, p, i);
    }
    assert forall i :: i in more <==> i in free || i == index;
    DistinctSnoc(free, index);
  }

  lemma IndexedAfterRemoval<K, V>(indices: map<K, nat>, a: Slab<K, V>, b: Slab<K, V>, index: nat)
    requires Indexed(indices, a) && Occupied(a, index) && SameContents(a, b, index) && b[index].None?
    ensures Indexed(indices - {a[index].value.key}, b)
  {
    var key := a[index].value.key;
    var rest := indices - {key};
    forall k | k in rest ensures Occupied(b, rest[k]) && b[rest[k]].value.key == k {
      assert Occupied(a, indices[k]) && indices[k] != index;
    }
    forall i | 0 <= i < |b| && b[i].Some? ensures b[i].value.key in rest && rest[b[i].value.key] == i {
      assert a[i].Some? && a[i].value.Contents() == b[i].value.Contents();
      assert indices[a[i].value.key] == i;
    }
  }

  lemma SlotsAfterInsertion<K, V>(a: Slab<K, V>, b: Slab<K, V>, order: seq<nat>, free: seq<nat>)
    requires free != [] && Slots(a, order, free)
    requires SameContents(a, b, free[|free| - 1]) && Occupied(b, free[|free| - 1])
    ensures Slots(b, order + [free[|free| - 1]], free[..|free| - 1])
  {
    var n := |free| - 1;
    forall i | 0 <= i < |b| && b[i].None? ensures i in free[..n] {
      var q :| 0 <= q < |free| && free[q] == i;
      assert free[..n][q] == i;
    }
    forall i | i in free[..n] ensures i < |b| && b[i].None? {
      assert i in free;
    }
  }

  lemma IndexedAfterInsertion<K, V>(indices: map<K, nat>, a: Slab<K, V>, b: Slab<K, V>, index: nat, key: K)
    requires Indexed(indices, a) && key !in indices && index < |a| && a[index].None?
    requires SameContents(a, b, index) && Occupied(b, index) && b[index].value.key == key
    ensures Indexed(indices[key := index], b)
  {
    var more := indices[key := index];
    forall i | 0 <= i < |b| && b[i].Some? ensures b[i].value.key in more && more[b[i].value.key] == i {
      if i != index {
        assert a[i].Some? && a[i].value.Contents() == b[i].value.Contents();
        assert a[i].value.key in indices;
      }
    }
  }

  lemma IndexedAfterTouch<K, V>(indices: map<K, nat>, a: Slab<K, V>, b: Slab<K, V>)
    requires Indexed(indices, a) && |a| == |b|
    requires forall i :: 0 <= i < |a| ==>
      (a[i].Some? <==> b[i].Some?) && (a[i].Some? ==> a[i].value.Contents() == b[i].value.Contents())
    ensures Indexed(indices, b)
  {
    forall i | 0 <= i < |b| && b[i].Some? ensures b[i].value.key in indices && indices[b[i].value.key] == i {
      assert a[i].Some? && a[i].value.Contents() == b[i].value.Contents();
    }
    forall k | k in indices ensures Occupied(b, indices[k]) && b[indices[k]].value.key == k {
      assert Occupied(a, indices[k]);
      assert a[indices[k]].value.Contents() == b[indices[k]].value.Contents();
    }
  }

  lemma SlotsAfterTouch<K, V>(a: Slab<K, V>, b: Slab<K, V>, order: seq<nat>, p: nat, free: seq<nat>)
    requires p < |order| && Slots(a, order, free) && |a| == |b|
    requires forall i :: 0 <= i < |a| ==> (a[i].Some? <==> b[i].Some?)
    ensures Slots(b, DropAt(order, p) + [order[p]], free)
  {
    var moved := DropAt(order, p) + [order[p]];
    forall i | 0 <= i < |b| && b[i].Some? ensures i in moved {
      var q :| 0 <= q < |order| && order[q] == i;
      assert moved[if q < p then q else if q == p then |order| - 1 else q - 1] == i;
    }
  }

  /** The whole representation invariant. */
  ghost predicate Rep<K, V>(nodes: Slab<K, V>, order: seq<nat>, free: seq<nat>, indices: map<K, nat>,
                            least: Option<nat>, most: Option<nat>) {
    && Chain(nodes, order) && Slots(nodes, order, free) && Indexed(indices, nodes)
    && least == First(order) && most == Last(order)
  }

  lemma PlaceOf<K, V>(nodes: Slab<K, V>, order: seq<nat>, free: seq<nat>, indices: map<K, nat>,
                      least: Option<nat>, most: Option<nat>, index: nat) returns (p: nat)
    requires Rep(nodes, order, free, indices, least, most) && Occupied(nodes, index)
    ensures p < |order| && order[p] == index
  {
    p :| 0 <= p < |order| && order[p] == index;
  }

  /** The links around a slot, after that slot was overwritten by `slot`, are safe to follow. */
  lemma RepLinks<K, V>(nodes: Slab<K, V>, order: seq<nat>, free: seq<nat>, indices: map<K, nat>,
                       least: Option<nat>, most: Option<nat>, p: nat, slot: Option<Node<K, V>>)
    requires Rep(nodes, order, free, indices, least, most) && p < |order|
    ensures Occupied(nodes, order[p])
    ensures
      var node, x := nodes[order[p]].value, nodes[order[p] := slot];
      && LinkOk(x, node.previous) && LinkOk(x, node.next)
      && node.previous == Before(order, p) && node.next == After(order, p)
      && node.previous != Some(order[p]) && node.next != Some(order[p])
      && (node.previous.Some? && node.next.Some? ==> node.previous != node.next)
      && (node.next.None? <==> most == Some(order[p]))
  {
    JoinedLinksOk(nodes, order, p, slot);
    NeighboursDiffer(nodes, order, p);
    if p + 1 < |order| {
      assert order[p] != order[|order| - 1];
    }
    if 0 < p && p + 1 < |order| {
      assert order[p - 1] != order[p + 1];
    }
  }

  /** Removing one slot keeps the representation and drops its entry. */
  lemma RepAfterRemoval<K, V>(nodes: Slab<K, V>, order: seq<nat>, free: seq<nat>, indices: map<K, nat>,
                              least: Option<nat>, most: Option<nat>, p: nat)
    requires Rep(nodes, order, free, indices, least, most) && p < |order|
    requires Occupied(nodes, order[p])
    requires
      var node, x := nodes[order[p]].value, nodes[order[p] := None];
      LinkOk(x, node.previous) && LinkOk(x, node.next)
    ensures
      var node, x := nodes[order[p]].value, nodes[order[p] := None];
      var after := Joined(x, node.previous, node.next);
      && Rep(after, DropAt(order, p), free + [order[p]], indices - {node.key},
             if node.previous.None? then node.next else least, if node.next.None? then node.previous else most)
      && Contents(after, DropAt(order, p)) == DropAt(Contents(nodes, order), p)
      && Contents(nodes, order)[p] == node.Contents()
  {
    var node, x := nodes[order[p]].value, nodes[order[p] := None];
    LinksAt(nodes, order, p);
    var after := Joined(x, node.previous, node.next);
    JoinedChain(nodes, order, p, None);
    ContentsOfRest(nodes, after, order, p);
    SlotsAfterRemoval(nodes, after, order, p, free);
    IndexedAfterRemoval(indices, nodes, after, order[p]);
    EndsAfterDrop(order, p);
    hide Chain, Slots, Indexed, Joined;
  }

  /** The slab after moving slot `index` behind the most recent slot `most`. */
  function Moved<K, V>(nodes: Slab<K, V>, index: nat, most: nat): Slab<K, V>
    requires Occupied(nodes, index) && Occupied(nodes, most) && index != most
    requires LinkOk(nodes, nodes[index].value.previous) && LinkOk(nodes, nodes[index].value.next)
  {
    var node := nodes[index].value;
    var n1 := Joined(nodes, node.previous, node.next);
    var n2 := n1[index := Some(n1[index].value.(previous := Some(most), next := None))];
    SetNext(n2, most, Some(index))
  }

  lemma RepAfterTouch<K, V>(nodes: Slab<K, V>, order: seq<nat>, free: seq<nat>, indices: map<K, nat>,
                            least: Option<nat>, most: Option<nat>, p: nat)
    requires Rep(nodes, order, free, indices, least, most) && p < |order| && most != Some(order[p])
    ensures Occupied(nodes, order[p]) && most.Some? && Occupied(nodes, most.value)
    ensures
      var node := nodes[order[p]].value;
      && LinkOk(nodes, node.previous) && LinkOk(nodes, node.next)
      && var after, moved := Moved(nodes, order[p], most.value), DropAt(order, p) + [order[p]];
      && Rep(after, moved, free, indices, if node.previous.None? then node.next else least, Some(order[p]))
      && Contents(after, moved) == DropAt(Contents(nodes, order), p) + [Contents(nodes, order)[p]]
  {
    hide Chain, Slots, Indexed, Contents, Joined, SetNext;
    var index := order[p];
    LinksAt(nodes, order, p);
    assert nodes[index := nodes[index]] == nodes;
    RepLinks(nodes, order, free, indices, least, most, p, nodes[index]);
    LinksAt(nodes, order, |order| - 1);
    var node := nodes[index].value;
    JoinedChain(nodes, order, p, nodes[index]);
    EndsAfterDrop(order, p);
    var rest, j := DropAt(order, p), Joined(nodes, node.previous, node.next);
    ContentsOfRest(nodes, j, order, p);
    var node' := node.(previous := most, next := None);
    AppendedChain(j, rest, index, node');
    var after := Moved(nodes, index, most.value);
    TouchedSame(nodes, j, after, index);
    IndexedAfterTouch(indices, nodes, after);
    SlotsAfterTouch(nodes, after, order, p, free);
    ContentsOfAppend(j, after, rest, index);
    EndsAfterMove(order, p);
    ContentsAt(nodes, order, p);
  }

  lemma ContentsAt<K, V>(nodes: Slab<K, V>, order: seq<nat>, p: nat)
    requires Chain(nodes, order) && p < |order|
    ensures Contents(nodes, order)[p] == nodes[order[p]].value.Contents()
  {
  }

  lemma EndsAfterMove(order: seq<nat>, p: nat)
    requires p + 1 < |order|
    ensures First(DropAt(order, p) + [order[p]]) == if p == 0 then After(order, p) else First(order)
    ensures Last(DropAt(order, p) + [order[p]]) == Some(order[p])
  {
  }

  lemma TouchedSame<K, V>(a: Slab<K, V>, j: Slab<K, V>, b: Slab<K, V>, index: nat)
    requires SameContents(a, j, index) && SameContents(j, b, index)
    requires Occupied(a, index) && Occupied(b, index) && a[index].value.Contents() == b[index].value.Contents()
    ensures |a| == |b|
    ensures forall i :: 0 <= i < |a| ==>
      (a[i].Some? <==> b[i].Some?) && (a[i].Some? ==> a[i].value.Contents() == b[i].value.Contents())
  {
  }

  /** The slab after linking a new node into the empty slot `index`. */
  function Linked<K, V>(nodes: Slab<K, V>, index: nat, node: Node<K, V>): Slab<K, V>
    requires index < |nodes| && LinkOk(nodes, node.previous) && node.previous != Some(index)
  {
    var x := nodes[index := Some(node)];
    if node.previous.Some? then SetNext(x, node.previous.value, Some(index)) else x
  }

  lemma RepAfterInsertion<K, V>(nodes: Slab<K, V>, order: seq<nat>, free: seq<nat>, index: nat, indices: map<K, nat>,
                                least: Option<nat>, most: Option<nat>, node: Node<K, V>)
    requires Rep(nodes, order, free + [index], indices, least, most) && node.key !in indices
    requires node.previous == most && node.next == None
    ensures index < |nodes| && LinkOk(nodes, most) && most != Some(index)
    ensures
      var after := Linked(nodes, index, node);
      && Rep(after, order + [index], free, indices[node.key := index], if most.None? then Some(index) else least, Some(index))
      && Contents(after, order + [index]) == Contents(nodes, order) + [node.Contents()]
  {
    var more := free + [index];
    assert more[|free|] == index && index in more && more[..|free|] == free;
    if order != [] {
      LinksAt(nodes, order, |order| - 1);
    }
    assert index !in order;
    var after := Linked(nodes, index, node);
    AppendedChain(nodes, order, index, node);
    SlotsAfterInsertion(nodes, after, order, more);
    IndexedAfterInsertion(indices, nodes, after, index, node.key);
    ContentsOfAppend(nodes, after, order, index);
    hide Chain, Slots, Indexed, Contents, Linked;
    assert First(order + [index]) == if order == [] then Some(index) else First(order);
  }

  lemma ChainAfterGrowth<K, V>(nodes: Slab<K, V>, order: seq<nat>)
    requires Chain(nodes, order)
    ensures Chain(nodes + [None], order) && Contents(nodes + [None], order) == Contents(nodes, order)
  {
    var more: Slab<K, V> := nodes + [None];
    forall i | 0 <= i < |order| ensures Occupied(more, order[i]) && more[order[i]] == nodes[order[i]] {
      assert Occupied(nodes, order[i]);
    }
  }

  lemma SlotsAfterGrowth<K, V>(nodes: Slab<K, V>, order: seq<nat>)
    requires Slots(nodes, order, [])
    ensures Slots(nodes + [None], order, [|nodes|])
  {
    var more: Slab<K, V> := nodes + [None];
    assert forall i :: 0 <= i < |nodes| ==> nodes[i].Some? && more[i] == nodes[i];
    forall i | 0 <= i < |more| && more[i].Some? ensures i in order {
      assert nodes[i] == more[i];
    }
  }

  lemma IndexedAfterGrowth<K, V>(nodes: Slab<K, V>, indices: map<K, nat>)
    requires Indexed(indices, nodes)
    ensures Indexed(indices, nodes + [None])
  {
    var more: Slab<K, V> := nodes + [None];
    forall k | k in indices ensures Occupied(more, indices[k]) && more[indices[k]].value.key == k {
      assert Occupied(nodes, indices[k]);
    }
    forall i | 0 <= i < |more| && more[i].Some? ensures more[i].value.key in indices && indices[more[i].value.key] == i {
      assert nodes[i] == more[i];
    }
  }

  lemma RepAfterGrowth<K, V>(nodes: Slab<K, V>, order: seq<nat>, indices: map<K, nat>, least: Option<nat>, most: Option<nat>)
    requires Rep(nodes, order, [], indices, least, most)
    ensures Rep(nodes + [None], order, [|nodes|], indices, least, most)
    ensures Contents(nodes + [None], order) == Contents(nodes, order)
  {
    hide Chain, Slots, Indexed, Contents;
    ChainAfterGrowth(nodes, order);
    SlotsAfterGrowth(nodes, order);
    IndexedAfterGrowth(nodes, indices);
  }

  lemma RepCleared<K, V>(nodes: Slab<K, V>, free: seq<nat>)
    requires |free| == |nodes| && forall i :: 0 <= i < |nodes| ==> free[i] == i && nodes[i].None?
    ensures Rep(nodes, [], free, map[], None, None)
  {
    forall i | 0 <= i < |nodes| ensures i in free {
      assert free[i] == i;
    }
  }

  lemma RepLookup<K, V>(nodes: Slab<K, V>, order: seq<nat>, free: seq<nat>, indices: map<K, nat>,
                        least: Option<nat>, most: Option<nat>, key: K)
    requires Rep(nodes, order, free, indices, least, most)
    ensures key in indices <==> Position(Contents(nodes, order), key) < |order|
    ensures key in indices ==>
      && Occupied(nodes, indices[key]) && nodes[indices[key]].value.key == key
      && indices[key] == order[Position(Contents(nodes, order), key)]
      && Contents(nodes, order)[Position(Contents(nodes, order), key)] == nodes[indices[key]].value.Contents()
  {
    if key in indices {
      var p := PlaceOf(nodes, order, free, indices, least, most, indices[key]);
      PositionOfSlot(indices, nodes, order, p);
    } else {
      AbsentKey(indices, nodes, order, key);
    }
  }

  lemma RepDistinct<K, V>(nodes: Slab<K, V>, order: seq<nat>, free: seq<nat>, indices: map<K, nat>,
                          least: Option<nat>, most: Option<nat>)
    requires Rep(nodes, order, free, indices, least, most)
    ensures Distinct(order) && |indices| == |order|
    ensures least == First(order) && (least.Some? ==> Occupied(nodes, least.value))
  {
    assert indices.Values == set i | i in order by {
      forall i | i in order ensures i in indices.Values {
        var q :| 0 <= q < |order| && order[q] == i;
        assert Occupied(nodes, order[q]);
        assert indices[nodes[i].value.key] == i;
      }
      forall i | i in indices.Values ensures i in order {
        var k :| k in indices && indices[k] == i;
        assert Occupied(nodes, i);
      }
    }
    CardinalityOfKeys(indices, nodes, order);
  }

  lemma CardinalityOfKeys<K, V>(indices: map<K, nat>, nodes: Slab<K, V>, order: seq<nat>)
    requires Chain(nodes, order) && Indexed(indices, nodes) && indices.Values == set i | i in order
    ensures |indices| == |order|
  {
    var keys := seq(|order|, i requires 0 <= i < |order| && Occupied(nodes, order[i]) => nodes[order[i]].value.key);
    assert Distinct(keys) by {
      forall i, j | 0 <= i < j < |keys| ensures keys[i] != keys[j] {
        assert indices[keys[i]] == order[i] && indices[keys[j]] == order[j];
      }
    }
    assert indices.Keys == set k | k in keys by {
      forall k | k in indices ensures k in keys {
        assert indices[k] in indices.Values;
        var q :| 0 <= q < |order| && order[q] == indices[k];
        assert keys[q] == k;
      }
      forall k | k in keys ensures k in indices {
        var q :| 0 <= q < |keys| && keys[q] == k;
        assert Occupied(nodes, order[q]);
      }
    }
    DistinctCardinality(keys);
  }

  lemma {:induction false} DistinctCardinality<T>(s: seq<T>)
    requires Distinct(s)
    ensures |set x | x in s| == |s|
  {
    if s != [] {
      var n := |s| - 1;
      DistinctCardinality(s[..n]);
      assert (set x | x in s) == (set x | x in s[..n]) + {s[n]};
      assert s[n] !in s[..n];
    }
  }

  class LruCache<K(==), V> {
    var indices: map<K, nat>
    var nodes: Slab<K, V>
    var free: seq<nat>
    var leastRecent: Option<nat>
    var mostRecent: Option<nat>
    var used: u64
    const capacity: u64
    /** The occupied slots, oldest first. */
    ghost var order: seq<nat>

    ghost predicate Valid()
      reads this
    {
      Rep(nodes, order, free, indices, leastRecent, mostRecent)
    }

    /** The recency sequence this cache stands for. */
    ghost function Abs(): Recency<K, V>
      requires Valid()
      reads this
    {
      Recency(Contents(nodes, order), used, capacity)
    }

    constructor (capacity: u64)
      ensures Valid() && Abs() == Fresh(capacity)
    {
      indices, nodes, free := map[], [], [];
      leastRecent, mostRecent, used := None, None, 0;
      this.capacity := capacity;
      order := [];
    }

    /** `remove_index`: unlinks an occupied slot; an empty or unknown slot is left alone. */
    method RemoveIndex(index: nat) returns (r: Option<Node<K, V>>, ghost p: nat)
      requires Valid()
      modifies this
      ensures Valid()
      ensures r.Some? <==> old(Occupied(nodes, index))
      ensures r.None? ==> Abs() == old(Abs()) && order == old(order) && indices == old(indices)
      ensures r.Some? ==> r == old(nodes[index])
      ensures r.Some? ==> p < |old(order)| && old(order)[p] == index && order == DropAt(old(order), p)
      ensures r.Some? ==> Abs() == WithoutAt(old(Abs()), p) && indices == old(indices) - {r.value.key}
    {
      hide Rep, Contents, Before, After;
      p := 0;
      if !(index < |nodes| && nodes[index].Some?) { return None, p; }
      var node := nodes[index].value;
      p := PlaceOf(nodes, order, free, indices, leastRecent, mostRecent, index);
      RepLinks(nodes, order, free, indices, leastRecent, mostRecent, p, None);
      RepAfterRemoval(nodes, order, free, indices, leastRecent, mostRecent, p);

      nodes := nodes[index := None];
      if node.previous.Some? {
        nodes := SetNext(nodes, node.previous.value, node.next);
      } else {
        leastRecent := node.next;
      }
      if node.next.Some? {
        nodes := SetPrevious(nodes, node.next.value, node.previous);
      } else {
        mostRecent := node.previous;
      }
      indices := indices - {node.key};
      used := SaturatingSub(used, node.weight);
      free := free + [index];
      order := DropAt(order, p);
      r := Some(node);
    }

    /** `touch`: makes the slot at place `p` the most recent one. */
    method Touch(index: nat, ghost p: nat)
      requires Valid() && p < |order| && order[p] == index
      modifies this
      ensures Valid() && indices == old(indices) && Occupied(nodes, index)
      ensures Abs() == old(Abs()).(entries := DropAt(old(Abs()).entries, p) + [old(Abs()).entries[p]])
      ensures nodes[index].value.Contents() == old(Abs()).entries[p]
    {
      hide Rep, Contents, Before, After;
      RepContentsAt(nodes, order, free, indices, leastRecent, mostRecent, p);
      RepLinks(nodes, order, free, indices, leastRecent, mostRecent, p, nodes[index]);
      if mostRecent == Some(index) {
        LastMoves(order, p, Abs().entries);
        RepMostRecent(nodes, order, free, indices, leastRecent, mostRecent, p);
        return;
      }
      RepAfterTouch(nodes, order, free, indices, leastRecent, mostRecent, p);
      var previous, next := nodes[index].value.previous, nodes[index].value.next;
      if previous.Some? {
        nodes := SetNext(nodes, previous.value, next);
      } else {
        leastRecent := next;
      }
      if next.Some? {
        nodes := SetPrevious(nodes, next.value, previous);
      }
      var oldMostRecent := mostRecent;
      nodes := nodes[index := Some(nodes[index].value.(previous := oldMostRecent, next := None))];
      // A cache with a slot that is not the most recent one has a most recent slot.
      nodes := SetNext(nodes, oldMostRecent.value, Some(index));
      mostRecent := Some(index);
      order := DropAt(order, p) + [index];
    }

    /** `get`: the value, promoted to most recent. */
    method Get(key: K) returns (r: Option<V>)
      requires Valid()
      modifies this
      ensures Valid() && r == Lookup(old(Abs()), key) && Abs() == Touched(old(Abs()), key)
    {
      hide Rep, Contents;
      RepLookup(nodes, order, free, indices, leastRecent, mostRecent, key);
      if key !in indices { return None; }
      var index := indices[key];
      Touch(index, Position(Abs().entries, key));
      return Some(nodes[index].value.value);
    }

    /** `insert_counting_evictions`. */
    method InsertCountingEvictions(key: K, value: V, weight: u64) returns (evictions: u64)
      requires Valid()
      modifies this
      ensures Valid()
      ensures Abs() == Inserted(old(Abs()), key, value, weight).0
      ensures evictions == Min(Inserted(old(Abs()), key, value, weight).1, U64_MAX)
    {
      hide Rep, Contents, MadeRoom;
      if key in indices {
        var _ := Remove(key);
      } else {
        RepLookup(nodes, order, free, indices, leastRecent, mostRecent, key);
      }
      evictions := 0;
      if capacity == 0 || weight > capacity { return; }
      evictions := MakeRoom(weight, key);
      AppendNode(key, value, weight);
    }

    /** The eviction loop of insertion. */
    method MakeRoom(weight: u64, ghost key: K) returns (evictions: u64)
      requires Valid() && key !in indices
      modifies this
      ensures Valid() && key !in indices
      ensures Abs() == MadeRoom(old(Abs()), weight).0
      ensures evictions == Min(MadeRoom(old(Abs()), weight).1, U64_MAX)
    {
      hide Rep, Contents;
      evictions := 0;
      ghost var n := 0;
      while SaturatingAdd(used, weight) > capacity
        invariant Valid() && key !in indices && evictions == Min(n, U64_MAX)
        invariant MadeRoom(old(Abs()), weight) == (MadeRoom(Abs(), weight).0, n + MadeRoom(Abs(), weight).1)
        decreases |order|
      {
        RepDistinct(nodes, order, free, indices, leastRecent, mostRecent);
        if leastRecent.None? { break; }
        ghost var before := order;
        var _, p := RemoveIndex(leastRecent.value);
        assert before[0] == before[p];
        assert p == 0;
        evictions := SaturatingAdd(evictions, 1);
        n := n + 1;
      }
      RepDistinct(nodes, order, free, indices, leastRecent, mostRecent);
    }

    /** The tail of insertion: take a free slot, or grow, and link the new node in as most recent. */
    method AppendNode(key: K, value: V, weight: u64)
      requires Valid() && key !in indices
      modifies this
      ensures Valid()
      ensures Abs() == old(Abs()).(entries := old(Abs()).entries + [Entry(key, value, weight)],
                                   used := SaturatingAdd(old(used), weight))
    {
      hide Rep, Contents;
      var index: nat;
      if free != [] {
        index, free := free[|free| - 1], free[..|free| - 1];
        assert old(free) == free + [index];
      } else {
        RepAfterGrowth(nodes, order, indices, leastRecent, mostRecent);
        nodes := nodes + [None];
        index := |nodes| - 1;
        assert free + [index] == [index];
      }
      var node := Node(key, value, weight, mostRecent, None);
      RepAfterInsertion(nodes, order, free, index, indices, leastRecent, mostRecent, node);
      nodes := nodes[index := Some(node)];
      if mostRecent.Some? {
        nodes := SetNext(nodes, mostRecent.value, Some(index));
      } else {
        leastRecent := Some(index);
      }
      mostRecent := Some(index);
      used := SaturatingAdd(used, weight);
      indices := indices[key := index];
      order := order + [index];
    }

    /** `pop_lru`: evicts and returns the oldest entry. */
    method PopLru() returns (r: Option<(K, V)>)
      requires Valid()
      modifies this
      ensures Valid() && Abs() == Popped(old(Abs()))
      ensures
        var entries := old(Abs()).entries;
        r == if entries == [] then None else Some((entries[0].key, entries[0].value))
    {
      hide Rep, Contents;
      RepDistinct(nodes, order, free, indices, leastRecent, mostRecent);
      if leastRecent.None? { return None; }
      RepContentsAt(nodes, order, free, indices, leastRecent, mostRecent, 0);
      var node, p := RemoveIndex(leastRecent.value);
      assert old(order)[0] == old(order)[p];
      assert p == 0;
      return Some((node.value.key, node.value.value));
    }

    method Remove(key: K) returns (r: Option<V>)
      requires Valid()
      modifies this
      ensures Valid() && r == Lookup(old(Abs()), key) && Abs() == Removed(old(Abs()), key)
      ensures indices == old(indices) - {key}
    {
      hide Rep, Contents;
      RepLookup(nodes, order, free, indices, leastRecent, mostRecent, key);
      if key !in indices { return None; }
      var node, p := RemoveIndex(indices[key]);
      RepPlace(old(nodes), old(order), old(free), old(indices), old(leastRecent), old(mostRecent), p,
               Position(old(Abs()).entries, key));
      return Some(node.value.value);
    }

    /** `clear`: empties every slot and frees them all in index order. */
    method Clear()
      requires Valid()
      modifies this
      ensures Valid() && Abs() == Cleared(old(Abs()))
    {
      hide Rep, Contents;
      indices, free := map[], [];
      var i := 0;
      while i < |nodes|
        invariant 0 <= i <= |nodes| && |nodes| == |old(nodes)| && indices == map[]
        invariant |free| == i && forall j :: 0 <= j < i ==> free[j] == j && nodes[j].None?
      {
        nodes := nodes[i := None];
        free := free + [i];
        i := i + 1;
      }
      RepCleared(nodes, free);
      leastRecent, mostRecent, used, order := None, None, 0, [];
    }

    method Len() returns (n: nat)
      requires Valid()
      ensures n == |Abs().entries|
    {
      RepDistinct(nodes, order, free, indices, leastRecent, mostRecent);
      n := |indices|;
    }
  }

  lemma RepContentsAt<K, V>(nodes: Slab<K, V>, order: seq<nat>, free: seq<nat>, indices: map<K, nat>,
                            least: Option<nat>, most: Option<nat>, p: nat)
    requires Rep(nodes, order, free, indices, least, most) && p < |order|
    ensures Occupied(nodes, order[p]) && Contents(nodes, order)[p] == nodes[order[p]].value.Contents()
  {
  }

  lemma RepPlace<K, V>(nodes: Slab<K, V>, order: seq<nat>, free: seq<nat>, indices: map<K, nat>,
                       least: Option<nat>, most: Option<nat>, p: nat, q: nat)
    requires Rep(nodes, order, free, indices, least, most) && p < |order| && q < |order| && order[p] == order[q]
    ensures p == q
  {
  }

  lemma RepMostRecent<K, V>(nodes: Slab<K, V>, order: seq<nat>, free: seq<nat>, indices: map<K, nat>,
                            least: Option<nat>, most: Option<nat>, p: nat)
    requires Rep(nodes, order, free, indices, least, most) && p < |order| && most == Some(order[p])
    ensures p == |order| - 1
  {
  }

  lemma LastMoves<T>(order: seq<nat>, p: nat, s: seq<T>)
    requires |s| == |order| && p < |order|
    ensures p == |order| - 1 ==> DropAt(s, p) + [s[p]] == s
  {
  }

  lemma LinksAt<K, V>(nodes: Slab<K, V>, order: seq<nat>, p: nat)
    requires Chain(nodes, order) && p < |order|
    ensures Occupied(nodes, order[p])
    ensures nodes[order[p]].value.previous == Before(order, p) && nodes[order[p]].value.next == After(order, p)
  {
  }

  lemma EndsAfterDrop(order: seq<nat>, p: nat)
    requires p < |order|
    ensures First(DropAt(order, p)) == if p == 0 then After(order, p) else First(order)
    ensures Last(DropAt(order, p)) == if p + 1 == |order| then Before(order, p) else Last(order)
  {
  }
}
