/** Pages of a replayed sequence: the algebra behind every cursor-resumed query. */
module Paging {
  import opened Basics

  /** One page: its items, and the last item's position in the query when more follow. */
  datatype Page<T> = Page(items: seq<T>, truncated: bool)

  /** The page a query of `limit` items answers when `left` items remain. */
  function PageOf<T>(left: seq<T>, limit: nat): Page<T> {
    if |left| > limit then Page(left[..limit], true) else Page(left, false)
  }

  /** The pages of a query resumed after every truncated page, with the given limits. */
  function Pages<T>(left: seq<T>, limits: seq<nat>): seq<seq<T>>
    decreases |limits|
  {
    if limits == [] then []
    else
      var page := PageOf(left, limits[0]);
      if page.truncated then [page.items] + Pages(left[limits[0]..], limits[1..]) else [page.items]
  }

  function Flatten<T>(pages: seq<seq<T>>): seq<T> {
    if pages == [] then [] else pages[0] + Flatten(pages[1..])
  }

  function Total(limits: seq<nat>): nat {
    if limits == [] then 0 else limits[0] + Total(limits[1..])
  }

  lemma PagesUnfold<T>(left: seq<T>, limits: seq<nat>)
    requires limits != []
    ensures Total(limits) == limits[0] + Total(limits[1..])
    ensures |left| > limits[0] ==>
      Pages(left, limits) == [left[..limits[0]]] + Pages(left[limits[0]..], limits[1..])
    ensures |left| <= limits[0] ==> Pages(left, limits) == [left]
  {
  }

  lemma FlattenCons<T>(page: seq<T>, pages: seq<seq<T>>)
    ensures Flatten([page] + pages) == page + Flatten(pages)
  {
    assert ([page] + pages)[1..] == pages;
  }

  lemma SlicesJoin<T>(left: seq<T>, n: nat, k: nat)
    requires n + k <= |left|
    ensures left[..n] + left[n..][..k] == left[..n + k]
  {
  }

  /** Concatenated pages are the first items of the unpaged result, and with enough pages all of them. */
  lemma {:induction false} PagesFlatten<T>(left: seq<T>, limits: seq<nat>)
    requires forall i :: 0 <= i < |limits| ==> limits[i] > 0
    ensures Flatten(Pages(left, limits)) == left[..Min(Total(limits), |left|)]
    ensures |limits| > |left| ==> Flatten(Pages(left, limits)) == left
    ensures left != [] ==> forall i :: 0 <= i < |Pages(left, limits)| ==> Pages(left, limits)[i] != []
    decreases |limits|
  {
    if limits == [] {
      assert Pages(left, limits) == [] && Flatten<T>([]) == [];
    } else {
      hide Pages, Flatten, Total;
      var n, rest := limits[0], limits[1..];
      PagesUnfold(left, limits);
      if |left| > n {
        PagesFlatten(left[n..], rest);
        FlattenCons(left[..n], Pages(left[n..], rest));
        SlicesJoin(left, n, Min(Total(rest), |left| - n));
        SlicesJoin(left, n, |left| - n);
      } else {
        FlattenCons(left, []);
        NoPages<T>();
      }
    }
  }

  lemma NoPages<T>()
    ensures Flatten<T>([]) == []
  {
  }
}
