/**
 * Resolving every collection of the configuration, one after another, as
 * the run does before any download: each collection is resolved on its own
 * against the whole catalog, and the run goes on only when all of them
 * resolved completely.
 */
module References {
  import opened Wrappers
  import opened Catalog
  import opened Resolution

  /** The entries of each collection, in order. */
  function EntriesOf(cs: seq<Collection>): (r: seq<seq<CollectionEntry>>)
    reads cs
    ensures |r| == |cs|
    ensures forall i :: 0 <= i < |cs| ==> r[i] == cs[i].entries
  {
    if cs == [] then [] else EntriesOf(cs[..|cs| - 1]) + [cs[|cs| - 1].entries]
  }

  /** The groups one after another. */
  function Concat(gs: seq<seq<CollectionEntry>>): seq<CollectionEntry>
  {
    if gs == [] then [] else Concat(gs[..|gs| - 1]) + gs[|gs| - 1]
  }

  /** The entries of every collection, one collection after another. */
  function AllEntries(cs: seq<Collection>): seq<CollectionEntry>
    reads cs
  {
    Concat(EntriesOf(cs))
  }

  lemma ConcatAt(gs: seq<seq<CollectionEntry>>, i: nat)
    requires i < |gs|
    ensures Concat(gs[..i + 1]) == Concat(gs[..i]) + gs[i]
  {
    assert gs[..i + 1][..i] == gs[..i];
  }

  /** The groups before position n come first. */
  lemma {:induction false} ConcatPrefix(gs: seq<seq<CollectionEntry>>, n: nat)
    requires n <= |gs|
    ensures |Concat(gs[..n])| <= |Concat(gs)|
    ensures forall k :: 0 <= k < |Concat(gs[..n])| ==> Concat(gs)[k] == Concat(gs[..n])[k]
    decreases |gs| - n
  {
    if n < |gs| {
      ConcatPrefix(gs, n + 1);
      ConcatAt(gs, n);
    } else {
      assert gs[..n] == gs;
    }
  }

  /** Element k of group i stands after the groups before it. */
  lemma ConcatIndex(gs: seq<seq<CollectionEntry>>, i: nat, k: nat)
    requires i < |gs| && k < |gs[i]|
    ensures |Concat(gs[..i])| + k < |Concat(gs)|
    ensures Concat(gs)[|Concat(gs[..i])| + k] == gs[i][k]
  {
    ConcatAt(gs, i);
    ConcatPrefix(gs, i + 1);
    assert Concat(gs[..i + 1])[|Concat(gs[..i])| + k] == gs[i][k];
  }

  /** Group i lies within the concatenation, at its offset. */
  lemma ConcatGroup(gs: seq<seq<CollectionEntry>>, i: nat)
    requires i < |gs|
    ensures Concat(gs[..i + 1]) == Concat(gs[..i]) + gs[i]
    ensures |Concat(gs[..i])| + |gs[i]| <= |Concat(gs)|
    ensures forall k :: 0 <= k < |gs[i]| ==> Concat(gs)[|Concat(gs[..i])| + k] == gs[i][k]
  {
    ConcatAt(gs, i);
    ConcatPrefix(gs, i + 1);
    forall k | 0 <= k < |gs[i]| ensures Concat(gs)[|Concat(gs[..i])| + k] == gs[i][k] {
      ConcatIndex(gs, i, k);
    }
  }

  /** The first m = n + |es| entries are the first n followed by es. */
  lemma {:induction false} AmongStep(all: seq<CollectionEntry>, n: nat, es: seq<CollectionEntry>, m: nat)
    requires m == n + |es| <= |all| && forall k :: 0 <= k < |es| ==> all[n + k] == es[k]
    ensures forall e :: Among(e, all, m) <==> Among(e, all, n) || e in es
  {
    if es != [] {
      var last := |es| - 1;
      AmongStep(all, n, es[..last], m - 1);
      assert es == es[..last] + [es[last]];
    }
  }

  /** The entries linked to position j among the first n + |es| are those among the first n, then those of es. */
  lemma {:induction false} ResolvedToStep(ps: seq<Pair>, all: seq<CollectionEntry>, n: nat, es: seq<CollectionEntry>, m: nat, j: nat)
    requires m <= |es| && n + m <= |all| && forall k :: 0 <= k < m ==> all[n + k] == es[k]
    ensures ResolvedTo(ps, all, n + m, j) == ResolvedTo(ps, all, n, j) + ResolvedTo(ps, es, m, j)
  {
    if m > 0 {
      ResolvedToStep(ps, all, n, es, m - 1, j);
    }
  }

  /** The first m = n + |es| entries resolve when the first n do and so do those of es. */
  lemma AllResolveStep(ps: seq<Pair>, all: seq<CollectionEntry>, n: nat, es: seq<CollectionEntry>, m: nat)
    requires m == n + |es| <= |all| && forall k :: 0 <= k < |es| ==> all[n + k] == es[k]
    ensures AllResolve(ps, all, m) <==> AllResolve(ps, all, n) && EveryEntryResolves(ps, es)
  {
    AllResolveMeaning(ps, all, n);
    AllResolveMeaning(ps, all, m);
    if AllResolve(ps, all, n) && EveryEntryResolves(ps, es) {
      forall k | 0 <= k < m ensures Resolve(ps, EntryPair(all[k])).Some? {
        if k >= n {
          assert all[k] == es[k - n];
        }
      }
    }
  }

  /** The lists after a collection: those of the first n entries, then those of the collection's entries. */
  lemma ListsAfterCollection(details: seq<Detail>, pre: seq<seq<CollectionEntry>>, ps: seq<Pair>, all: seq<CollectionEntry>, n: nat,
                             entries: seq<CollectionEntry>, m: nat, lists: seq<seq<CollectionEntry>>)
    requires m == n + |entries| <= |all| && forall k :: 0 <= k < |entries| ==> all[n + k] == entries[k]
    requires |pre| == |details| == |lists|
    requires forall j :: 0 <= j < |details| ==> pre[j] == lists[j] + ResolvedTo(ps, all, n, j)
    requires forall j :: 0 <= j < |details| ==> details[j].collectionEntries == pre[j] + ResolvedTo(ps, entries, |entries|, j)
    ensures ListsDone(details, m, ps, all, lists)
  {
    forall j | 0 <= j < |details|
      ensures details[j].collectionEntries == lists[j] + ResolvedTo(ps, all, m, j)
    {
      ResolvedToStep(ps, all, n, entries, |entries|, j);
    }
    ListsDoneMeaning(details, m, ps, all, lists);
  }

  /**
   * Resolves collection c, whose entries stand at positions n up to m of all:
   * one turn of the loop over the collections. The state covers the first m
   * entries afterwards, and the result is false once any collection failed.
   */
  method ResolveCollection(c: Collection, entries: seq<CollectionEntry>, details: seq<Detail>, success: bool,
                           ghost all: seq<CollectionEntry>, ghost n: nat, ghost m: nat,
                           ghost ps: seq<Pair>, ghost links: seq<Detail?>, ghost lists: seq<seq<CollectionEntry>>)
    returns (success': bool)
    requires entries == c.entries
    requires m == n + |entries| <= |all| && forall k :: 0 <= k < |entries| ==> all[n + k] == entries[k]
    requires DetailPairs(details) == ps
    requires success <==> AllResolve(ps, all, n)
    requires LinksDone(all, n, ps, details, links) && ListsDone(details, n, ps, all, lists)
    modifies entries`detail, details`collectionEntries
    ensures DetailPairs(details) == ps
    ensures success' <==> AllResolve(ps, all, m)
    ensures LinksDone(all, m, ps, details, links) && ListsDone(details, m, ps, all, lists)
  {
    LinksDoneMeaning(all, n, ps, details, links);
    ListsDoneMeaning(details, n, ps, all, lists);
    var ok := ResolveForCollection(c, details);
    assert c.entries == entries;
    success' := success && ok;
    AllResolveStep(ps, all, n, entries, m);
    AmongStep(all, n, entries, m);
    forall k | 0 <= k < |all|
      ensures all[k].detail == if Among(all[k], all, m) then LinkOf(ps, details, all[k], links[k]) else links[k]
    {
      if all[k] in entries {
        var k' :| 0 <= k' < |entries| && entries[k'] == all[k];
        LinkOfTwice(ps, details, all[k], links[k]);
      }
    }
    LinksDoneMeaning(all, m, ps, details, links);
    ghost var pre := old(ListsOf(details));
    ListsAfterCollection(details, pre, ps, all, n, entries, m, lists);
  }

  /**
   * Resolves every collection in turn. A failing collection does not stop the
   * others from being resolved; the result is true only when all succeeded.
   */
  method ResolveAll(collections: seq<Collection>, details: seq<Detail>) returns (success: bool)
    modifies AllEntries(collections)`detail, details`collectionEntries
    ensures success <==> EveryEntryResolves(old(DetailPairs(details)), AllEntries(collections))
    ensures forall k :: 0 <= k < |AllEntries(collections)| ==>
      AllEntries(collections)[k].detail ==
      LinkOf(old(DetailPairs(details)), details, AllEntries(collections)[k], old(LinksOf(AllEntries(collections)))[k])
    ensures forall j :: 0 <= j < |details| ==>
      details[j].collectionEntries ==
      old(details[j].collectionEntries) + ResolvedTo(old(DetailPairs(details)), AllEntries(collections), |AllEntries(collections)|, j)
  {
    ghost var ps := DetailPairs(details);
    ghost var groups := EntriesOf(collections);
    ghost var all := Concat(groups);
    ghost var links := LinksOf(all);
    ghost var lists := ListsOf(details);
    NothingResolved(all, ps, details);
    success := true;
    for i := 0 to |collections|
      invariant |Concat(groups[..i])| <= |all|
      invariant DetailPairs(details) == ps
      invariant success <==> AllResolve(ps, all, |Concat(groups[..i])|)
      invariant LinksDone(all, |Concat(groups[..i])|, ps, details, links)
      invariant ListsDone(details, |Concat(groups[..i])|, ps, all, lists)
    {
      ConcatGroup(groups, i);
      var entries := collections[i].entries;
      assert entries == groups[i];
      success := ResolveCollection(collections[i], entries, details, success, all,
                                   |Concat(groups[..i])|, |Concat(groups[..i + 1])|, ps, links, lists);
    }
    assert groups[..|collections|] == groups;
    assert EntriesOf(collections) == groups;
    assert AllEntries(collections) == all;
    AllResolved(all, links, lists, ps, details);
  }
}
