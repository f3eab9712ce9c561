/**
 * Linking collection entries to catalog details. An entry is looked up by the
 * text "<seconds> <title>" among the keys of all details (a GroupJoin over the
 * catalog); only a unique match links the entry and the detail to each other,
 * and every other outcome makes the run fail.
 */
module Resolution {
  import opened Wrappers
  import opened Numbers
  import opened Durations
  import opened Catalog

  /** The join key: the seconds as `int.ToString` writes them, a space, then the title. */
  function Key(seconds: int, title: string): string
  {
    IntToString(seconds) + " " + title
  }

  /** The first space of a + " " + t is the one after a, when a holds none. */
  lemma FirstSpace(a: string, t: string)
    requires ' ' !in a
    ensures (a + " " + t)[|a|] == ' '
    ensures forall k :: 0 <= k < |a| ==> (a + " " + t)[k] != ' '
  {
    forall k | 0 <= k < |a| ensures (a + " " + t)[k] != ' ' {
      assert (a + " " + t)[k] == a[k];
    }
  }

  lemma SplitAtSpace(a: string, t: string, b: string, u: string)
    requires ' ' !in a && ' ' !in b
    requires a + " " + t == b + " " + u
    ensures a == b && t == u
  {
    var x := a + " " + t;
    FirstSpace(a, t);
    FirstSpace(b, u);
    assert |a| == |b|;
    assert a == x[..|a|];
    assert b == x[..|b|];
    assert t == x[|a| + 1..];
    assert u == x[|b| + 1..];
  }

  /** A rendered number holds no space, so the key determines the (seconds, title) pair. */
  lemma KeyInjective(s1: int, t1: string, s2: int, t2: string)
    ensures Key(s1, t1) == Key(s2, t2) <==> s1 == s2 && t1 == t2
  {
    if Key(s1, t1) == Key(s2, t2) {
      IntToStringHasNoSpace(s1);
      IntToStringHasNoSpace(s2);
      SplitAtSpace(IntToString(s1), t1, IntToString(s2), t2);
      IntToStringInjective(s1, s2);
    }
  }

  /** What an entry and a detail are matched on: the seconds and the title. */
  type Pair = (int, string)

  /** The pair of every detail, in catalog order. */
  function DetailPairs(ds: seq<Detail>): (ps: seq<Pair>)
    reads ds`seconds
    ensures |ps| == |ds|
    ensures forall j :: 0 <= j < |ds| ==> ps[j] == (ds[j].seconds, ds[j].Title)
  {
    if ds == [] then [] else DetailPairs(ds[..|ds| - 1]) + [(ds[|ds| - 1].seconds, ds[|ds| - 1].Title)]
  }

  function EntryPair(e: CollectionEntry): Pair
  {
    (e.seconds, e.title)
  }

  /** keys holds the key text of every pair, in order. */
  predicate KeysOf(keys: seq<string>, ps: seq<Pair>)
  {
    |keys| == |ps| && forall j :: 0 <= j < |ps| ==> keys[j] == Key(ps[j].0, ps[j].1)
  }

  /** The key text of every pair, in order. */
  function KeyTexts(ps: seq<Pair>): (ks: seq<string>)
    ensures KeysOf(ks, ps)
  {
    if ps == [] then [] else KeyTexts(ps[..|ps| - 1]) + [Key(ps[|ps| - 1].0, ps[|ps| - 1].1)]
  }

  /** The lookup GroupJoin builds from the catalog: the key text of every detail. */
  function DetailKeys(ds: seq<Detail>): (keys: seq<string>)
    reads ds`seconds
    ensures |keys| == |ds|
  {
    KeyTexts(DetailPairs(ds))
  }

  /** The key text of an entry. */
  function EntryKey(e: CollectionEntry): string
  {
    Key(e.seconds, e.title)
  }

  /** The positions whose key is k: the details GroupJoin pairs with an entry. */
  function Matches<K(==)>(keys: seq<K>, k: K): (r: seq<nat>)
    ensures |r| <= |keys|
    decreases |keys|
  {
    if keys == [] then []
    else Matches(keys[..|keys| - 1], k) + (if keys[|keys| - 1] == k then [|keys| - 1] else [])
  }

  /** The matches are exactly the positions holding k, in increasing order. */
  lemma {:induction false} MatchesMeaning<K>(keys: seq<K>, k: K)
    ensures forall i :: 0 <= i < |Matches(keys, k)| ==> Matches(keys, k)[i] < |keys| && keys[Matches(keys, k)[i]] == k
    ensures forall j :: 0 <= j < |keys| && keys[j] == k ==> j in Matches(keys, k)
    ensures forall i, i' :: 0 <= i < i' < |Matches(keys, k)| ==> Matches(keys, k)[i] < Matches(keys, k)[i']
    decreases |keys|
  {
    if keys != [] {
      var init := keys[..|keys| - 1];
      MatchesMeaning(init, k);
      forall j | 0 <= j < |init| ensures keys[j] == init[j] { }
    }
  }

  /** Comparing key texts finds the same positions as comparing (seconds, title) pairs. */
  lemma {:induction false} TextMatchesArePairMatches(keys: seq<string>, ps: seq<Pair>, p: Pair)
    requires KeysOf(keys, ps)
    ensures Matches(keys, Key(p.0, p.1)) == Matches(ps, p)
    decreases |ps|
  {
    if ps != [] {
      var init := ps[..|ps| - 1];
      TextMatchesArePairMatches(keys[..|ps| - 1], init, p);
      KeyInjective(ps[|ps| - 1].0, ps[|ps| - 1].1, p.0, p.1);
    }
  }

  /**
   * Where an entry with key k is linked: the position of the one matching
   * detail, or nothing when there is no match or more than one. The body sits
   * `depth` calls deep so that the matches are computed only where a proof
   * asks for them through ResolveByMatches.
   */
  function Resolve<K(==)>(keys: seq<K>, k: K, depth: nat := 2): Option<nat>
    decreases depth
  {
    if depth == 0 then
      var m := Matches(keys, k);
      if |m| == 1 then Some(m[0]) else None
    else
      Resolve(keys, k, depth - 1)
  }

  /** Resolve is the single match, when there is exactly one. */
  lemma ResolveByMatches<K>(keys: seq<K>, k: K)
    ensures Resolve(keys, k) == if |Matches(keys, k)| == 1 then Some(Matches(keys, k)[0]) else None
  {
    assert Resolve(keys, k) == Resolve(keys, k, 1);
    assert Resolve(keys, k, 1) == Resolve(keys, k, 0);
  }

  /** Resolve finds the one position holding k, and finds nothing exactly when no position or several hold k. */
  lemma ResolveMeaning<K>(keys: seq<K>, k: K)
    ensures Resolve(keys, k).Some? ==> Resolve(keys, k).value < |keys| && keys[Resolve(keys, k).value] == k
    ensures Resolve(keys, k).Some? ==> forall j :: 0 <= j < |keys| && keys[j] == k ==> j == Resolve(keys, k).value
    ensures Resolve(keys, k).None? ==> forall j :: 0 <= j < |keys| && keys[j] == k ==>
      exists j' :: 0 <= j' < |keys| && j' != j && keys[j'] == k
  {
    ResolveByMatches(keys, k);
    MatchesMeaning(keys, k);
    if |Matches(keys, k)| != 1 {
      NotUnique(keys, k);
    }
  }

  /** Without exactly one match, every matching position has a second one beside it. */
  lemma NotUnique<K>(keys: seq<K>, k: K)
    requires |Matches(keys, k)| != 1
    ensures forall j :: 0 <= j < |keys| && keys[j] == k ==>
      exists j' :: 0 <= j' < |keys| && j' != j && keys[j'] == k
  {
    var m := Matches(keys, k);
    MatchesMeaning(keys, k);
    forall j | 0 <= j < |keys| && keys[j] == k
      ensures exists j' :: 0 <= j' < |keys| && j' != j && keys[j'] == k
    {
      assert j in m;
      var w := if m[0] == j then m[1] else m[0];
      assert 0 <= w < |keys| && w != j && keys[w] == k;
    }
  }

  /** The detail an entry is linked to after resolution, given the one it had before. */
  function LinkOf(ps: seq<Pair>, details: seq<Detail>, e: CollectionEntry, before: Detail?): Detail?
  {
    match Resolve(ps, EntryPair(e))
    case Some(j) => if j < |details| then details[j] else before
    case None => before
  }

  /** Resolving twice links nothing new. */
  lemma LinkOfTwice(ps: seq<Pair>, details: seq<Detail>, e: CollectionEntry, before: Detail?)
    ensures LinkOf(ps, details, e, LinkOf(ps, details, e, before)) == LinkOf(ps, details, e, before)
  {
  }

  /** Each of the first n entries of es has exactly one matching detail, checked one entry after another as the loop does. */
  predicate AllResolve(ps: seq<Pair>, es: seq<CollectionEntry>, n: nat)
    requires n <= |es|
  {
    n == 0 || (AllResolve(ps, es, n - 1) && Resolve(ps, EntryPair(es[n - 1])).Some?)
  }

  lemma {:induction false} AllResolveMeaning(ps: seq<Pair>, es: seq<CollectionEntry>, n: nat)
    requires n <= |es|
    ensures AllResolve(ps, es, n) <==> forall k :: 0 <= k < n ==> Resolve(ps, EntryPair(es[k])).Some?
  {
    if n > 0 {
      AllResolveMeaning(ps, es, n - 1);
    }
  }

  /** Every entry of es has exactly one matching detail. */
  predicate EveryEntryResolves(ps: seq<Pair>, es: seq<CollectionEntry>)
  {
    forall e :: e in es ==> Resolve(ps, EntryPair(e)).Some?
  }

  /** Checking the entries one after another finds them all resolved exactly when every one of them is. */
  lemma AllResolveEvery(ps: seq<Pair>, es: seq<CollectionEntry>)
    ensures AllResolve(ps, es, |es|) <==> EveryEntryResolves(ps, es)
  {
    AllResolveMeaning(ps, es, |es|);
    if AllResolve(ps, es, |es|) {
      forall e | e in es ensures Resolve(ps, EntryPair(e)).Some? {
        var k :| 0 <= k < |es| && es[k] == e;
      }
    }
  }

  /** The entries among the first n of es that resolve to catalog position j, in order. */
  function ResolvedTo(ps: seq<Pair>, es: seq<CollectionEntry>, n: nat, j: nat): (r: seq<CollectionEntry>)
    requires n <= |es|
    ensures |r| <= n
  {
    if n == 0 then []
    else ResolvedTo(ps, es, n - 1, j) + if Resolve(ps, EntryPair(es[n - 1])) == Some(j) then [es[n - 1]] else []
  }

  /** The entries linked to position j are among the first n and resolve to j, and none of them is linked to another position. */
  lemma {:induction false} ResolvedToMembers(ps: seq<Pair>, es: seq<CollectionEntry>, n: nat, j: nat, j': nat)
    requires n <= |es| && j != j'
    ensures forall e :: e in ResolvedTo(ps, es, n, j) ==> e in es[..n] && Resolve(ps, EntryPair(e)) == Some(j)
    ensures forall e :: e in ResolvedTo(ps, es, n, j) ==> e !in ResolvedTo(ps, es, n, j')
  {
    if n > 0 {
      ResolvedToMembers(ps, es, n - 1, j, j');
      ResolvedToMembers(ps, es, n - 1, j', j);
      assert es[..n] == es[..n - 1] + [es[n - 1]];
    }
  }

  /** e is one of the first n entries of es. */
  predicate Among(e: CollectionEntry, es: seq<CollectionEntry>, n: nat)
    requires n <= |es|
  {
    n > 0 && (es[n - 1] == e || Among(e, es, n - 1))
  }

  lemma {:induction false} AmongAll(es: seq<CollectionEntry>, n: nat)
    requires n <= |es|
    ensures forall k :: 0 <= k < n ==> Among(es[k], es, n)
  {
    if n > 0 {
      AmongAll(es, n - 1);
    }
  }

  /** The positions of the details whose key text equals the entry's: the group GroupJoin pairs with the entry. */
  method LookupEntry(lookup: seq<string>, entry: CollectionEntry, ghost ps: seq<Pair>) returns (m: seq<nat>)
    requires KeysOf(lookup, ps)
    ensures m == Matches(ps, EntryPair(entry))
  {
    m := Matches(lookup, EntryKey(entry));
    TextMatchesArePairMatches(lookup, ps, EntryPair(entry));
  }

  /** ps has one pair per detail, and a detail listed twice has the same pair at both places. */
  ghost predicate PairsFit(ps: seq<Pair>, details: seq<Detail>)
  {
    |ps| == |details| &&
    forall j, j' :: 0 <= j < |details| && 0 <= j' < |details| && details[j] == details[j'] ==> ps[j] == ps[j']
  }

  /**
   * A group of one: the entry resolves to that position, and no other
   * position holds the same detail.
   */
  lemma UniqueMatch(ps: seq<Pair>, details: seq<Detail>, p: Pair, j0: nat)
    requires PairsFit(ps, details)
    requires Matches(ps, p) == [j0]
    ensures j0 < |details| && Resolve(ps, p) == Some(j0)
    ensures forall j :: 0 <= j < |details| && details[j] == details[j0] ==> j == j0
  {
    var m := Matches(ps, p);
    ResolveByMatches(ps, p);
    MatchesMeaning(ps, p);
    assert m[0] == j0 && j0 < |ps|;
    assert ps[j0] == p;
    forall j | 0 <= j < |details| && details[j] == details[j0] ensures j == j0 {
      assert ps[j] == p;
      assert j in m;
    }
  }

  /** The list of every detail, in catalog order. */
  ghost function ListsOf(ds: seq<Detail>): (r: seq<seq<CollectionEntry>>)
    reads ds`collectionEntries
    ensures |r| == |ds|
    ensures forall j :: 0 <= j < |ds| ==> r[j] == ds[j].collectionEntries
  {
    if ds == [] then [] else ListsOf(ds[..|ds| - 1]) + [ds[|ds| - 1].collectionEntries]
  }

  /** The detail every entry links to, in collection order. */
  ghost function LinksOf(es: seq<CollectionEntry>): (r: seq<Detail?>)
    reads es`detail
    ensures |r| == |es|
    ensures forall k :: 0 <= k < |es| ==> r[k] == es[k].detail
  {
    if es == [] then [] else LinksOf(es[..|es| - 1]) + [es[|es| - 1].detail]
  }

  /*
   * The state after the loop over the entries has handled the first i of
   * them, relative to the links and lists read before it started. Each of the
   * two predicates keeps its body `depth` calls deep, so that it is opened
   * only through its Meaning lemma and the methods that carry it from one
   * entry to the next do not look inside it.
   */

  /** Each of the first i entries links where resolution puts it; every other entry keeps its link from before (links). */
  ghost predicate LinksDone(entries: seq<CollectionEntry>, i: nat, ps: seq<Pair>, details: seq<Detail>, links: seq<Detail?>,
                            depth: nat := 2)
    reads entries`detail
  {
    if depth == 0 then
      i <= |entries| && |links| == |entries| &&
      forall k :: 0 <= k < |entries| ==>
        entries[k].detail == if Among(entries[k], entries, i) then LinkOf(ps, details, entries[k], links[k]) else links[k]
    else
      LinksDone(entries, i, ps, details, links, depth - 1)
  }

  lemma LinksDoneMeaning(entries: seq<CollectionEntry>, i: nat, ps: seq<Pair>, details: seq<Detail>, links: seq<Detail?>)
    ensures LinksDone(entries, i, ps, details, links) <==>
      i <= |entries| && |links| == |entries| &&
      forall k :: 0 <= k < |entries| ==>
        entries[k].detail == if Among(entries[k], entries, i) then LinkOf(ps, details, entries[k], links[k]) else links[k]
  {
    assert LinksDone(entries, i, ps, details, links) == LinksDone(entries, i, ps, details, links, 1);
    assert LinksDone(entries, i, ps, details, links, 1) == LinksDone(entries, i, ps, details, links, 0);
  }

  /** Every detail holds its list from before (lists) followed by those of the first i entries that resolve to it. */
  ghost predicate ListsDone(details: seq<Detail>, i: nat, ps: seq<Pair>, entries: seq<CollectionEntry>,
                            lists: seq<seq<CollectionEntry>>, depth: nat := 2)
    reads details`collectionEntries
  {
    if depth == 0 then
      i <= |entries| && |lists| == |details| &&
      forall j :: 0 <= j < |details| ==> details[j].collectionEntries == lists[j] + ResolvedTo(ps, entries, i, j)
    else
      ListsDone(details, i, ps, entries, lists, depth - 1)
  }

  lemma ListsDoneMeaning(details: seq<Detail>, i: nat, ps: seq<Pair>, entries: seq<CollectionEntry>,
                         lists: seq<seq<CollectionEntry>>)
    ensures ListsDone(details, i, ps, entries, lists) <==>
      i <= |entries| && |lists| == |details| &&
      forall j :: 0 <= j < |details| ==> details[j].collectionEntries == lists[j] + ResolvedTo(ps, entries, i, j)
  {
    assert ListsDone(details, i, ps, entries, lists) == ListsDone(details, i, ps, entries, lists, 1);
    assert ListsDone(details, i, ps, entries, lists, 1) == ListsDone(details, i, ps, entries, lists, 0);
  }

  /** Links entries[i] to details[j0], the one detail it resolves to. */
  method LinkEntry(entry: CollectionEntry, entries: seq<CollectionEntry>, i: nat, details: seq<Detail>, j0: nat,
                   ghost ps: seq<Pair>, ghost links: seq<Detail?>)
    requires i < |entries| && entry == entries[i] && j0 < |details| && Resolve(ps, EntryPair(entry)) == Some(j0)
    requires LinksDone(entries, i, ps, details, links)
    modifies entry`detail
    ensures entry.detail == details[j0]
    ensures LinksDone(entries, i + 1, ps, details, links)
  {
    LinksDoneMeaning(entries, i, ps, details, links);
    entry.detail := details[j0];
    LinksDoneMeaning(entries, i + 1, ps, details, links);
  }

  /** Appends entries[i] to the list of details[j0], the one detail it resolves to. */
  method AddEntry(entry: CollectionEntry, entries: seq<CollectionEntry>, i: nat, d: Detail, details: seq<Detail>, j0: nat,
                  ghost ps: seq<Pair>, ghost lists: seq<seq<CollectionEntry>>)
    requires i < |entries| && entry == entries[i] && j0 < |details| && d == details[j0]
    requires Resolve(ps, EntryPair(entry)) == Some(j0)
    requires forall j :: 0 <= j < |details| && details[j] == d ==> j == j0
    requires ListsDone(details, i, ps, entries, lists)
    modifies d`collectionEntries
    ensures d.collectionEntries == old(d.collectionEntries) + [entry]
    ensures ListsDone(details, i + 1, ps, entries, lists)
  {
    ListsDoneMeaning(details, i, ps, entries, lists);
    d.collectionEntries := d.collectionEntries + [entry];
    forall j | 0 <= j < |details|
      ensures details[j].collectionEntries == lists[j] + ResolvedTo(ps, entries, i + 1, j)
    {
      if j == j0 {
        assert (lists[j] + ResolvedTo(ps, entries, i, j)) + [entry] == lists[j] + (ResolvedTo(ps, entries, i, j) + [entry]);
      }
    }
    ListsDoneMeaning(details, i + 1, ps, entries, lists);
  }

  /** An entry with no match or several matches changes nothing, so the state covers it as it is. */
  lemma Unresolved(entries: seq<CollectionEntry>, i: nat, ps: seq<Pair>, details: seq<Detail>,
                   links: seq<Detail?>, lists: seq<seq<CollectionEntry>>)
    requires i < |entries| && Resolve(ps, EntryPair(entries[i])).None?
    requires LinksDone(entries, i, ps, details, links) && ListsDone(details, i, ps, entries, lists)
    ensures LinksDone(entries, i + 1, ps, details, links) && ListsDone(details, i + 1, ps, entries, lists)
  {
    LinksDoneMeaning(entries, i, ps, details, links);
    ListsDoneMeaning(details, i, ps, entries, lists);
    LinksDoneMeaning(entries, i + 1, ps, details, links);
    ListsDoneMeaning(details, i + 1, ps, entries, lists);
  }

  /**
   * Resolves entries[i], one turn of the loop over the entries: a unique
   * match links the entry and the detail to each other; no match or several
   * matches leaves both alone and turns the result to failure.
   */
  method ResolveNext(entry: CollectionEntry, entries: seq<CollectionEntry>, i: nat, details: seq<Detail>, lookup: seq<string>,
                     success: bool, ghost ps: seq<Pair>, ghost links: seq<Detail?>, ghost lists: seq<seq<CollectionEntry>>)
    returns (success': bool)
    requires i < |entries| && entry == entries[i] && PairsFit(ps, details) && KeysOf(lookup, ps)
    requires success <==> AllResolve(ps, entries, i)
    requires LinksDone(entries, i, ps, details, links) && ListsDone(details, i, ps, entries, lists)
    modifies entry`detail, details`collectionEntries
    ensures success' <==> AllResolve(ps, entries, i + 1)
    ensures LinksDone(entries, i + 1, ps, details, links) && ListsDone(details, i + 1, ps, entries, lists)
  {
    var group := LookupEntry(lookup, entry, ps);
    if |group| == 1 {
      var j0 := group[0];
      UniqueMatch(ps, details, EntryPair(entry), j0);
      LinkEntry(entry, entries, i, details, j0, ps, links);
      AddEntry(entry, entries, i, details[j0], details, j0, ps, lists);
      success' := success;
    } else {
      ResolveByMatches(ps, EntryPair(entry));
      Unresolved(entries, i, ps, details, links, lists);
      success' := false;
    }
  }

  /** Resolves the entries in order, from a state where none of them is resolved yet. */
  method ResolveEntries(entries: seq<CollectionEntry>, details: seq<Detail>, lookup: seq<string>,
                        ghost ps: seq<Pair>, ghost links: seq<Detail?>, ghost lists: seq<seq<CollectionEntry>>)
    returns (success: bool)
    requires PairsFit(ps, details) && KeysOf(lookup, ps)
    requires LinksDone(entries, 0, ps, details, links) && ListsDone(details, 0, ps, entries, lists)
    modifies entries`detail, details`collectionEntries
    ensures success <==> AllResolve(ps, entries, |entries|)
    ensures LinksDone(entries, |entries|, ps, details, links) && ListsDone(details, |entries|, ps, entries, lists)
  {
    success := true;
    for i := 0 to |entries|
      invariant success <==> AllResolve(ps, entries, i)
      invariant LinksDone(entries, i, ps, details, links) && ListsDone(details, i, ps, entries, lists)
    {
      success := ResolveNext(entries[i], entries, i, details, lookup, success, ps, links, lists);
    }
  }

  /** Before the loop nothing is resolved: every entry and every detail is as it was. */
  lemma NothingResolved(entries: seq<CollectionEntry>, ps: seq<Pair>, details: seq<Detail>)
    ensures LinksDone(entries, 0, ps, details, LinksOf(entries)) && ListsDone(details, 0, ps, entries, ListsOf(details))
  {
    LinksDoneMeaning(entries, 0, ps, details, LinksOf(entries));
    ListsDoneMeaning(details, 0, ps, entries, ListsOf(details));
  }

  /** After the loop every entry is resolved. */
  lemma AllResolved(entries: seq<CollectionEntry>, links: seq<Detail?>, lists: seq<seq<CollectionEntry>>, ps: seq<Pair>,
                    details: seq<Detail>)
    requires LinksDone(entries, |entries|, ps, details, links) && ListsDone(details, |entries|, ps, entries, lists)
    ensures |links| == |entries| && |lists| == |details|
    ensures forall k :: 0 <= k < |entries| ==> entries[k].detail == LinkOf(ps, details, entries[k], links[k])
    ensures forall j :: 0 <= j < |details| ==> details[j].collectionEntries == lists[j] + ResolvedTo(ps, entries, |entries|, j)
    ensures AllResolve(ps, entries, |entries|) <==> EveryEntryResolves(ps, entries)
  {
    LinksDoneMeaning(entries, |entries|, ps, details, links);
    ListsDoneMeaning(details, |entries|, ps, entries, lists);
    AmongAll(entries, |entries|);
    AllResolveEvery(ps, entries);
  }

  /**
   * Resolves the entries of one collection, in order, and reports whether
   * every one of them found exactly one detail.
   */
  method ResolveForCollection(collection: Collection, details: seq<Detail>) returns (success: bool)
    modifies collection.entries`detail, details`collectionEntries
    ensures success <==> EveryEntryResolves(old(DetailPairs(details)), collection.entries)
    ensures forall k :: 0 <= k < |collection.entries| ==>
      collection.entries[k].detail == LinkOf(old(DetailPairs(details)), details, collection.entries[k], old(collection.entries[k].detail))
    ensures forall j :: 0 <= j < |details| ==>
      details[j].collectionEntries ==
      old(details[j].collectionEntries) + ResolvedTo(old(DetailPairs(details)), collection.entries, |collection.entries|, j)
  {
    ghost var ps := DetailPairs(details);
    var lookup := DetailKeys(details);
    var entries := collection.entries;
    ghost var links := LinksOf(entries);
    ghost var lists := ListsOf(details);
    NothingResolved(entries, ps, details);
    success := ResolveEntries(entries, details, lookup, ps, links, lists);
    AllResolved(entries, links, lists, ps, details);
  }
}
