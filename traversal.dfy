/**
 * The walk over the catalog that decides which details are processed, and
 * in what order. With a list of collection titles, the entries of those
 * collections are taken in the order given and a detail already processed is
 * skipped; without one, the catalog is taken last row first, optionally only
 * the details that are in no collection. After every processed detail the
 * time limit is checked, and the walk stops as soon as it is reached.
 *
 * The stopwatch is a parameter: `elapsed(k)` is the number of minutes it
 * shows when the time limit is checked after the k-th processed detail.
 * `dates` turns the created-at text into the formatted date of file names.
 */
module Traversal {
  import opened Wrappers
  import opened Catalog
  import opened Naming
  import opened Downloads

  /** The time limit check: a limit of zero or less counts as reached. */
  predicate ReachedTimeLimit(timeLimit: int, elapsed: real)
  {
    timeLimit <= 0 || elapsed > timeLimit as real
  }

  /** What the walk meets: the detail of an entry, or a title without a collection. */
  datatype Item = Visit(detail: Detail?) | UnknownTitle

  /**
   * The state of the walk: the details processed so far, the actions taken,
   * the paths that exist, whether the time limit stopped the walk, and
   * whether it ended with an exception.
   */
  datatype Progress = Progress(processed: seq<Detail>, actions: seq<Action>, files: set<Path>, stopped: bool, crashed: bool)

  predicate DistinctTitles(cs: seq<Collection>)
  {
    forall i, j :: 0 <= i < j < |cs| ==> cs[i].collectionTitle != cs[j].collectionTitle
  }

  /** The collection with a given title, looked up in the dictionary built from the collections. */
  function FindTitle(cs: seq<Collection>, t: string): (r: Option<Collection>)
    ensures r.Some? ==> r.value in cs && r.value.collectionTitle == t
    ensures r.None? ==> forall i :: 0 <= i < |cs| ==> cs[i].collectionTitle != t
  {
    if cs == [] then None
    else if cs[0].collectionTitle == t then Some(cs[0])
    else FindTitle(cs[1..], t)
  }

  /** The entries of all the given collections. */
  function AllEntriesOf(cs: seq<Collection>): set<CollectionEntry>
    reads cs
  {
    set c, e | c in cs && e in c.entries :: e
  }

  /** The details of a list of entries. */
  function EntryItems(es: seq<CollectionEntry>): (r: seq<Item>)
    reads es
    ensures |r| == |es|
    ensures forall i :: 0 <= i < |es| ==> r[i] == Visit(es[i].detail)
    decreases |es|
  {
    if es == [] then []
    else
      var pre := es[..|es| - 1];
      assert forall i :: 0 <= i < |pre| ==> pre[i] == es[i];
      EntryItems(pre) + [Visit(es[|es| - 1].detail)]
  }

  /** What one title of the list contributes to the walk. */
  function TitleItems(cs: seq<Collection>, t: string): seq<Item>
    reads cs, AllEntriesOf(cs)
  {
    match FindTitle(cs, t)
    case None => [UnknownTitle]
    case Some(c) =>
      assert forall e :: e in c.entries ==> e in AllEntriesOf(cs);
      EntryItems(c.entries)
  }

  /** The walk with a list of collection titles: their entries' details, collection after collection. */
  function Stream(titles: seq<string>, cs: seq<Collection>): seq<Item>
    reads cs, AllEntriesOf(cs)
    decreases |titles|
  {
    if titles == [] then [] else Stream(titles[..|titles| - 1], cs) + TitleItems(cs, titles[|titles| - 1])
  }

  /** The walk without a list of collection titles: the catalog, last row first. */
  function CatalogItems(details: seq<Detail>): (r: seq<Item>)
    ensures |r| == |details|
    ensures forall i :: 0 <= i < |details| ==> r[i] == Visit(details[|details| - 1 - i])
  {
    seq(|details|, i requires 0 <= i < |details| => Visit(details[|details| - 1 - i]))
  }

  /** Walking the catalog last row first reverses concatenation: rows added at the end are met first. */
  lemma CatalogItemsAppend(ds: seq<Detail>, es: seq<Detail>)
    ensures CatalogItems(ds + es) == CatalogItems(es) + CatalogItems(ds)
  {
    var l, r := CatalogItems(ds + es), CatalogItems(es) + CatalogItems(ds);
    assert |l| == |r|;
    forall i | 0 <= i < |l|
      ensures l[i] == r[i]
    {
      if i < |es| {
        assert (ds + es)[|ds| + |es| - 1 - i] == es[|es| - 1 - i];
      } else {
        assert (ds + es)[|ds| + |es| - 1 - i] == ds[|ds| - 1 - (i - |es|)];
      }
    }
  }

  /** The last catalog row is met first. */
  lemma CatalogItemsSnoc(ds: seq<Detail>, d: Detail)
    ensures CatalogItems(ds + [d]) == [Visit(d)] + CatalogItems(ds)
  {
    CatalogItemsAppend(ds, [d]);
  }

  /** The detail an item refers to. */
  function Touches(item: Item): set<Detail?>
  {
    if item.Visit? then {item.detail} else {}
  }

  /** The details a list of items refers to. */
  function Referenced(items: seq<Item>): set<Detail?>
  {
    set i | 0 <= i < |items| && items[i].Visit? :: items[i].detail
  }

  /**
   * One item of the walk. With collection titles (`byTitle`), a detail met
   * before is skipped; without, a detail in a collection is skipped when
   * only details outside collections are wanted. A title without a
   * collection and an entry without a detail end the walk with an exception.
   */
  function Advance(s: Settings, p: Progress, item: Item, byTitle: bool,
                   dates: string -> string, elapsed: nat -> real): Progress
    reads Touches(item)
  {
    if p.stopped || p.crashed then p
    else match item
      case UnknownTitle => p.(crashed := true)
      case Visit(d) =>
        if d == null then p.(crashed := true)
        else if byTitle && d in p.processed then p
        else if !byTitle && s.nonCollections && d.collectionEntries != [] then p
        else Handle(s, p, d, dates, elapsed)
  }

  /**
   * A processed detail: its downloads are added, and the time limit decides
   * whether the walk stops. The body sits `depth` calls deep so that the
   * downloads are spelled out only where a proof asks for them through
   * HandleMeaning.
   */
  function Handle(s: Settings, p: Progress, d: Detail, dates: string -> string, elapsed: nat -> real,
                  depth: nat := 2): Progress
    reads d
    decreases depth
  {
    if depth == 0 then
      var r := DetailDownloads(s, p.files, d, dates(d.CreatedAt));
      var processed := p.processed + [d];
      Progress(processed, p.actions + r.actions, r.files, ReachedTimeLimit(s.timeLimit, elapsed(|processed|)), false)
    else
      Handle(s, p, d, dates, elapsed, depth - 1)
  }

  lemma HandleMeaning(s: Settings, p: Progress, d: Detail, dates: string -> string, elapsed: nat -> real)
    ensures var r := DetailDownloads(s, p.files, d, dates(d.CreatedAt));
      Handle(s, p, d, dates, elapsed) ==
      Progress(p.processed + [d], p.actions + r.actions, r.files, ReachedTimeLimit(s.timeLimit, elapsed(|p.processed| + 1)), false)
  {
    assert Handle(s, p, d, dates, elapsed) == Handle(s, p, d, dates, elapsed, 1);
    assert Handle(s, p, d, dates, elapsed, 1) == Handle(s, p, d, dates, elapsed, 0);
  }

  /** The walk over a list of items, one at a time. */
  function Walk(s: Settings, p: Progress, items: seq<Item>, byTitle: bool,
                dates: string -> string, elapsed: nat -> real): Progress
    reads Referenced(items)
    decreases |items|
  {
    if items == [] then p
    else
      var pre := items[..|items| - 1];
      ReferencedInit(items);
      Advance(s, Walk(s, p, pre, byTitle, dates, elapsed), items[|items| - 1], byTitle, dates, elapsed)
  }

  /** The details the items but the last refer to, and the last one's, are among those of all items. */
  lemma ReferencedInit(items: seq<Item>)
    requires items != []
    ensures Referenced(items[..|items| - 1]) <= Referenced(items)
    ensures Touches(items[|items| - 1]) <= Referenced(items)
  {
    var pre := items[..|items| - 1];
    forall x | x in Referenced(pre) ensures x in Referenced(items) {
      var i :| 0 <= i < |pre| && pre[i].Visit? && pre[i].detail == x;
      assert items[i] == pre[i];
    }
  }

  /** Walking a list in two parts is walking the first part, then the second from where it left off. */
  lemma {:induction false} WalkAppend(s: Settings, p: Progress, a: seq<Item>, b: seq<Item>, byTitle: bool,
                                      dates: string -> string, elapsed: nat -> real)
    ensures Walk(s, p, a + b, byTitle, dates, elapsed) == Walk(s, Walk(s, p, a, byTitle, dates, elapsed), b, byTitle, dates, elapsed)
    decreases |b|
  {
    if b == [] {
      assert a + b == a;
    } else {
      var b' := b[..|b| - 1];
      assert (a + b)[..|a + b| - 1] == a + b';
      WalkAppend(s, p, a, b', byTitle, dates, elapsed);
    }
  }

  /** Once stopped or crashed, the walk takes no further step. */
  lemma {:induction false} WalkHalted(s: Settings, p: Progress, items: seq<Item>, byTitle: bool,
                                      dates: string -> string, elapsed: nat -> real)
    requires p.stopped || p.crashed
    ensures Walk(s, p, items, byTitle, dates, elapsed) == p
    decreases |items|
  {
    if items != [] {
      WalkHalted(s, p, items[..|items| - 1], byTitle, dates, elapsed);
    }
  }

  /** A walk that halts on a prefix of the items ends there. */
  lemma WalkEndsEarly(s: Settings, p: Progress, items: seq<Item>, pre: seq<Item>, byTitle: bool,
                      dates: string -> string, elapsed: nat -> real)
    requires |pre| <= |items| && items[..|pre|] == pre
    requires Walk(s, p, pre, byTitle, dates, elapsed).stopped || Walk(s, p, pre, byTitle, dates, elapsed).crashed
    ensures Walk(s, p, items, byTitle, dates, elapsed) == Walk(s, p, pre, byTitle, dates, elapsed)
  {
    assert items == pre + items[|pre|..];
    WalkAppend(s, p, pre, items[|pre|..], byTitle, dates, elapsed);
    WalkHalted(s, Walk(s, p, pre, byTitle, dates, elapsed), items[|pre|..], byTitle, dates, elapsed);
  }

  /** The details the entries of the given collections refer to. */
  function DetailsOf(cs: seq<Collection>): set<Detail?>
    reads cs, AllEntriesOf(cs)
  {
    set e | e in AllEntriesOf(cs) :: e.detail
  }

  lemma ReferencedAppend(a: seq<Item>, b: seq<Item>)
    ensures Referenced(a + b) == Referenced(a) + Referenced(b)
  {
    forall x | x in Referenced(a + b)
      ensures x in Referenced(a) + Referenced(b)
    {
      var i :| 0 <= i < |a + b| && (a + b)[i].Visit? && (a + b)[i].detail == x;
      if i >= |a| {
        assert b[i - |a|] == (a + b)[i];
      } else {
        assert a[i] == (a + b)[i];
      }
    }
    forall x | x in Referenced(a)
      ensures x in Referenced(a + b)
    {
      var i :| 0 <= i < |a| && a[i].Visit? && a[i].detail == x;
      assert (a + b)[i] == a[i];
    }
    forall x | x in Referenced(b)
      ensures x in Referenced(a + b)
    {
      var i :| 0 <= i < |b| && b[i].Visit? && b[i].detail == x;
      assert (a + b)[|a| + i] == b[i];
    }
  }

  lemma TitleReferences(cs: seq<Collection>, t: string)
    ensures Referenced(TitleItems(cs, t)) <= DetailsOf(cs)
  {
    if FindTitle(cs, t).Some? {
      var c := FindTitle(cs, t).value;
      var items := TitleItems(cs, t);
      forall x | x in Referenced(items)
        ensures x in DetailsOf(cs)
      {
        var i :| 0 <= i < |items| && items[i].Visit? && items[i].detail == x;
        var e := c.entries[i];
        assert c in cs && e in c.entries;
        assert e in AllEntriesOf(cs);
      }
    }
  }

  lemma {:induction false} StreamReferences(titles: seq<string>, cs: seq<Collection>)
    ensures Referenced(Stream(titles, cs)) <= DetailsOf(cs)
    decreases |titles|
  {
    if titles != [] {
      StreamReferences(titles[..|titles| - 1], cs);
      TitleReferences(cs, titles[|titles| - 1]);
      ReferencedAppend(Stream(titles[..|titles| - 1], cs), TitleItems(cs, titles[|titles| - 1]));
    }
  }

  lemma CatalogReferences(details: seq<Detail>)
    ensures forall x :: x in Referenced(CatalogItems(details)) ==> x in details
  {
    var items := CatalogItems(details);
    forall x | x in Referenced(items)
      ensures x in details
    {
      var i :| 0 <= i < |items| && items[i].Visit? && items[i].detail == x;
      assert details[|details| - 1 - i] == x;
    }
  }

  /**
   * What `ProcessAllDownloads` does. With collection titles, a repeated
   * collection title makes building the dictionary throw before anything is
   * processed.
   */
  function AllDownloads(s: Settings, cs: seq<Collection>, details: seq<Detail>, files: set<Path>,
                        dates: string -> string, elapsed: nat -> real): Progress
    reads cs, AllEntriesOf(cs), DetailsOf(cs), details
  {
    var start := Progress([], [], files, false, false);
    match s.collections
    case Some(titles) =>
      if !DistinctTitles(cs) then start.(crashed := true)
      else
        StreamReferences(titles, cs);
        Walk(s, start, Stream(titles, cs), true, dates, elapsed)
    case None =>
      CatalogReferences(details);
      Walk(s, start, CatalogItems(details), false, dates, elapsed)
  }

  /** One step of the walk, on top of the steps before it. */
  lemma WalkSnoc(s: Settings, p: Progress, items: seq<Item>, x: Item, byTitle: bool,
                 dates: string -> string, elapsed: nat -> real)
    ensures Walk(s, p, items + [x], byTitle, dates, elapsed) == Advance(s, Walk(s, p, items, byTitle, dates, elapsed), x, byTitle, dates, elapsed)
  {
    assert (items + [x])[..|items|] == items;
  }

  /**
   * Processes one detail: its downloads, then the time limit check. This is
   * the method that computes one step; Handle is the function that specifies
   * it.
   */
  method ProcessOne(s: Settings, p: Progress, d: Detail, dates: string -> string, elapsed: nat -> real) returns (q: Progress)
    ensures q == Handle(s, p, d, dates, elapsed)
    ensures q.processed == p.processed + [d] && !q.crashed
  {
    var r := ProcessDownloads(s, p.files, d, dates(d.CreatedAt));
    var processed := p.processed + [d];
    q := Progress(processed, p.actions + r.actions, r.files, ReachedTimeLimit(s.timeLimit, elapsed(|processed|)), false);
    HandleMeaning(s, p, d, dates, elapsed);
  }

  /** One entry's detail with collection titles: a detail met before is skipped. */
  method VisitByTitle(s: Settings, p: Progress, visited: set<Detail>, d: Detail?,
                      dates: string -> string, elapsed: nat -> real) returns (q: Progress, visited': set<Detail>)
    requires !p.stopped && !p.crashed
    requires forall x :: x in visited <==> x in p.processed
    ensures q == Advance(s, p, Visit(d), true, dates, elapsed)
    ensures forall x :: x in visited' <==> x in q.processed
  {
    q, visited' := p, visited;
    if d == null {
      q := q.(crashed := true);
    } else if d !in visited {
      visited' := visited' + {d};
      q := ProcessOne(s, q, d, dates, elapsed);
    }
  }

  /**
   * The walk with collection titles over the stream of their entries'
   * details, skipping a detail met before.
   */
  method WalkStream(s: Settings, p: Progress, items: seq<Item>, dates: string -> string, elapsed: nat -> real)
    returns (q: Progress)
    requires p.processed == []
    ensures q == Walk(s, p, items, true, dates, elapsed)
  {
    q := p;
    var visited: set<Detail> := {};
    var k := 0;
    while k < |items| && !q.stopped && !q.crashed
      invariant 0 <= k <= |items|
      invariant q == Walk(s, p, items[..k], true, dates, elapsed)
      invariant forall d :: d in visited <==> d in q.processed
    {
      assert items[..k + 1] == items[..k] + [items[k]];
      WalkSnoc(s, p, items[..k], items[k], true, dates, elapsed);
      // the details the walk reads exist before the call, so the call leaves them alone
      ghost var upto := items[..k + 1];
      assert forall x :: x in Referenced(upto) ==> exists i :: 0 <= i < |items| && items[i] == Visit(x);
      if items[k].UnknownTitle? {
        q := q.(crashed := true);
      } else {
        q, visited := VisitByTitle(s, q, visited, items[k].detail, dates, elapsed);
      }
      k := k + 1;
    }
    if k < |items| {
      WalkEndsEarly(s, p, items, items[..k], true, dates, elapsed);
    } else {
      assert items[..k] == items;
    }
  }

  /** The catalog, last row first, optionally only the details in no collection. */
  method WalkCatalog(s: Settings, p: Progress, details: seq<Detail>,
                     dates: string -> string, elapsed: nat -> real) returns (q: Progress)
    requires !p.stopped && !p.crashed
    ensures q == Walk(s, p, CatalogItems(details), false, dates, elapsed)
  {
    q := p;
    ghost var items := CatalogItems(details);
    for k := 0 to |details|
      invariant !q.stopped && !q.crashed
      invariant q == Walk(s, p, items[..k], false, dates, elapsed)
    {
      assert items[..k + 1] == items[..k] + [items[k]];
      WalkSnoc(s, p, items[..k], items[k], false, dates, elapsed);
      // the details the walk reads exist before the call, so the call leaves them alone
      assert forall x :: x in Referenced(items[..k + 1]) ==> x in details;
      var d := details[|details| - 1 - k];
      if !s.nonCollections || d.collectionEntries == [] {
        q := ProcessOne(s, q, d, dates, elapsed);
        if q.stopped {
          WalkEndsEarly(s, p, items, items[..k + 1], false, dates, elapsed);
          return;
        }
      }
    }
    assert items[..|details|] == items;
  }

  method ProcessAllDownloads(s: Settings, collections: seq<Collection>, details: seq<Detail>, files: set<Path>,
                             dates: string -> string, elapsed: nat -> real) returns (p: Progress)
    ensures p == AllDownloads(s, collections, details, files, dates, elapsed)
  {
    var start := Progress([], [], files, false, false);
    p := start;
    if s.collections.None? {
      CatalogReferences(details);
      p := WalkCatalog(s, start, details, dates, elapsed);
      return;
    }
    if !DistinctTitles(collections) {
      p := start.(crashed := true);
      return;
    }
    var items := Stream(s.collections.value, collections);
    // the entries the stream is read from exist before the walk, so the walk leaves them alone
    assert forall e :: e in AllEntriesOf(collections) ==> exists c :: c in collections && e in c.entries;
    p := WalkStream(s, start, items, dates, elapsed);
  }
  // Properties of the walk

  /**
   * The time limit was not reached after any processed detail but the last,
   * and the walk is stopped exactly when it was reached after the last one.
   */
  predicate Timed(s: Settings, p: Progress, elapsed: nat -> real)
  {
    && (forall k: nat :: 1 <= k < |p.processed| ==> !ReachedTimeLimit(s.timeLimit, elapsed(k)))
    && (p.stopped <==> |p.processed| > 0 && ReachedTimeLimit(s.timeLimit, elapsed(|p.processed|)))
  }

  lemma AdvanceTimed(s: Settings, p: Progress, item: Item, byTitle: bool, dates: string -> string, elapsed: nat -> real)
    requires Timed(s, p, elapsed)
    ensures Timed(s, Advance(s, p, item, byTitle, dates, elapsed), elapsed)
  {
    if !p.stopped && !p.crashed && item.Visit? && item.detail != null {
      HandleMeaning(s, p, item.detail, dates, elapsed);
    }
  }

  lemma {:induction false} WalkTimed(s: Settings, p: Progress, items: seq<Item>, byTitle: bool,
                                     dates: string -> string, elapsed: nat -> real)
    requires Timed(s, p, elapsed)
    ensures Timed(s, Walk(s, p, items, byTitle, dates, elapsed), elapsed)
    decreases |items|
  {
    if items != [] {
      var pre := items[..|items| - 1];
      WalkTimed(s, p, pre, byTitle, dates, elapsed);
      AdvanceTimed(s, Walk(s, p, pre, byTitle, dates, elapsed), items[|items| - 1], byTitle, dates, elapsed);
    }
  }

  /**
   * The time limit is checked after every processed detail and ends the
   * walk as soon as it is reached. A limit of zero or less counts as reached
   * at once, so at most one detail is processed.
   */
  lemma AllDownloadsTimed(s: Settings, cs: seq<Collection>, details: seq<Detail>, files: set<Path>,
                          dates: string -> string, elapsed: nat -> real)
    ensures Timed(s, AllDownloads(s, cs, details, files, dates, elapsed), elapsed)
    ensures s.timeLimit <= 0 ==> |AllDownloads(s, cs, details, files, dates, elapsed).processed| <= 1
  {
    var start := Progress([], [], files, false, false);
    match s.collections {
      case Some(titles) =>
        if DistinctTitles(cs) {
          StreamReferences(titles, cs);
          WalkTimed(s, start, Stream(titles, cs), true, dates, elapsed);
        }
      case None =>
        CatalogReferences(details);
        WalkTimed(s, start, CatalogItems(details), false, dates, elapsed);
    }
    var p := AllDownloads(s, cs, details, files, dates, elapsed);
    if |p.processed| > 1 {
      assert !ReachedTimeLimit(s.timeLimit, elapsed(1));
    }
  }

  /**
   * What a later state of the walk keeps of an earlier one: the actions
   * taken so far come first, every later action writes a path that did not
   * exist, paths are only added, and none at all in a dry run.
   */
  predicate Grows(s: Settings, p: Progress, q: Progress)
  {
    && |p.actions| <= |q.actions| && q.actions[..|p.actions|] == p.actions
    && (forall k :: |p.actions| <= k < |q.actions| ==> q.actions[k].path !in p.files)
    && p.files <= q.files
    && (s.dryRun ==> q.files == p.files)
  }

  lemma AdvanceGrows(s: Settings, p: Progress, item: Item, byTitle: bool, dates: string -> string, elapsed: nat -> real)
    ensures Grows(s, p, Advance(s, p, item, byTitle, dates, elapsed))
  {
    var q := Advance(s, p, item, byTitle, dates, elapsed);
    if q.actions == p.actions && q.files == p.files {
      assert p.actions[..|p.actions|] == p.actions;
    } else {
      var d := item.detail;
      assert q == Handle(s, p, d, dates, elapsed);
      HandleMeaning(s, p, d, dates, elapsed);
      DetailDownloadsOnce(s, p.files, d, dates(d.CreatedAt));
      GrowsBy(s, p, q, DetailDownloads(s, p.files, d, dates(d.CreatedAt)));
    }
  }

  /** A processed detail's downloads, written out as a growth of the walk's state. */
  lemma GrowsBy(s: Settings, p: Progress, q: Progress, r: Step)
    requires q.actions == p.actions + r.actions && q.files == r.files
    requires p.files <= r.files && (forall a :: a in r.actions ==> a.path !in p.files)
    requires s.dryRun ==> r.files == p.files
    ensures Grows(s, p, q)
  {
    assert q.actions[..|p.actions|] == p.actions;
    forall k | |p.actions| <= k < |q.actions|
      ensures q.actions[k].path !in p.files
    {
      assert q.actions[k] == r.actions[k - |p.actions|];
    }
  }

  lemma {:induction false} WalkGrows(s: Settings, p: Progress, items: seq<Item>, byTitle: bool,
                                     dates: string -> string, elapsed: nat -> real)
    ensures Grows(s, p, Walk(s, p, items, byTitle, dates, elapsed))
    decreases |items|
  {
    if items != [] {
      var pre := items[..|items| - 1];
      var q := Walk(s, p, pre, byTitle, dates, elapsed);
      var r := Walk(s, p, items, byTitle, dates, elapsed);
      WalkGrows(s, p, pre, byTitle, dates, elapsed);
      AdvanceGrows(s, q, items[|items| - 1], byTitle, dates, elapsed);
      assert r.actions[..|q.actions|] == q.actions;
      assert r.actions[..|p.actions|] == q.actions[..|p.actions|];
    }
  }

  /** The whole run never overwrites a file, only adds paths, and adds none in a dry run. */
  lemma AllDownloadsGrows(s: Settings, cs: seq<Collection>, details: seq<Detail>, files: set<Path>,
                          dates: string -> string, elapsed: nat -> real)
    ensures Grows(s, Progress([], [], files, false, false), AllDownloads(s, cs, details, files, dates, elapsed))
  {
    var start := Progress([], [], files, false, false);
    match s.collections
    case Some(titles) =>
      if DistinctTitles(cs) {
        StreamReferences(titles, cs);
        WalkGrows(s, start, Stream(titles, cs), true, dates, elapsed);
      }
    case None =>
      CatalogReferences(details);
      WalkGrows(s, start, CatalogItems(details), false, dates, elapsed);
  }
  predicate Distinct(ds: seq<Detail>)
  {
    forall i, j :: 0 <= i < j < |ds| ==> ds[i] != ds[j]
  }

  /**
   * Where a walk over items ends when nothing stops it: the details it
   * processes, in order, and whether it ends with an exception.
   */
  datatype Outcome = Outcome(seen: seq<Detail>, blocked: bool)

  /**
   * The walk with collection titles, without the time limit: each detail at
   * its first appearance, until a title without a collection or an entry
   * without a detail throws.
   */
  function FirstVisits(items: seq<Item>): (r: Outcome)
    ensures Distinct(r.seen)
    decreases |items|
  {
    if items == [] then Outcome([], false)
    else
      var o := FirstVisits(items[..|items| - 1]);
      var x := items[|items| - 1];
      if o.blocked then o
      else if x.UnknownTitle? || x.detail == null then o.(blocked := true)
      else if x.detail in o.seen then o
      else o.(seen := o.seen + [x.detail])
  }

  /** The walk processed the outcome's details up to where the time limit stopped it. */
  predicate Follows(q: Progress, o: Outcome)
  {
    && |q.processed| <= |o.seen| && o.seen[..|q.processed|] == q.processed
    && (!q.stopped ==> q.processed == o.seen && q.crashed == o.blocked)
  }

  lemma {:induction false} WalkByTitleOrder(s: Settings, p: Progress, items: seq<Item>,
                                            dates: string -> string, elapsed: nat -> real)
    requires p.processed == [] && !p.stopped && !p.crashed
    ensures Follows(Walk(s, p, items, true, dates, elapsed), FirstVisits(items))
    decreases |items|
  {
    if items != [] {
      var pre := items[..|items| - 1];
      var x := items[|items| - 1];
      var q := Walk(s, p, pre, true, dates, elapsed);
      var o := FirstVisits(pre);
      WalkByTitleOrder(s, p, pre, dates, elapsed);
      var o' := FirstVisits(items);
      assert o'.seen[..|o.seen|] == o.seen;
      if !q.stopped && !q.crashed && x.Visit? && x.detail != null && x.detail !in q.processed {
        HandleMeaning(s, q, x.detail, dates, elapsed);
      }
    }
  }

  /** The items of a catalog walk all refer to a detail. */
  predicate NoNulls(items: seq<Item>)
  {
    UnknownTitle !in items && Visit(null) !in items
  }

  /** The details the catalog walk keeps, in order: all of them, or only those in no collection. */
  function KeptItems(s: Settings, items: seq<Item>): seq<Detail>
    reads Referenced(items)
    decreases |items|
  {
    if items == [] then []
    else
      var x := items[|items| - 1];
      ReferencedInit(items);
      KeptItems(s, items[..|items| - 1])
        + (if x.Visit? && x.detail != null && (!s.nonCollections || x.detail.collectionEntries == []) then [x.detail] else [])
  }

  lemma {:induction false} WalkCatalogOrder(s: Settings, p: Progress, items: seq<Item>,
                                            dates: string -> string, elapsed: nat -> real)
    requires p.processed == [] && !p.stopped && !p.crashed
    requires NoNulls(items)
    ensures !Walk(s, p, items, false, dates, elapsed).crashed
    ensures Follows(Walk(s, p, items, false, dates, elapsed), Outcome(KeptItems(s, items), false))
    decreases |items|
  {
    if items != [] {
      var pre := items[..|items| - 1];
      var x := items[|items| - 1];
      var q := Walk(s, p, pre, false, dates, elapsed);
      assert NoNulls(pre) by {
        assert forall y :: y in pre ==> y in items;
      }
      WalkCatalogOrder(s, p, pre, dates, elapsed);
      assert x in items;
      var kept := KeptItems(s, items);
      assert kept[..|KeptItems(s, pre)|] == KeptItems(s, pre);
      if !q.stopped && !(s.nonCollections && x.detail.collectionEntries != []) {
        HandleMeaning(s, q, x.detail, dates, elapsed);
      }
    }
  }

  /**
   * The order of a whole run. With collection titles (each title used by one
   * collection only), the details are processed at their first appearance,
   * none twice; without, the catalog is processed last row first, with or
   * without the details in collections, and nothing throws. Either way the
   * walk gets to the end unless the time limit stops it.
   */
  lemma AllDownloadsOrder(s: Settings, cs: seq<Collection>, details: seq<Detail>, files: set<Path>,
                          dates: string -> string, elapsed: nat -> real)
    ensures var p := AllDownloads(s, cs, details, files, dates, elapsed);
      match s.collections
      case Some(titles) =>
        if DistinctTitles(cs) then Follows(p, FirstVisits(Stream(titles, cs))) && Distinct(p.processed)
        else p.crashed && p.processed == []
      case None =>
        Follows(p, Outcome(KeptItems(s, CatalogItems(details)), false)) && !p.crashed
  {
    var start := Progress([], [], files, false, false);
    var p := AllDownloads(s, cs, details, files, dates, elapsed);
    match s.collections {
      case Some(titles) =>
        if DistinctTitles(cs) {
          StreamReferences(titles, cs);
          WalkByTitleOrder(s, start, Stream(titles, cs), dates, elapsed);
          var seen := FirstVisits(Stream(titles, cs)).seen;
          assert p.processed == seen[..|p.processed|];
        }
      case None =>
        var items := CatalogItems(details);
        CatalogReferences(details);
        assert NoNulls(items);
        WalkCatalogOrder(s, start, items, dates, elapsed);
    }
  }
}
