/**
 * The catalog: one `Detail` per archived video (a row of the videos CSV
 * file), the collections read from the collection files, and their
 * entries. `Detail.seconds` is set once by `Initialize`; `collectionEntries`
 * and `CollectionEntry.detail` are filled in later by reference resolution.
 */
module Catalog {
  import opened Wrappers
  import opened Durations
  import opened LineReader

  class Detail {
    const URL: string
    const Title: string
    const Type: string
    const ViewCount: int
    const Duration: string
    /** The creation time, treated as already formatted text. */
    const CreatedAt: string
    var seconds: int
    var collectionEntries: seq<CollectionEntry>

    constructor (url: string, title: string, kind: string, viewCount: int, duration: string, createdAt: string)
      ensures URL == url && Title == title && Type == kind && ViewCount == viewCount
      ensures Duration == duration && CreatedAt == createdAt
      ensures seconds == 0 && collectionEntries == []
    {
      URL, Title, Type, ViewCount := url, title, kind, viewCount;
      Duration, CreatedAt := duration, createdAt;
      seconds, collectionEntries := 0, [];
    }

    /**
     * Reads the duration text "[<h>h]<m>m<s>s" into `seconds`; false is the
     * FormatException or OverflowException of `int.Parse`, which ends the run.
     */
    method Initialize() returns (ok: bool)
      modifies this`seconds
      ensures ok <==> CatalogSeconds(Duration).Some?
      ensures seconds == if ok then CatalogSeconds(Duration).value else old(seconds)
    {
      var r := CatalogSeconds(Duration);
      ok := r.Some?;
      if ok {
        seconds := r.value;
      }
    }

    /** The numeric id at the end of the URL; None when `int.Parse` throws. */
    function GetId(): Option<int>
    {
      UrlId(URL)
    }
  }

  class Collection {
    const collectionTitle: string
    var entries: seq<CollectionEntry>

    constructor (title: string)
      ensures collectionTitle == title && entries == []
    {
      collectionTitle := title;
      entries := [];
    }
  }

  class CollectionEntry {
    const collection: Collection
    /** One-based position in the collection. */
    const index: int
    const title: string
    const date: string
    const length: string
    /** What `ParseSeconds` computes from `length` when the entry is built. */
    const seconds: int
    var detail: Detail?

    constructor (collection: Collection, index: int, title: string, date: string, length: string)
      requires EntrySeconds(length).Some?
      ensures this.collection == collection && this.index == index
      ensures this.title == title && this.date == date && this.length == length
      ensures seconds == EntrySeconds(length).value && detail == null
    {
      this.collection := collection;
      this.index := index;
      this.title := title;
      this.date := date;
      this.length := length;
      seconds := EntrySeconds(length).value;
      detail := null;
    }
  }

  /** The lines of a collection file, as the line reader hands them out. */
  function FileLines(content: string): seq<string>
  {
    Lines(content, BlankEnd(content, 0))
  }

  /** The three lines of a 7-line record that an entry keeps. */
  datatype Record = Record(title: string, date: string, length: string)

  /**
   * The records of a collection file: lines 3 to 5 of every group of 7 lines;
   * the last group may be short, and a missing line reads as "".
   */
  function Records(ls: seq<string>): seq<Record>
    decreases |ls|
  {
    if ls == [] then [] else [Record(LineAt(ls, 2), LineAt(ls, 3), LineAt(ls, 4))] + Records(Drop(ls, 7))
  }

  /** There is one record per started group of 7 lines. */
  lemma {:induction false} RecordCount(ls: seq<string>)
    ensures |Records(ls)| == (|ls| + 6) / 7
    decreases |ls|
  {
    if ls != [] {
      RecordCount(Drop(ls, 7));
    }
  }

  /** Record k is made of lines 7k+2, 7k+3 and 7k+4. */
  lemma {:induction false} RecordAt(ls: seq<string>, k: nat)
    requires k < |Records(ls)|
    ensures Records(ls)[k] == Record(LineAt(ls, 7 * k + 2), LineAt(ls, 7 * k + 3), LineAt(ls, 7 * k + 4))
    decreases k
  {
    if k > 0 {
      var rest := Drop(ls, 7);
      assert Records(ls)[k] == Records(rest)[k - 1];
      RecordAt(rest, k - 1);
      DropLineAt(ls, 7, 7 * (k - 1) + 2);
      DropLineAt(ls, 7, 7 * (k - 1) + 3);
      DropLineAt(ls, 7, 7 * (k - 1) + 4);
    }
  }

  /** Every record's entry duration parses, so that building the entries cannot throw. */
  predicate AllLengthsParse(rs: seq<Record>)
  {
    forall k :: 0 <= k < |rs| ==> EntrySeconds(rs[k].length).Some?
  }

  /** The entries hold the records in order, numbered from 1, all in collection c. */
  predicate EntriesOf(c: Collection, es: seq<CollectionEntry>, rs: seq<Record>)
  {
    |es| <= |rs| &&
    forall k :: 0 <= k < |es| ==>
      es[k].collection == c && es[k].index == k + 1 &&
      es[k].title == rs[k].title && es[k].date == rs[k].date && es[k].length == rs[k].length &&
      EntrySeconds(rs[k].length) == Some(es[k].seconds)
  }

  /** Lines 1 to 5 of a record: two discarded, then the title, the date and the length. */
  method ReadRecordHead(parser: VeryStupidParser) returns (rec: Record)
    requires parser.Valid()
    modifies parser
    ensures parser.Valid()
    ensures parser.index > old(parser.index) || old(parser.EndOfFile())
    ensures parser.Remaining() == Drop(old(parser.Remaining()), 5)
    ensures rec == Record(LineAt(old(parser.Remaining()), 2), LineAt(old(parser.Remaining()), 3),
      LineAt(old(parser.Remaining()), 4))
  {
    ghost var ls := parser.Remaining();
    var _ := parser.ReadLine(true);
    DropStep(ls, 0);
    var _ := parser.ReadLine(true);
    DropStep(ls, 1);
    var title := parser.ReadLine(false);
    DropStep(ls, 2);
    var date := parser.ReadLine(false);
    DropStep(ls, 3);
    var length := parser.ReadLine(false);
    DropStep(ls, 4);
    rec := Record(title.value, date.value, length.value);
  }

  /** Lines 6 and 7 of a record, both discarded. */
  method SkipRecordTail(parser: VeryStupidParser)
    requires parser.Valid()
    modifies parser
    ensures parser.Valid() && parser.index >= old(parser.index)
    ensures parser.Remaining() == Drop(old(parser.Remaining()), 2)
  {
    ghost var ls := parser.Remaining();
    var _ := parser.ReadLine(true);
    DropStep(ls, 0);
    var _ := parser.ReadLine(true);
    DropStep(ls, 1);
  }

  /**
   * What the reader has done after the first records of a file: it stands
   * just past them, and they are the entries read so far.
   */
  ghost predicate ReadSoFar(parser: VeryStupidParser, c: Collection, entries: seq<CollectionEntry>,
    lines: seq<string>, rs: seq<Record>)
    reads parser
  {
    parser.Valid() && rs == Records(lines) &&
    parser.Remaining() == Drop(lines, 7 * |entries|) &&
    EntriesOf(c, entries, rs)
  }

  /**
   * Reads one 7-line record and appends its entry; false is the exception
   * the entry constructor throws for a length that does not parse.
   */
  method ReadEntry(parser: VeryStupidParser, c: Collection, entries: seq<CollectionEntry>,
    ghost lines: seq<string>, ghost rs: seq<Record>) returns (entry: CollectionEntry?)
    requires ReadSoFar(parser, c, entries, lines, rs) && !parser.EndOfFile()
    modifies parser
    ensures parser.index > old(parser.index)
    ensures entry == null ==> !AllLengthsParse(rs)
    ensures entry != null ==> fresh(entry) && ReadSoFar(parser, c, entries + [entry], lines, rs)
  {
    var n := |entries|;
    ghost var r0 := parser.Remaining();
    assert 7 * n < |lines| by {
      assert r0 != [];
    }
    var rec := ReadRecordHead(parser);
    ghost var r1 := parser.Remaining();
    RecordFromRest(lines, n);
    assert rec == rs[n];
    if EntrySeconds(rec.length).None? {
      assert EntrySeconds(rs[n].length).None?;
      return null;
    }
    entry := new CollectionEntry(c, n + 1, rec.title, rec.date, rec.length);
    EntriesOfAppend(c, entries, rs, entry);
    SkipRecordTail(parser);
    ghost var r2 := parser.Remaining();
    ghost var grown := entries + [entry];
    NextRecord(lines, n, r0, r1, r2, 7 * |grown|);
    ReadSoFarOf(parser, c, grown, lines, rs);
  }

  /** Five lines and then two more take the reader from one record to the next. */
  lemma NextRecord(lines: seq<string>, n: nat, r0: seq<string>, r1: seq<string>, r2: seq<string>, m: nat)
    requires r0 == Drop(lines, 7 * n) && r1 == Drop(r0, 5) && r2 == Drop(r1, 2) && m == 7 * n + 7
    ensures r2 == Drop(lines, m)
  {
    DropDrop(lines, 7 * n, 5);
    DropDrop(lines, 7 * n + 5, 2);
  }

  lemma ReadSoFarOf(parser: VeryStupidParser, c: Collection, entries: seq<CollectionEntry>,
    lines: seq<string>, rs: seq<Record>)
    requires parser.Valid() && rs == Records(lines)
    requires parser.Remaining() == Drop(lines, 7 * |entries|)
    requires EntriesOf(c, entries, rs)
    ensures ReadSoFar(parser, c, entries, lines, rs)
  {
  }

  /**
   * Builds the collection named `title` from the text of its file, one entry
   * per 7-line record. None is the exception the entry constructor throws
   * for a length that does not parse.
   */
  method ReadCollectionFile(title: string, content: string) returns (r: Option<Collection>)
    ensures r.Some? <==> AllLengthsParse(Records(FileLines(content)))
    ensures r.Some? ==> fresh(r.value) && r.value.collectionTitle == title
    ensures r.Some? ==> |r.value.entries| == |Records(FileLines(content))|
    ensures r.Some? ==> EntriesOf(r.value, r.value.entries, Records(FileLines(content)))
    ensures r.Some? ==> forall e :: e in r.value.entries ==> fresh(e)
  {
    var collection := new Collection(title);
    var parser := new VeryStupidParser(content);
    ghost var lines := parser.Remaining();
    ghost var rs := Records(lines);
    assert rs == Records(FileLines(content));
    var entries: seq<CollectionEntry> := [];
    while !parser.EndOfFile()
      invariant parser.content == content
      invariant ReadSoFar(parser, collection, entries, lines, rs)
      invariant forall e :: e in entries ==> fresh(e)
      decreases |content| - parser.index
    {
      var entry := ReadEntry(parser, collection, entries, lines, rs);
      if entry == null {
        return None;
      }
      entries := entries + [entry];
    }
    assert |entries| == |rs| by {
      RecordCount(lines);
    }
    collection.entries := entries;
    r := Some(collection);
  }

  lemma EntriesOfAppend(c: Collection, es: seq<CollectionEntry>, rs: seq<Record>, e: CollectionEntry)
    requires EntriesOf(c, es, rs) && |es| < |rs|
    requires e.collection == c && e.index == |es| + 1
    requires e.title == rs[|es|].title && e.date == rs[|es|].date && e.length == rs[|es|].length
    requires EntrySeconds(e.length) == Some(e.seconds)
    ensures EntriesOf(c, es + [e], rs)
  {
    var es' := es + [e];
    forall k | 0 <= k < |es'|
      ensures es'[k].collection == c && es'[k].index == k + 1
      ensures es'[k].title == rs[k].title && es'[k].date == rs[k].date && es'[k].length == rs[k].length
      ensures EntrySeconds(rs[k].length) == Some(es'[k].seconds)
    {
      if k < |es| { assert es'[k] == es[k]; }
    }
  }

  /** The lines after record n start with that record. */
  lemma RecordFromRest(lines: seq<string>, n: nat)
    requires 7 * n < |lines|
    ensures n < |Records(lines)|
    ensures Records(lines)[n] ==
      Record(LineAt(Drop(lines, 7 * n), 2), LineAt(Drop(lines, 7 * n), 3), LineAt(Drop(lines, 7 * n), 4))
  {
    RecordCount(lines);
    RecordAt(lines, n);
    DropLineAt(lines, 7 * n, 2);
    DropLineAt(lines, 7 * n, 3);
    DropLineAt(lines, 7 * n, 4);
  }
}
