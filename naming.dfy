/**
 * Where a download goes and what it is called. A request for a detail is
 * made either for one of its collection entries or, for a detail that is in
 * no collection, for no entry at all (null). A detail in a collection is
 * filed in the folder named after the collection of its request's entry, or
 * of its first (primary) entry when the request has none, and its file
 * names start with that entry's index as three zero-padded digits.
 *
 * Paths are sequences of components; `Path.Combine` appends a component.
 * The formatted creation date is passed in as text.
 */
module Naming {
  import opened Wrappers
  import opened Numbers
  import opened Catalog

  type Path = seq<string>

  /** The entry a request is filed under: its own entry, else the detail's first. */
  function Anchor(d: Detail, entry: CollectionEntry?): CollectionEntry?
    reads d
  {
    if entry != null then entry
    else if d.collectionEntries != [] then d.collectionEntries[0]
    else null
  }

  /** The folder of a request: the anchor's collection folder under the root, or the root. */
  function OutputPath(root: Path, d: Detail, entry: CollectionEntry?): Path
    reads d
  {
    if d.collectionEntries != [] then root + [Anchor(d, entry).collection.collectionTitle] else root
  }

  /** The index shown in file names: -1 outside collections, else the anchor's index. */
  function CollectionIndex(d: Detail, entry: CollectionEntry?): int
    reads d
  {
    if d.collectionEntries == [] then -1 else Anchor(d, entry).index
  }

  /** What `AddCollectionIndexPrefix` puts in front of a file name. */
  function IndexPrefix(d: Detail, entry: CollectionEntry?): string
    reads d
  {
    if d.collectionEntries == [] then "" else Format000(CollectionIndex(d, entry)) + "  "
  }

  function AddCollectionIndexPrefix(d: Detail, entry: CollectionEntry?, filename: string): string
    reads d
  {
    IndexPrefix(d, entry) + filename
  }

  /**
   * A request is external when it is made for an entry other than the
   * detail's first one; `First()` throws on an empty list, so a request with
   * an entry needs the detail to have entries.
   */
  predicate IsExternal(d: Detail, entry: CollectionEntry?)
    reads d
    requires entry != null ==> d.collectionEntries != []
  {
    entry != null && d.collectionEntries[0] != entry
  }

  /** The characters the video file name drops from the title. */
  predicate Forbidden(c: char)
  {
    c in "\\/:*?\"'<>|"
  }

  /** The title with every forbidden character removed. */
  function Sanitize(s: string): (r: string)
    ensures |r| <= |s|
    ensures forall k :: 0 <= k < |r| ==> !Forbidden(r[k])
    decreases |s|
  {
    if s == [] then []
    else
      var last := s[|s| - 1];
      Sanitize(s[..|s| - 1]) + (if Forbidden(last) then [] else [last])
  }

  function MetadataFilename(d: Detail, entry: CollectionEntry?, date: string): string
    reads d
    requires entry != null ==> d.collectionEntries != []
  {
    AddCollectionIndexPrefix(d, entry,
      date + "  metadata" + (if IsExternal(d, entry) then " (external)" else "") + ".json")
  }

  function ChatFilename(d: Detail, entry: CollectionEntry?, date: string): string
    reads d
  {
    AddCollectionIndexPrefix(d, entry, date + "  chat.json")
  }

  function VideoFilename(d: Detail, entry: CollectionEntry?, date: string): string
    reads d
  {
    AddCollectionIndexPrefix(d, entry, date + "  " + Sanitize(d.Title) + ".mp4")
  }

  /** A detail in no collection is filed in the root, without index and without prefix. */
  lemma OutsideCollections(root: Path, d: Detail, filename: string)
    requires d.collectionEntries == []
    ensures OutputPath(root, d, null) == root
    ensures CollectionIndex(d, null) == -1
    ensures AddCollectionIndexPrefix(d, null, filename) == filename
  {
  }

  /**
   * A request for one of the detail's entries is filed in that entry's
   * collection folder and numbered with that entry's index.
   */
  lemma FiledUnderOwnEntry(root: Path, d: Detail, e: CollectionEntry)
    requires e in d.collectionEntries
    ensures OutputPath(root, d, e) == root + [e.collection.collectionTitle]
    ensures CollectionIndex(d, e) == e.index
    ensures IndexPrefix(d, e) == Format000(e.index) + "  "
  {
  }

  /**
   * A request without an entry is named and filed exactly like the request
   * for the primary entry, so the paths the downloaders write (built without
   * an entry) are the paths the primary request checks.
   */
  lemma NoEntryIsPrimary(root: Path, d: Detail, date: string)
    requires d.collectionEntries != []
    ensures !IsExternal(d, null) && !IsExternal(d, d.collectionEntries[0])
    ensures OutputPath(root, d, null) == OutputPath(root, d, d.collectionEntries[0])
    ensures CollectionIndex(d, null) == CollectionIndex(d, d.collectionEntries[0])
    ensures MetadataFilename(d, null, date) == MetadataFilename(d, d.collectionEntries[0], date)
    ensures ChatFilename(d, null, date) == ChatFilename(d, d.collectionEntries[0], date)
    ensures VideoFilename(d, null, date) == VideoFilename(d, d.collectionEntries[0], date)
  {
  }

  /** The number of decimal digits a string starts with. */
  function LeadingDigits(s: string): (n: nat)
    ensures n <= |s| && AllDigits(s[..n])
    ensures n < |s| ==> !IsDigit(s[n])
    decreases |s|
  {
    if s == [] || !IsDigit(s[0]) then 0
    else
      var n := 1 + LeadingDigits(s[1..]);
      assert s[..n] == [s[0]] + s[1..][..n - 1];
      n
  }

  /** Reads the index prefix back: at least three digits, then two spaces, then the name. */
  function SplitIndexPrefix(name: string): Option<(nat, string)>
  {
    var n := LeadingDigits(name);
    if 3 <= n && n + 2 <= |name| && name[n..n + 2] == "  " then Some((Value(name[..n]), name[n + 2..]))
    else None
  }

  lemma {:induction false} LeadingDigitsOfPrefixed(x: string, y: string)
    requires AllDigits(x)
    ensures LeadingDigits(x + "  " + y) == |x|
    decreases |x|
  {
    if x != [] {
      assert (x + "  " + y)[1..] == x[1..] + "  " + y;
      LeadingDigitsOfPrefixed(x[1..], y);
    }
  }

  /** "000" followed by two spaces can be read back, with the name after it. */
  lemma SplitFormatted(n: nat, filename: string)
    ensures SplitIndexPrefix(Format000(n) + "  " + filename) == Some((n, filename))
  {
    var x := Format000(n);
    var name := x + "  " + filename;
    Format000RoundTrip(n);
    LeadingDigitsOfPrefixed(x, filename);
    assert name[..|x|] == x;
    assert name[|x|..|x| + 2] == "  ";
    assert name[|x| + 2..] == filename;
  }

  /** The index prefix of a non-negative index can be read back, with the original name. */
  lemma PrefixRoundTrip(d: Detail, entry: CollectionEntry?, filename: string)
    requires d.collectionEntries != [] && CollectionIndex(d, entry) >= 0
    ensures SplitIndexPrefix(AddCollectionIndexPrefix(d, entry, filename)) == Some((CollectionIndex(d, entry), filename))
  {
    SplitFormatted(CollectionIndex(d, entry), filename);
  }

  lemma {:induction false} SanitizeAppend(a: string, b: string)
    ensures Sanitize(a + b) == Sanitize(a) + Sanitize(b)
    decreases |b|
  {
    if b == [] {
      assert a + b == a;
    } else {
      var b' := b[..|b| - 1];
      assert (a + b)[..|a + b| - 1] == a + b';
      SanitizeAppend(a, b');
    }
  }

  /** A title without forbidden characters is kept as it is. */
  lemma {:induction false} SanitizeKeepsClean(s: string)
    requires forall k :: 0 <= k < |s| ==> !Forbidden(s[k])
    ensures Sanitize(s) == s
    decreases |s|
  {
    if s != [] {
      SanitizeKeepsClean(s[..|s| - 1]);
      assert s[..|s| - 1] + [s[|s| - 1]] == s;
    }
  }

  lemma SanitizeIdempotent(s: string)
    ensures Sanitize(Sanitize(s)) == Sanitize(s)
  {
    SanitizeKeepsClean(Sanitize(s));
  }

  /** Every allowed character keeps its number of occurrences; the forbidden ones are gone. */
  lemma {:induction false} SanitizeCounts(s: string, c: char)
    ensures multiset(Sanitize(s))[c] == if Forbidden(c) then 0 else multiset(s)[c]
    decreases |s|
  {
    if s != [] {
      var s' := s[..|s| - 1];
      assert s == s' + [s[|s| - 1]];
      SanitizeCounts(s', c);
    }
  }

  /**
   * The metadata, chat and video files of one request have three different
   * names, so checking one of them for existence says nothing about the others.
   */
  lemma FilenamesDistinct(d: Detail, entry: CollectionEntry?, date: string)
    requires entry != null ==> d.collectionEntries != []
    ensures MetadataFilename(d, entry, date) != ChatFilename(d, entry, date)
    ensures MetadataFilename(d, entry, date) != VideoFilename(d, entry, date)
    ensures ChatFilename(d, entry, date) != VideoFilename(d, entry, date)
  {
    var p := IndexPrefix(d, entry) + date;
    var m := MetadataFilename(d, entry, date);
    var c := ChatFilename(d, entry, date);
    var v := VideoFilename(d, entry, date);
    assert m[|p| + 2] == 'm' && c[|p| + 2] == 'c';
    assert m[|m| - 1] == 'n' && c[|c| - 1] == 'n' && v[|v| - 1] == '4';
  }
}
