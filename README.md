# TwitchVodsRescueCS: the catalog and download core

TwitchVodsRescueCS archives Twitch videos. It reads a catalog of videos, one row per video (a
`Detail`), and a set of collection files. Each collection file lists the collection's entries as
records of seven lines. The program links every collection entry to the video with the same
duration and title. It then walks the catalog and, for every video, creates a metadata file and
asks an external downloader for the chat history and the video. Files that already exist are
skipped, so a run can be interrupted and picked up again. The walk ends once a time limit in
minutes is reached.

This project models that core in Dafny and proves properties of it:

- `line_reader.dfy` (module `LineReader`): the class `VeryStupidParser`. It is a cursor over the
  text of a collection file that hands out the lines and skips blank ones.
- `catalog.dfy` (module `Catalog`): the classes `Detail`, `Collection` and `CollectionEntry`,
  `Detail.Initialize`, and `ReadCollectionFile`.
- `durations.dfy` (module `Durations`): the three regular-expression readers.
  - `Detail.Initialize` reads `[<h>h]<m>m<s>s`.
  - `CollectionEntry.ParseSeconds` reads `m:s` or `h:m:s`.
  - `Detail.GetId` reads the number after the last `/` of the URL.

  Each reader searches for the leftmost match of its pattern, with `\d` read as the ASCII digits
  '0' to '9', does unchecked 32-bit arithmetic and returns `None` where `int.Parse` throws on ASCII text:
  when there is no match, or when a number overflows.
- `numbers.dfy` (module `Numbers`) holds the decimal digits, `int.Parse`, 32-bit wrap-around and
  the `000` format. `wrappers.dfy` holds `Option`.
- `resolution.dfy` (module `Resolution`) and `references.dfy` (module `References`): linking
  entries to details.
  - The link is a `GroupJoin` on the text `"<seconds> <title>"`.
  - Only a unique match links an entry and its detail.
  - Every collection is resolved, even after one has failed.
- `naming.dfy` (module `Naming`): output folders and the three file names of a request.
  - A file name carries the collection index as a `000` prefix.
  - The video file name drops every `\`, `/`, `:`, `*`, `?`, `"`, `'`, `<`, `>` and `|`.
- `downloads.dfy` (module `Downloads`): `ProcessSpecificDownloads` and `ProcessDownloads`.
  - The file system is the set of paths that exist.
  - Every "Creating:" and "Downloading:" decision is recorded as an action.
- `traversal.dfy` (module `Traversal`): `ReachedTimeLimit` and `ProcessAllDownloads`, either by
  collection title or over the whole catalog, last row first.

Two behaviours are modelled as the code is written, although the help text or the option names
promise otherwise:

- **Time limit of zero or less.** `ReachedTimeLimit` treats such a limit as already reached
  (Program.cs:556). So a run with no limit stops after its first processed video. The help text
  of `--time-limit` (Program.cs:143-147) says the opposite: "zero or less means no limit".
  `Traversal.AllDownloadsTimed` proves that such a run processes at most one video.
- **Video download gated on the chat option.** In `ProcessSpecificDownloads`, the video is
  downloaded when `downloadChat` is set (Program.cs:627), and the video option plays no part.
  `Downloads.VideoFollowsChatOption` proves that changing the video option changes nothing.

Where a clock, the formatted date or the file system is involved, the model takes it as a
parameter:

- `elapsed(k)` is the stopwatch reading, in minutes, when the time limit is checked after the
  k-th processed video.
- `dates` turns the created-at text into the formatted date used in file names.
- The file system is a `set<Path>`, where a path is a sequence of components and `Path.Combine`
  appends one.

## Model

| member | source | states |
|---|---|---|
| LineReader.VeryStupidParser.constructor | Program.cs:28-32 | the cursor starts after the leading line breaks, and the lines still to read are all the lines of the text |
| LineReader.VeryStupidParser.SkipBlank | Program.cs:34-38 | the cursor moves to the end of the run of '\n' and '\r' it stands on |
| LineReader.VeryStupidParser.ReadLine | Program.cs:40-48 | returns the characters up to the next line break, or nothing when discarding; the line is non-empty before the end of the file; exactly one line is consumed, and the cursor again stands off a line break |
| LineReader.LinesAreNonEmptyAndUnbroken | Program.cs:34-48 | every line handed out is non-empty and contains no line break |
| LineReader.LinesCoverText | Program.cs:34-48 | the lines joined together are the text with its line breaks removed: nothing but line breaks is lost |
| Catalog.Detail.Initialize | Program.cs:228-236 | succeeds exactly when the duration text parses; `seconds` then holds the parsed value and is otherwise left alone |
| Catalog.CollectionEntry.constructor | Program.cs:263-277 | stores collection, index, title, date and length, starts without a detail, and sets `seconds` to what ParseSeconds reads from the length |
| Catalog.RecordCount | Program.cs:319-330 | the file yields one record per started group of seven lines |
| Catalog.RecordAt | Program.cs:321-329 | record k is read from lines 7k+2, 7k+3 and 7k+4: title, date, length |
| Catalog.ReadCollectionFile | Program.cs:314-332 | returns a collection named after the file exactly when every record's length parses; it has one entry per record, in order, numbered from 1, with the record's title, date, length and seconds |
| Durations.CatalogSecondsOfText | Program.cs:228-234 | "[h]h m m s s" reads as h*3600 + m*60 + s, with the hours defaulting to 0, when the sum fits in 32 bits |
| Durations.HmsTotalExact | Program.cs:234 | the unchecked 32-bit sum equals the exact sum when no overflow occurs |
| Durations.CatalogExample | Program.cs:228-234 | "2m5s" is 125 seconds |
| Durations.EntrySecondsOfMinSec | Program.cs:279-294 | "m:s" reads as m*60 + s |
| Durations.EntrySecondsOfHourMinSec | Program.cs:279-288 | "h:m:s" reads as h*3600 + m*60 + s |
| Durations.EntrySecondsOfTwoFields | Program.cs:289-294 | a match without a third group reads as m*60 + s |
| Durations.EntrySecondsOfThreeFields | Program.cs:282-288 | a match with a third group reads as h*3600 + m*60 + s |
| Durations.EntryExamples | Program.cs:279-295 | "2:05" and "2:06" are 125 and 126 seconds |
| Durations.UrlIdOfPath | Program.cs:238-241 | a URL ending in "/digits" yields the value of those digits, whatever comes before |
| Numbers.ParseInt32RoundTrip | Program.cs:231-233 | `int.Parse` reads back the decimal text of every number up to 2147483647, and overflows on the text of any larger one |
| Numbers.ParseInt32LeadingZero | Program.cs:231-233 | a leading zero changes neither the value `int.Parse` reads nor whether it overflows |
| Numbers.Format000RoundTrip | Program.cs:495 | the "000" format of a non-negative index has at least three digits that read back as the index |
| Resolution.KeyInjective | Program.cs:351-355 | two join keys are equal exactly when their seconds and titles are |
| Resolution.ResolveMeaning | Program.cs:351-372 | a lookup yields the one matching detail when exactly one matches; otherwise every match has a second one beside it |
| Resolution.AllResolveEvery | Program.cs:351-373 | checking the entries one after another finds all resolved exactly when every entry has a unique match |
| Resolution.ResolvedToMembers | Program.cs:371-372 | a detail receives only entries that match it uniquely, and no entry is given to two details |
| Resolution.LinkOfTwice | Program.cs:371 | resolving an entry a second time links nothing new |
| Resolution.ResolveForCollection | Program.cs:348-375 | succeeds exactly when every entry has exactly one matching detail; each such entry is linked to it and the others keep their link; each detail's list gains, in order, the entries resolved to it |
| References.ResolveCollection | Program.cs:380-381 | one turn of the loop: the result stays true only while every entry so far resolves, and the links and lists cover the collection's entries too |
| References.ResolveAll | Program.cs:377-383 | every collection is resolved; the result is true exactly when every entry of every collection has a unique match; links and lists as for one collection, over all entries |
| Naming.OutsideCollections | Program.cs:475-496 | a video in no collection is filed in the output folder, with index -1 and no prefix |
| Naming.FiledUnderOwnEntry | Program.cs:475-496 | a request for one of the video's entries is filed in that entry's collection folder, under that entry's index |
| Naming.NoEntryIsPrimary | Program.cs:475-532 | a request without an entry is named and filed like the request for the first entry, and neither is external |
| Naming.SplitFormatted | Program.cs:491-496 | "000" + two spaces + name can be split back into the number and the name |
| Naming.PrefixRoundTrip | Program.cs:491-496 | the collection index prefix of a non-negative index can be read back, together with the original name |
| Naming.Sanitize | Program.cs:530 | no forbidden character remains, and the name never grows |
| Naming.SanitizeCounts | Program.cs:530 | every allowed character keeps its number of occurrences; forbidden ones are gone |
| Naming.SanitizeAppend | Program.cs:530 | removal works character by character, so the order of the kept characters is kept |
| Naming.SanitizeKeepsClean | Program.cs:530 | a title without forbidden characters is kept as it is |
| Naming.SanitizeIdempotent | Program.cs:530 | sanitising twice is sanitising once |
| Naming.FilenamesDistinct | Program.cs:516-532 | the metadata, chat and video names of a request differ from each other |
| Downloads.PlanWellFormed | Program.cs:604-629 | the three checked paths differ, and a request that is not external checks exactly the paths the downloads write |
| Downloads.ExternalOnlyMetadata | Program.cs:608-620 | an external request only creates its missing metadata file |
| Downloads.PrimaryDecisions | Program.cs:604-629 | a request that is not external creates the metadata when missing, then downloads the chat and then the video when the chat option is set and the file is missing |
| Downloads.VideoFollowsChatOption | Program.cs:622-628 | the video option changes nothing; without the chat option only metadata is created |
| Downloads.DecideWrites | Program.cs:604-629 | no existing file is written; outside a dry run exactly the written paths are added, and in a dry run none |
| Downloads.SettledIsQuiet | Program.cs:604-629 | a request whose files all exist does nothing |
| Downloads.DecideSettles | Program.cs:604-629 | outside a dry run, one pass leaves all of the request's files in place |
| Downloads.VideoLastInRequest | Program.cs:622-628 | within one request the video download is the last action |
| Downloads.RequestsOrder | Program.cs:592-602 | a video in no collection gets one request without an entry; otherwise one request per entry, last entry first, and only the last request (the first entry) is not external |
| Downloads.DryRunWritesNothing | Program.cs:612-616 | in a dry run the requests leave the file system as it was |
| Downloads.RunWrites | Program.cs:600-601 | requests in sequence only add files, keep earlier actions and never write a file that existed before |
| Downloads.RunSettles | Program.cs:600-601 | outside a dry run, every request is settled after the sequence |
| Downloads.SettledRunIsQuiet | Program.cs:600-601 | settled requests do nothing |
| Downloads.NoVideoWhileExternal | Program.cs:619-620 | external requests never download a video |
| Downloads.VideoLastInRun | Program.cs:599-601 | when every request but the last is external, a video download can only be the very last action |
| Downloads.PlansWellFormed | Program.cs:604-629 | every request of a video checks distinct paths, and the ones it writes |
| Downloads.DetailDownloadsOnce | Program.cs:592-629 | a video's downloads only add files and never overwrite one; a dry run leaves the files unchanged; otherwise a second run does nothing |
| Downloads.DetailVideoLast | Program.cs:599-601 | the video is downloaded after all external metadata files and the chat |
| Downloads.ProcessDownloads | Program.cs:592-602 | the loop over the entries in reverse computes the actions and files of the specification |
| Traversal.FindTitle | Program.cs:563-566 | the dictionary lookup finds a collection with the title, or shows that none has it |
| Traversal.EntryItems | Program.cs:565-566 | a collection's entries give their details, in order |
| Traversal.CatalogItemsAppend | Program.cs:578 | the reversed walk turns a catalog `ds + es` into the walk of `es` followed by the walk of `ds` |
| Traversal.CatalogItemsSnoc | Program.cs:578 | the last catalog row is the first one visited, and the rows before it follow in reverse |
| Traversal.StreamReferences | Program.cs:564-566 | by title, the walk meets only the details of the chosen collections' entries |
| Traversal.CatalogReferences | Program.cs:578 | over the catalog, the walk meets only catalog rows |
| Traversal.WalkHalted | Program.cs:572-573 | after the break, nothing else is processed |
| Traversal.WalkEndsEarly | Program.cs:572-573 | a walk that stops on a prefix of its items ends there |
| Traversal.ProcessOne | Program.cs:570-572 | processes one video: it is appended to the processed ones and nothing throws |
| Traversal.VisitByTitle | Program.cs:567-573 | a video met before is skipped, a missing detail throws, any other is processed and marked visited |
| Traversal.WalkStream | Program.cs:564-574 | the loop over the collections' entries computes the walk of the specification |
| Traversal.WalkCatalog | Program.cs:578-586 | the loop over the catalog, last row first, computes the walk of the specification and skips videos in collections when only those outside are wanted |
| Traversal.ProcessAllDownloads | Program.cs:559-590 | the whole traversal computes its specification: the walk by title, or over the catalog, or the exception of a duplicate collection title |
| Traversal.AdvanceTimed | Program.cs:554-557 | one step keeps the timing invariant |
| Traversal.WalkTimed | Program.cs:570-573 | no processed video but the last reached the time limit, and the walk is stopped exactly when the last one did |
| Traversal.AllDownloadsTimed | Program.cs:554-590 | the run stops exactly when the time limit is reached after a processed video; with a limit of zero or less, at most one video is processed |
| Traversal.AdvanceGrows | Program.cs:570-572 | one step only adds files and actions, writing only paths that did not exist |
| Traversal.WalkGrows | Program.cs:564-586 | the walk keeps earlier actions, adds only new paths, and none in a dry run |
| Traversal.AllDownloadsGrows | Program.cs:559-590 | the whole run never overwrites a file and writes nothing in a dry run |
| Traversal.FirstVisits | Program.cs:564-573 | without the time limit, the walk by title visits distinct videos, each at its first appearance |
| Traversal.WalkByTitleOrder | Program.cs:564-573 | the walk by title processes a prefix of the first appearances, and all of them, with the same exception, unless stopped |
| Traversal.WalkCatalogOrder | Program.cs:578-586 | the catalog walk never throws and processes a prefix of the kept rows, and all of them unless stopped |
| Traversal.AllDownloadsOrder | Program.cs:559-590 | by title: first appearances in order, no video twice, and a duplicate collection title throws before anything; over the catalog: kept rows last first, and nothing throws |

## Left out

- Command-line parsing, the `Options` class and its binder, reading the videos CSV file, the
  configuration folder and the JSON metadata contents: these are I/O and library code.
  - The options are a `Settings` value.
  - The catalog is a sequence of `Detail` objects.
- `DateTime.Parse` and `FormatDate`: date parsing and formatting are library code. The formatted
  date is a parameter. `Detail.Initialize` therefore only models `seconds`.
- Launching the external downloader, its exit codes and the "failed to start" exceptions: this
  is process I/O. A download is an action that, outside a dry run, creates its target path.
- Downloads.Decide: does not model the exception of `Detail.GetId` (Program.cs:238-241). The
  id is read when the metadata file is written (Program.cs:546, 615) and when the chat is
  downloaded (Program.cs:645), both only outside a dry run. A URL that does not end in "/digits",
  or an id above 2147483647, makes that write throw and aborts the whole run there; the model
  records the action and carries on. `Durations.UrlId` models when the id parses.
- Durations.CatalogSeconds, Durations.EntrySeconds and Durations.UrlId: model `\d` as the ASCII
  digits only. .NET's `\d` also matches the other Unicode decimal digits, on which `int.Parse`
  then throws; for text holding such digits the readers can return a value where the program
  throws, or match elsewhere.
- The concurrent video finalisation tasks, the wait handles and the drain loop at the end of
  `ProcessAllDownloads` (Program.cs:588-589): these are threading.
- The console listings (`ListCollections`, `ListDuplicateTitles`, `ListVideos`) and
  `GetCollectionPrefixForPrinting`: they only print.
- The stopwatch: it is the `elapsed` parameter.
- `Path.Combine` rules for rooted components and `Path.GetFileNameWithoutExtension`: the
  collection title is given.
- Catalog.CollectionEntry.constructor: requires the length to parse.
  - The exception for a length that does not parse is modelled one level up, where
    `ReadCollectionFile` returns `None`.
- Naming.IsExternal: requires a video with a request entry to have entries. This is where
  `First()` would throw, and the model's requests never reach that case.
- Downloads.DetailVideoLast and Downloads.RequestsOrder: require a video's entries to be distinct objects. Resolution adds
  each entry once, but that is not carried over into the download model.
- Downloads.ProcessSpecificDownloads is a function over the path set, not a method. Its console
  output is recorded as actions.
- Resolution.ResolveForCollection: the error messages written to standard error are not
  modelled. Only the result and the links are.
- Catalog.ReadCollectionFile: does not state that the new entries start without a detail. The
  entry constructor states it.
