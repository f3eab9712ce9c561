/**
 * What one detail's downloads do. A request (a detail with one of its
 * entries, or with none) creates the metadata file when it is missing and,
 * unless the request is external, downloads the chat history and the video
 * when they are missing. A detail's requests are its entries in reverse
 * order, so the external metadata files come first and the video of the
 * primary entry comes very last.
 *
 * The file system is the set of paths that exist. Every decision is also
 * recorded as an `Action` (the "Creating:" and "Downloading:" lines); with
 * a dry run nothing is written, so the set of paths stays as it was.
 */
module Downloads {
  import opened Wrappers
  import opened Catalog
  import opened Naming

  /**
   * The command-line options the download decisions depend on. The program
   * turns an empty list of collection titles into null (Program.cs:69), so
   * `collections == Some([])` does not arise from the command line.
   */
  datatype Settings = Settings(outputDir: Path, downloadVideo: bool, downloadChat: bool, dryRun: bool,
                               timeLimit: int, nonCollections: bool, collections: Option<seq<string>>)

  /** A file created or downloaded, with the path it is written to. */
  datatype Action = CreateMetadata(path: Path) | DownloadChat(path: Path) | DownloadVideo(path: Path)

  /** The actions taken so far and the paths that exist afterwards. */
  datatype Step = Step(actions: seq<Action>, files: set<Path>)

  /**
   * The paths one request works with: the three paths it checks, whether it
   * is external, and the two paths the downloaders write, which they build
   * for the detail without an entry.
   */
  datatype Plan = Plan(metadata: Path, external: bool, chat: Path, video: Path, chatTarget: Path, videoTarget: Path)

  /**
   * The plan of a request. The body sits `depth` calls deep so that the
   * file names are spelled out only where a proof asks for them through
   * PlanPaths.
   */
  function PlanOf(root: Path, d: Detail, entry: CollectionEntry?, date: string, depth: nat := 2): Plan
    reads d
    requires entry != null ==> d.collectionEntries != []
    decreases depth
  {
    if depth == 0 then
      var dir := OutputPath(root, d, entry);
      Plan(dir + [MetadataFilename(d, entry, date)], IsExternal(d, entry),
           dir + [ChatFilename(d, entry, date)], dir + [VideoFilename(d, entry, date)],
           OutputPath(root, d, null) + [ChatFilename(d, null, date)],
           OutputPath(root, d, null) + [VideoFilename(d, null, date)])
    else
      PlanOf(root, d, entry, date, depth - 1)
  }

  /** A request checks its files in its own folder and writes the downloads where the entry-less request would. */
  lemma PlanPaths(root: Path, d: Detail, entry: CollectionEntry?, date: string)
    requires entry != null ==> d.collectionEntries != []
    ensures var p := PlanOf(root, d, entry, date);
      var dir := OutputPath(root, d, entry);
      && p.metadata == dir + [MetadataFilename(d, entry, date)]
      && p.external == IsExternal(d, entry)
      && p.chat == dir + [ChatFilename(d, entry, date)]
      && p.video == dir + [VideoFilename(d, entry, date)]
      && p.chatTarget == OutputPath(root, d, null) + [ChatFilename(d, null, date)]
      && p.videoTarget == OutputPath(root, d, null) + [VideoFilename(d, null, date)]
  {
    assert PlanOf(root, d, entry, date) == PlanOf(root, d, entry, date, 1);
    assert PlanOf(root, d, entry, date, 1) == PlanOf(root, d, entry, date, 0);
  }

  /** The three checked paths differ, and a request that is not external checks what it writes. */
  predicate WellFormed(p: Plan)
  {
    && p.metadata != p.chat && p.metadata != p.video && p.chat != p.video
    && (!p.external ==> p.chatTarget == p.chat && p.videoTarget == p.video)
  }

  lemma PlanWellFormed(root: Path, d: Detail, entry: CollectionEntry?, date: string)
    requires entry != null ==> d.collectionEntries != []
    ensures WellFormed(PlanOf(root, d, entry, date))
  {
    FilenamesDistinct(d, entry, date);
    PlanPaths(root, d, entry, date);
    var p := PlanOf(root, d, entry, date);
    var n := |OutputPath(root, d, entry)|;
    assert p.metadata[n] == MetadataFilename(d, entry, date);
    assert p.chat[n] == ChatFilename(d, entry, date);
    assert p.video[n] == VideoFilename(d, entry, date);
    if d.collectionEntries != [] {
      NoEntryIsPrimary(root, d, date);
    }
  }

  /** Records an action; outside a dry run its file exists afterwards. */
  function Perform(s: Settings, st: Step, a: Action): Step
  {
    Step(st.actions + [a], if s.dryRun then st.files else st.files + {a.path})
  }

  /**
   * The decisions of one request. Note that the video is downloaded when the
   * chat option is set: the video option plays no part.
   */
  function Decide(s: Settings, files: set<Path>, p: Plan): Step
  {
    var made := if p.metadata in files then Step([], files) else Perform(s, Step([], files), CreateMetadata(p.metadata));
    if p.external then made
    else
      var withChat := if s.downloadChat && p.chat !in made.files then Perform(s, made, DownloadChat(p.chatTarget)) else made;
      if s.downloadChat && p.video !in withChat.files then Perform(s, withChat, DownloadVideo(p.videoTarget)) else withChat
  }

  function ProcessSpecificDownloads(s: Settings, files: set<Path>, d: Detail, entry: CollectionEntry?, date: string): Step
    reads d
    requires entry != null ==> d.collectionEntries != []
  {
    Decide(s, files, PlanOf(s.outputDir, d, entry, date))
  }

  /** The paths written by a list of actions. */
  function Written(actions: seq<Action>): set<Path>
  {
    set a | a in actions :: a.path
  }

  /** An external request does nothing beyond creating its missing metadata file. */
  lemma ExternalOnlyMetadata(s: Settings, files: set<Path>, p: Plan)
    requires p.external
    ensures Decide(s, files, p).actions == if p.metadata in files then [] else [CreateMetadata(p.metadata)]
  {
  }

  /**
   * A request that is not external creates the metadata file exactly when
   * it is missing, and downloads the chat history and the video exactly when
   * the chat option is set and the file is missing, in that order.
   */
  lemma PrimaryDecisions(s: Settings, files: set<Path>, p: Plan)
    requires WellFormed(p) && !p.external
    ensures Decide(s, files, p).actions ==
      (if p.metadata in files then [] else [CreateMetadata(p.metadata)]) +
      (if s.downloadChat && p.chat !in files then [DownloadChat(p.chat)] else []) +
      (if s.downloadChat && p.video !in files then [DownloadVideo(p.video)] else [])
  {
  }

  /** The video option has no effect, and without the chat option nothing is downloaded. */
  lemma VideoFollowsChatOption(s: Settings, files: set<Path>, p: Plan, b: bool)
    ensures Decide(s.(downloadVideo := b), files, p) == Decide(s, files, p)
    ensures !s.downloadChat ==> forall a :: a in Decide(s, files, p).actions ==> a.CreateMetadata?
  {
  }

  /**
   * No existing file is written again; outside a dry run exactly the written
   * files are added, and in a dry run the file system is unchanged.
   */
  lemma DecideWrites(s: Settings, files: set<Path>, p: Plan)
    requires WellFormed(p)
    ensures var r := Decide(s, files, p);
      && (forall a :: a in r.actions ==> a.path !in files)
      && r.files == if s.dryRun then files else files + Written(r.actions)
  {
  }

  /** A request whose checked files all exist has nothing left to do. */
  predicate Settled(s: Settings, files: set<Path>, p: Plan)
  {
    p.metadata in files && (!p.external && s.downloadChat ==> p.chat in files && p.video in files)
  }

  lemma SettledIsQuiet(s: Settings, files: set<Path>, p: Plan)
    requires Settled(s, files, p)
    ensures Decide(s, files, p) == Step([], files)
  {
  }

  /** Outside a dry run, one pass settles the request. */
  lemma DecideSettles(s: Settings, files: set<Path>, p: Plan)
    requires WellFormed(p) && !s.dryRun
    ensures Settled(s, Decide(s, files, p).files, p)
  {
  }

  /** Within one request, a video download is the last action. */
  lemma VideoLastInRequest(s: Settings, files: set<Path>, p: Plan)
    ensures VideoLast(Decide(s, files, p).actions)
  {
  }

  /**
   * The requests of a detail: one without an entry when it is in no
   * collection, else one per entry, last entry first.
   */
  function Requests(d: Detail): (r: seq<CollectionEntry?>)
    reads d
    ensures |r| > 0
    ensures forall i :: 0 <= i < |r| && r[i] != null ==> d.collectionEntries != []
  {
    var es := d.collectionEntries;
    if es == [] then [null] else seq(|es|, i requires 0 <= i < |es| => es[|es| - 1 - i])
  }

  /** The entries of a detail are distinct objects (resolution adds each entry once). */
  predicate DistinctEntries(d: Detail)
    reads d
  {
    forall i, j :: 0 <= i < j < |d.collectionEntries| ==> d.collectionEntries[i] != d.collectionEntries[j]
  }

  /**
   * A detail without entries gets one request without an entry; otherwise
   * every entry is requested, in reverse, and the primary entry, the only
   * request that is not external, comes last.
   */
  lemma RequestsOrder(d: Detail)
    requires DistinctEntries(d)
    ensures d.collectionEntries == [] ==> Requests(d) == [null]
    ensures d.collectionEntries != [] ==>
      && |Requests(d)| == |d.collectionEntries|
      && (forall i :: 0 <= i < |Requests(d)| ==> Requests(d)[i] == d.collectionEntries[|d.collectionEntries| - 1 - i])
      && Requests(d)[|Requests(d)| - 1] == d.collectionEntries[0]
    ensures forall i :: 0 <= i < |Requests(d)| ==> (IsExternal(d, Requests(d)[i]) <==> i < |Requests(d)| - 1)
  {
    var r := Requests(d);
    var es := d.collectionEntries;
    forall i | 0 <= i < |r|
      ensures IsExternal(d, r[i]) <==> i < |r| - 1
    {
      if es != [] && i < |r| - 1 {
        assert r[i] == es[|es| - 1 - i] && |es| - 1 - i != 0;
      }
    }
  }

  /** The plans of a list of requests. */
  function PlansOf(root: Path, d: Detail, reqs: seq<CollectionEntry?>, date: string): (r: seq<Plan>)
    reads d
    requires forall i :: 0 <= i < |reqs| && reqs[i] != null ==> d.collectionEntries != []
    ensures |r| == |reqs|
    ensures forall i :: 0 <= i < |reqs| ==> r[i] == PlanOf(root, d, reqs[i], date)
    decreases |reqs|
  {
    if reqs == [] then []
    else
      var pre := reqs[..|reqs| - 1];
      assert forall i :: 0 <= i < |pre| ==> pre[i] == reqs[i];
      PlansOf(root, d, pre, date) + [PlanOf(root, d, reqs[|reqs| - 1], date)]
  }

  /** Requests taken in order from a starting state, each seeing the files the earlier ones left. */
  function RunPlans(s: Settings, st: Step, plans: seq<Plan>): Step
    decreases |plans|
  {
    if plans == [] then st
    else
      var before := RunPlans(s, st, plans[..|plans| - 1]);
      var r := Decide(s, before.files, plans[|plans| - 1]);
      Step(before.actions + r.actions, r.files)
  }

  /** What `ProcessDownloads` does for one detail. */
  function DetailDownloads(s: Settings, files: set<Path>, d: Detail, date: string): Step
    reads d
  {
    RunPlans(s, Step([], files), PlansOf(s.outputDir, d, Requests(d), date))
  }

  /** In a dry run no request writes anything. */
  lemma {:induction false} DryRunWritesNothing(s: Settings, st: Step, plans: seq<Plan>)
    requires s.dryRun
    ensures RunPlans(s, st, plans).files == st.files
    decreases |plans|
  {
    if plans != [] {
      DryRunWritesNothing(s, st, plans[..|plans| - 1]);
    }
  }

  /**
   * Files are only ever added, the earlier actions stay as they were, and no
   * new action writes a file that existed before the requests ran.
   */
  lemma {:induction false} RunWrites(s: Settings, st: Step, plans: seq<Plan>)
    requires forall i :: 0 <= i < |plans| ==> WellFormed(plans[i])
    ensures st.files <= RunPlans(s, st, plans).files
    ensures Extends(st, RunPlans(s, st, plans))
    decreases |plans|
  {
    if plans != [] {
      var pre := plans[..|plans| - 1];
      RunWrites(s, st, pre);
      var before := RunPlans(s, st, pre);
      var r := Decide(s, before.files, plans[|plans| - 1]);
      DecideWrites(s, before.files, plans[|plans| - 1]);
      var after := RunPlans(s, st, plans);
      forall k | |st.actions| <= k < |after.actions|
        ensures after.actions[k].path !in st.files
      {
        if k >= |before.actions| {
          assert after.actions[k] == r.actions[k - |before.actions|];
        } else {
          assert after.actions[k] == before.actions[k];
        }
      }
    }
  }

  /** The later step keeps the earlier actions and adds only actions on files the earlier step did not have. */
  predicate Extends(st: Step, r: Step)
  {
    && |st.actions| <= |r.actions| && r.actions[..|st.actions|] == st.actions
    && forall k :: |st.actions| <= k < |r.actions| ==> r.actions[k].path !in st.files
  }

  lemma SettledGrows(s: Settings, f: set<Path>, g: set<Path>, p: Plan)
    requires Settled(s, f, p) && f <= g
    ensures Settled(s, g, p)
  {
  }

  /** Outside a dry run, after the requests have run every one of them is settled. */
  lemma {:induction false} RunSettles(s: Settings, st: Step, plans: seq<Plan>)
    requires !s.dryRun
    requires forall i :: 0 <= i < |plans| ==> WellFormed(plans[i])
    ensures forall i :: 0 <= i < |plans| ==> Settled(s, RunPlans(s, st, plans).files, plans[i])
    decreases |plans|
  {
    if plans != [] {
      var pre := plans[..|plans| - 1];
      var last := plans[|plans| - 1];
      RunSettles(s, st, pre);
      var before := RunPlans(s, st, pre);
      var after := RunPlans(s, st, plans);
      DecideWrites(s, before.files, last);
      DecideSettles(s, before.files, last);
      forall i | 0 <= i < |plans|
        ensures Settled(s, after.files, plans[i])
      {
        if i < |pre| {
          assert pre[i] == plans[i];
          SettledGrows(s, before.files, after.files, plans[i]);
        }
      }
    }
  }

  /** Requests that are all settled do nothing. */
  lemma {:induction false} SettledRunIsQuiet(s: Settings, files: set<Path>, plans: seq<Plan>)
    requires forall i :: 0 <= i < |plans| ==> Settled(s, files, plans[i])
    ensures RunPlans(s, Step([], files), plans) == Step([], files)
    decreases |plans|
  {
    if plans != [] {
      SettledRunIsQuiet(s, files, plans[..|plans| - 1]);
      SettledIsQuiet(s, files, plans[|plans| - 1]);
    }
  }

  predicate NoVideo(acts: seq<Action>)
  {
    forall k :: 0 <= k < |acts| ==> !acts[k].DownloadVideo?
  }

  /** External requests download no video. */
  lemma {:induction false} NoVideoWhileExternal(s: Settings, st: Step, plans: seq<Plan>)
    requires NoVideo(st.actions)
    requires forall i :: 0 <= i < |plans| ==> plans[i].external
    ensures NoVideo(RunPlans(s, st, plans).actions)
    decreases |plans|
  {
    if plans != [] {
      var pre := plans[..|plans| - 1];
      NoVideoWhileExternal(s, st, pre);
      var before := RunPlans(s, st, pre);
      var r := Decide(s, before.files, plans[|plans| - 1]);
      ExternalOnlyMetadata(s, before.files, plans[|plans| - 1]);
      var acts := RunPlans(s, st, plans).actions;
      forall k | |before.actions| <= k < |acts|
        ensures !acts[k].DownloadVideo?
      {
        assert acts[k] == r.actions[k - |before.actions|];
      }
    }
  }

  /** A video download is only ever the last action. */
  predicate VideoLast(acts: seq<Action>)
  {
    forall k :: 0 <= k < |acts| && acts[k].DownloadVideo? ==> k == |acts| - 1
  }

  /**
   * When every request but the last is external, a video download can only
   * be the very last action.
   */
  lemma VideoLastInRun(s: Settings, files: set<Path>, plans: seq<Plan>)
    requires forall i :: 0 <= i < |plans| - 1 ==> plans[i].external
    ensures VideoLast(RunPlans(s, Step([], files), plans).actions)
  {
    if plans != [] {
      var st := Step([], files);
      var pre := plans[..|plans| - 1];
      NoVideoWhileExternal(s, st, pre);
      var before := RunPlans(s, st, pre);
      var r := Decide(s, before.files, plans[|plans| - 1]);
      VideoLastInRequest(s, before.files, plans[|plans| - 1]);
      var acts := RunPlans(s, st, plans).actions;
      forall k | 0 <= k < |acts| && acts[k].DownloadVideo?
        ensures k == |acts| - 1
      {
        if k >= |before.actions| {
          assert acts[k] == r.actions[k - |before.actions|];
        }
      }
    }
  }

  lemma PlansWellFormed(root: Path, d: Detail, reqs: seq<CollectionEntry?>, date: string)
    requires forall i :: 0 <= i < |reqs| && reqs[i] != null ==> d.collectionEntries != []
    ensures forall i :: 0 <= i < |reqs| ==> WellFormed(PlansOf(root, d, reqs, date)[i])
  {
    forall i | 0 <= i < |reqs|
      ensures WellFormed(PlansOf(root, d, reqs, date)[i])
    {
      PlanWellFormed(root, d, reqs[i], date);
    }
  }

  /**
   * A detail's downloads never write over an existing file, leave the file
   * system as it was in a dry run, and otherwise leave nothing to do: running
   * them a second time does nothing.
   */
  lemma DetailDownloadsOnce(s: Settings, files: set<Path>, d: Detail, date: string)
    ensures var r := DetailDownloads(s, files, d, date);
      && files <= r.files
      && (forall a :: a in r.actions ==> a.path !in files)
      && (s.dryRun ==> r.files == files)
      && (!s.dryRun ==> DetailDownloads(s, r.files, d, date) == Step([], r.files))
  {
    var plans := PlansOf(s.outputDir, d, Requests(d), date);
    var st := Step([], files);
    PlansWellFormed(s.outputDir, d, Requests(d), date);
    RunWrites(s, st, plans);
    if s.dryRun {
      DryRunWritesNothing(s, st, plans);
    } else {
      RunSettles(s, st, plans);
      SettledRunIsQuiet(s, RunPlans(s, st, plans).files, plans);
    }
  }

  /**
   * The video of a detail is downloaded very last, after all the external
   * metadata files and the chat history.
   */
  lemma DetailVideoLast(s: Settings, files: set<Path>, d: Detail, date: string)
    requires DistinctEntries(d)
    ensures VideoLast(DetailDownloads(s, files, d, date).actions)
  {
    var reqs := Requests(d);
    var plans := PlansOf(s.outputDir, d, reqs, date);
    RequestsOrder(d);
    forall i | 0 <= i < |plans| - 1
      ensures plans[i].external
    {
      PlanPaths(s.outputDir, d, reqs[i], date);
    }
    VideoLastInRun(s, files, plans);
  }

  method ProcessDownloads(s: Settings, files: set<Path>, d: Detail, date: string) returns (r: Step)
    ensures r == DetailDownloads(s, files, d, date)
  {
    var es := d.collectionEntries;
    ghost var plans := PlansOf(s.outputDir, d, Requests(d), date);
    if es == [] {
      r := ProcessSpecificDownloads(s, files, d, null, date);
      assert plans == [PlanOf(s.outputDir, d, null, date)] && plans[..0] == [];
      assert RunPlans(s, Step([], files), plans[..0]) == Step([], files);
      assert r == Decide(s, files, plans[0]);
      assert [] + r.actions == r.actions;
      return;
    }
    r := Step([], files);
    var i := |es|;
    while i > 0
      invariant 0 <= i <= |es|
      invariant r == RunPlans(s, Step([], files), plans[..|es| - i])
    {
      i := i - 1;
      var step := ProcessSpecificDownloads(s, r.files, d, es[i], date);
      assert plans[|es| - i - 1] == PlanOf(s.outputDir, d, es[i], date);
      assert plans[..|es| - i][..|es| - i - 1] == plans[..|es| - i - 1];
      r := Step(r.actions + step.actions, step.files);
    }
    assert plans[..|es|] == plans;
  }
}
