/**
  What saving, publishing and cleaning up mean field by field: which calls succeed, what they store,
  and which files they leave, said with the five URL fields and the names of files.
 */
module SiteSettingsAnswers {
  import opened Wrappers
  import opened Rows
  import opened SiteAssets
  import opened SiteSettings

  /** One of the five fields holds this site-asset URL. */
  predicate Shows(s: Settings, u: string) {
    && "/site-assets/" <= u
    && (u == s.logoLight || u == s.logoDark || u == s.favicon || u == s.openGraphImage || u == s.heroImage)
  }

  /** The draft or the published settings show it. */
  predicate IsShown(row: Option<Row>, u: string) {
    row.Some? && (Shows(row.value.draft, u) || (row.value.published.Some? && Shows(row.value.published.value, u)))
  }

  /** Thirty-six lower-case hexadecimal digits and dashes, and one of four extensions. */
  predicate IsFileName(id: string) {
    |id| > 36 && (forall c :: c in id[..36] ==> c in "-0123456789abcdef")
    && (id[36..] == ".png" || id[36..] == ".jpg" || id[36..] == ".webp" || id[36..] == ".ico")
  }

  predicate IsUrlOf(u: string, id: string) {
    IsFileName(id) && u == "/site-assets/" + id
  }

  ghost predicate HasFile(u: string, root: set<string>) {
    exists id :: IsUrlOf(u, id) && id in root
  }

  /** The file is in the root, or waits for this administrator and can be moved there. */
  ghost predicate CanBePlaced(files: Files, actor: string, u: string, unmovable: set<string>) {
    exists id :: IsUrlOf(u, id) && (id in files.root || (Staged(actor, id) in files.pending && id !in unmovable))
  }

  // ----- Reading the fields -----

  lemma FieldUrls(s: Settings, u: string)
    ensures u in AssetUrls(s) <==> Shows(s, u)
  {
    FilterMembers([s.logoLight, s.logoDark, s.favicon, s.openGraphImage, s.heroImage], StartsWithPrefix(), u);
  }

  lemma ReferencesAreShown(row: Option<Row>, u: string)
    ensures u in References(row) <==> IsShown(row, u)
  {
    hide AssetUrls, Shows;
    if row.Some? {
      FieldUrls(row.value.draft, u);
      if row.value.published.Some? {
        FieldUrls(row.value.published.value, u);
      }
    }
  }

  lemma IdCharacter(c: char)
    ensures c in "-0123456789abcdef" <==> IsIdCharacter(c)
  {
    var digit, letter := c as int - '0' as int + 1, c as int - 'a' as int + 11;
    assert "-0123456789abcdef"[0] == '-';
    assert '0' <= c <= '9' ==> "-0123456789abcdef"[digit] == c;
    assert 'a' <= c <= 'f' ==> "-0123456789abcdef"[letter] == c;
  }

  lemma FileNames(id: string)
    ensures IsFileName(id) <==> IsAssetId(id)
  {
    hide IsIdCharacter;
    if |id| > 36 {
      assert forall i :: 0 <= i < 36 ==> id[..36][i] == id[i];
      forall c | c in id[..36] ensures c in "-0123456789abcdef" <==> IsIdCharacter(c) {
        IdCharacter(c);
      }
      assert forall i :: 0 <= i < 36 ==> id[i] in id[..36];
    }
  }

  lemma UrlsOfFiles(u: string, id: string)
    ensures IsUrlOf(u, id) <==> IsAssetUrl(u) && IdOf(u) == id
    ensures IsUrlOf(u, id) <==> IsAssetId(id) && u == UrlOf(id)
  {
    hide IsAssetId, IsFileName;
    FileNames(id);
    UrlsAndIds(u, id);
  }

  lemma FileOfUrl(u: string, root: set<string>)
    ensures HasFile(u, root) <==> IsAssetUrl(u) && IdOf(u) in root
  {
    hide IsUrlOf, IsAssetId;
    forall id ensures IsUrlOf(u, id) <==> IsAssetUrl(u) && IdOf(u) == id {
      UrlsOfFiles(u, id);
    }
    if IsAssetUrl(u) {
      UrlsOfFiles(u, IdOf(u));
    }
  }

  lemma PlaceOfUrl(files: Files, actor: string, u: string, unmovable: set<string>)
    ensures CanBePlaced(files, actor, u, unmovable) <==> Movable(files, actor, u, unmovable)
  {
    hide IsUrlOf, IsAssetId;
    forall id ensures IsUrlOf(u, id) <==> IsAssetUrl(u) && IdOf(u) == id {
      UrlsOfFiles(u, id);
    }
    if IsAssetUrl(u) {
      UrlsOfFiles(u, IdOf(u));
    }
  }

  // ----- Agreement -----

  /**
    After every unbroken run each of the five fields of the stored draft and of the published
    settings that starts with the prefix is the URL of a file in the root.
   */
  lemma ShownFilesExist(steps: seq<Step>)
    requires Unbroken(Initial(), steps)
    ensures var site := Run(Initial(), steps);
            forall u :: IsShown(site.row, u) ==> HasFile(u, site.files.root)
  {
    InitialIsValid();
    RunKeepsValid(Initial(), steps);
    hide Run, Unbroken, IsShown, References, HasFile, IsAssetUrl;
    var site := Run(Initial(), steps);
    forall u | IsShown(site.row, u) ensures HasFile(u, site.files.root) {
      ReferencesAreShown(site.row, u);
      FileOfUrl(u, site.files.root);
    }
  }

  /** After any run, broken or not, no name is in two places. */
  lemma {:induction false} RunKeepsApart(site: Site, steps: seq<Step>)
    requires Apart(site.files)
    ensures Apart(Run(site, steps).files)
    decreases |steps|
  {
    hide Next, Apart;
    if steps == [] {
    } else {
      StepKeepsApart(site, steps[0]);
      RunKeepsApart(Next(site, steps[0]), steps[1..]);
    }
  }

  lemma StepKeepsApart(site: Site, step: Step)
    requires Apart(site.files)
    ensures Apart(Next(site, step).files)
  {
    hide CleanedUp, SaveMoves, RolledBack, IsAssetId;
    match step {
      case StageStep(actor, id, now) =>
      case SaveStep(actor, settings, expected, faults) =>
        hide Apart;
        SaveMovesAreReported(site, actor, settings, faults);
        var moves := SaveMoves(site, actor, settings, faults);
        var stored := SaveTx(site.row, settings, expected, faults.transactionFails);
        if stored.Ok? {
          CleanUpKeepsReferenced(moves.files, Some(stored.value), faults);
        }
      case PublishStep(actor, expected, faults) =>
        hide Apart;
        var stored := PublishTx(site.row, expected, faults.transactionFails);
        if stored.Ok? {
          CleanUpKeepsReferenced(site.files, Some(stored.value), faults);
        }
    }
  }

  lemma ReachableIsApart(steps: seq<Step>)
    ensures Apart(Run(Initial(), steps).files)
  {
    RunKeepsApart(Initial(), steps);
  }

  // ----- When saves and publications succeed -----

  /** The moves of a save succeed exactly when every site-asset field can be placed. */
  lemma PlacingSucceedsIff(site: Site, actor: string, settings: Settings, faults: Faults)
    requires Apart(site.files)
    ensures SaveMoves(site, actor, settings, faults).failure.None?
       <==> forall u :: Shows(settings, u) ==> CanBePlaced(site.files, actor, u, faults.unmovable)
  {
    hide Apart, Shows, CanBePlaced, Movable, IsAssetId, AssetUrls, IsAssetUrl;
    var urls := Unique(AssetUrls(settings));
    MovesAreReported(site.files, actor, urls, faults.unmovable, []);
    forall u ensures u in urls <==> Shows(settings, u) {
      FieldUrls(settings, u);
    }
    forall u ensures CanBePlaced(site.files, actor, u, faults.unmovable)
                <==> Movable(site.files, actor, u, faults.unmovable) {
      PlaceOfUrl(site.files, actor, u, faults.unmovable);
    }
    assert forall u :: u in urls <==> exists i :: 0 <= i < |urls| && urls[i] == u;
  }

  /** The version the next save must expect: one before the first save. */
  function Current(row: Option<Row>): nat {
    if row.None? then 1 else row.value.version
  }

  /**
    In every reachable state a save succeeds if and only if each site-asset field can be placed, the
    version is the stored one (one before the first save), and neither the transaction nor the read
    fails; the row then has the new draft, the published settings it had, and the next version, and
    one revision is logged.
   */
  lemma SaveSucceedsIff(steps: seq<Step>, actor: string, settings: Settings, expected: int, faults: Faults)
    ensures var site := Run(Initial(), steps);
            var (after, outcome) := DraftSaved(site, actor, settings, expected, faults);
            && (outcome.Ok? <==>
                && (forall u :: Shows(settings, u) ==> CanBePlaced(site.files, actor, u, faults.unmovable))
                && expected == Current(site.row) && !faults.transactionFails && !faults.readFails)
            && (outcome.Ok? ==>
                  && after.row == Some(outcome.value)
                  && outcome.value.draft == settings
                  && outcome.value.published == (if site.row.None? then None else site.row.value.published)
                  && outcome.value.version == (if site.row.None? then 1 else site.row.value.version + 1)
                  && after.revisions == site.revisions + [Revision(actor, SavesDraft, outcome.value.version, settings)])
  {
    ReachableIsApart(steps);
    hide Run, CanBePlaced, Shows, SaveMoves, RolledBack, CleanedUp;
    PlacingSucceedsIff(Run(Initial(), steps), actor, settings, faults);
  }

  /**
    A refused save names the first thing in the way: a file, then the version, the transaction, the
    read. Before the read nothing is stored; a failing read comes after the store.
   */
  lemma RefusedSaveAnswers(steps: seq<Step>, actor: string, settings: Settings, expected: int, faults: Faults)
    requires DraftSaved(Run(Initial(), steps), actor, settings, expected, faults).1.Err?
    ensures var site := Run(Initial(), steps);
            var (after, outcome) := DraftSaved(site, actor, settings, expected, faults);
            && (outcome.error.AssetRefused? <==>
                exists u :: Shows(settings, u) && !CanBePlaced(site.files, actor, u, faults.unmovable))
            && (outcome.error == AssetRefused(UrlInvalid) ==>
                  exists u :: Shows(settings, u) && forall id :: !IsUrlOf(u, id))
            && (outcome.error == AssetRefused(MoveFailed) ==>
                  exists u, id :: Shows(settings, u) && IsUrlOf(u, id)
                                  && !CanBePlaced(site.files, actor, u, faults.unmovable))
            && (!outcome.error.AssetRefused? ==>
                  outcome.error ==
                  if expected != Current(site.row) then VersionConflict
                  else if faults.transactionFails then TransactionFailed else ReadFailed)
            && (outcome.error != ReadFailed ==> after.row == site.row && after.revisions == site.revisions)
            && (outcome.error == ReadFailed ==>
                  && after.row == Some(Row(settings,
                      if site.row.None? then None else site.row.value.published,
                      if site.row.None? then 1 else site.row.value.version + 1))
                  && after.revisions
                    == site.revisions + [Revision(actor, SavesDraft, after.row.value.version, settings)])
  {
    ReachableIsApart(steps);
    hide Run, CanBePlaced, Shows, SaveMoves, RolledBack, CleanedUp, IsUrlOf;
    var site := Run(Initial(), steps);
    PlacingSucceedsIff(site, actor, settings, faults);
    var moves := SaveMoves(site, actor, settings, faults);
    if moves.failure.Some? {
      RefusedFieldIsKnown(site, actor, settings, faults);
    }
  }

  /** What stopped the moves: a malformed URL, or a missing file. */
  lemma RefusedFieldIsKnown(site: Site, actor: string, settings: Settings, faults: Faults)
    requires Apart(site.files) && SaveMoves(site, actor, settings, faults).failure.Some?
    ensures var failure := SaveMoves(site, actor, settings, faults).failure.value;
            && (failure == UrlInvalid ==> exists u :: Shows(settings, u) && forall id :: !IsUrlOf(u, id))
            && (failure == MoveFailed ==>
                  exists u, id :: Shows(settings, u) && IsUrlOf(u, id)
                                  && !CanBePlaced(site.files, actor, u, faults.unmovable))
  {
    hide Apart, Shows, CanBePlaced, Movable, IsAssetUrl, AssetUrls, IsUrlOf, MoveAll;
    var urls := Unique(AssetUrls(settings));
    var failure := SaveMoves(site, actor, settings, faults).failure.value;
    if forall i :: 0 <= i < |urls| ==> IsAssetUrl(urls[i]) {
      OnlyMovesFail(site.files, actor, urls, faults.unmovable, []);
    }
    MissingFileIsNamed(site.files, actor, urls, faults.unmovable, []);
    if failure == UrlInvalid {
      var i :| 0 <= i < |urls| && !IsAssetUrl(urls[i]);
      FieldUrls(settings, urls[i]);
      forall id ensures !IsUrlOf(urls[i], id) {
        UrlsOfFiles(urls[i], id);
      }
    } else {
      var i :| 0 <= i < |urls| && IsAssetUrl(urls[i]) && !Movable(site.files, actor, urls[i], faults.unmovable);
      FieldUrls(settings, urls[i]);
      PlaceOfUrl(site.files, actor, urls[i], faults.unmovable);
      AssetUrlsHavePrefix(settings, urls[i]);
      UrlsOfFiles(urls[i], IdOf(urls[i]));
    }
  }

  /** A commit stopped by a missing file has an asset URL whose file is missing. */
  lemma {:induction false} MissingFileIsNamed(
    files: Files, actor: string, urls: seq<string>, faulty: set<string>, done: seq<string>)
    requires Distinct(urls)
    ensures MoveAll(files, actor, urls, faulty, done).failure == Some(MoveFailed) ==>
              exists i :: 0 <= i < |urls| && IsAssetUrl(urls[i]) && !Movable(files, actor, urls[i], faulty)
    decreases |urls|
  {
    hide IsAssetId;
    if urls != [] && IsAssetUrl(urls[0]) && MoveAll(files, actor, urls, faulty, done).failure == Some(MoveFailed) {
      var id := IdOf(urls[0]);
      RestIsDistinct(urls);
      if CanMove(files, actor, id, faulty) {
        MissingFileIsNamed(Move(files, actor, id), actor, urls[1..], faulty, done + [id]);
        MovableLater(files, actor, urls, faulty);
        var i :| 0 <= i < |urls[1..]| && IsAssetUrl(urls[1..][i])
                 && !Movable(Move(files, actor, id), actor, urls[1..][i], faulty);
        assert urls[i + 1] == urls[1..][i];
      } else if id in files.root {
        MissingFileIsNamed(files, actor, urls[1..], faulty, done);
        var i :| 0 <= i < |urls[1..]| && IsAssetUrl(urls[1..][i]) && !Movable(files, actor, urls[1..][i], faulty);
        assert urls[i + 1] == urls[1..][i];
      }
    }
  }

  /**
    A publication succeeds if and only if a row of the expected version is stored and neither the
    transaction nor the read fails; what is published is the stored draft, which stays, under the next version.
   */
  lemma PublicationSucceedsIff(site: Site, actor: string, expected: int, faults: Faults)
    ensures var (after, outcome) := Published(site, actor, expected, faults);
            && (outcome.Ok? <==>
                && site.row.Some? && site.row.value.version == expected
                && !faults.transactionFails && !faults.readFails)
            && (outcome.Ok? || outcome.error == ReadFailed ==>
                  && site.row.Some? && after.row.Some?
                  && after.row.value.published == Some(site.row.value.draft)
                  && after.row.value.draft == site.row.value.draft
                  && after.row.value.version == site.row.value.version + 1
                  && after.revisions
                     == site.revisions
                        + [Revision(actor, Publishes, site.row.value.version + 1, site.row.value.draft)])
            && (outcome.Ok? ==> after.row == Some(outcome.value))
            && (outcome.Err? && outcome.error != ReadFailed ==>
                  after == site
                  && outcome.error
                     == if site.row.None? || site.row.value.version != expected then VersionConflict
                        else TransactionFailed)
  {
    hide CleanedUp;
  }

  // ----- What clean-up leaves -----

  /** The step answered without an error. */
  predicate Succeeds(site: Site, step: Step) {
    || (step.SaveStep? && DraftSaved(site, step.actor, step.settings, step.expected, step.faults).1.Ok?)
    || (step.PublishStep? && Published(site, step.actor, step.expected, step.faults).1.Ok?)
  }

  /** The step saves settings with this file in one of their fields. */
  predicate SavesWith(step: Step, id: string) {
    step.SaveStep? && Shows(step.settings, "/site-assets/" + id)
  }

  /** The step moves this upload out of its waiting place. */
  predicate Takes(step: Step, upload: Staged) {
    SavesWith(step, upload.id) && upload.actor == step.actor && upload.id !in step.faults.unmovable
  }

  /** What a successful save or publication hands to its clean-up. */
  function Placed(site: Site, step: Step): Files
    requires step.SaveStep? || step.PublishStep?
  {
    if step.SaveStep? then SaveMoves(site, step.actor, step.settings, step.faults).files else site.files
  }

  lemma PlacedFiles(site: Site, step: Step, id: string)
    requires Apart(site.files) && Succeeds(site, step)
    ensures id in Placed(site, step).root <==> id in site.files.root || SavesWith(step, id)
  {
    hide Apart, IsAssetId, AssetUrls, Shows, CleanedUp, MoveAll, RolledBack, IsAssetUrl;
    if step.SaveStep? {
      SaveMovesAreReported(site, step.actor, step.settings, step.faults);
      FieldUrls(step.settings, "/site-assets/" + id);
      UrlsAndIds("", id);
      assert UrlOf(id) == "/site-assets/" + id;
    }
  }

  /** The listed file is an asset that neither the draft nor the published settings show. */
  predicate IsGarbage(row: Option<Row>, id: string) {
    IsFileName(id) && !IsShown(row, "/site-assets/" + id)
  }

  /** The file is listed, and no garbage listed up to it is stuck. */
  predicate IsReached(row: Option<Row>, listing: seq<string>, stuck: set<string>, id: string) {
    exists i :: 0 <= i < |listing| && listing[i] == id
                && forall j :: 0 <= j <= i && IsGarbage(row, listing[j]) ==> listing[j] !in stuck
  }

  /**
    After a successful save or publication a file is in the root if and only if it was there or was
    saved with, and it is no garbage (shown by the stored draft or published settings, or not named
    like an asset) or clean-up did not come to it: it was not listed, or behind garbage that cannot be removed.
   */
  lemma CleanUpLeavesTheShown(site: Site, step: Step, id: string)
    requires Apart(site.files) && Succeeds(site, step)
    ensures var after := Next(site, step);
            (id in after.files.root <==>
             && (id in site.files.root || SavesWith(step, id))
             && !(IsGarbage(after.row, id) && IsReached(after.row, step.faults.listing, step.faults.stuck, id)))
  {
    hide Apart, SaveMoves, DeleteAll, RemoveStale, IsGarbage, IsReached;
    PlacedFiles(site, step, id);
    var row := Next(site, step).row;
    var urls := Unique(Candidates(step.faults.listing));
    DeletedIff(Placed(site, step).root, urls, References(row), step.faults.stuck, id);
    GarbageIff(row, id);
    ReachedAmong(row, step.faults.listing, step.faults.stuck, id);
    hide References;
  }

  /** Removal comes to the URL: it is given, and nothing up to it stops the removal. */
  predicate ComesTo(urls: seq<string>, referenced: set<string>, stuck: set<string>, u: string) {
    exists i :: 0 <= i < |urls| && urls[i] == u && forall j :: 0 <= j <= i ==> !Stops(urls[j], referenced, stuck)
  }

  predicate Stops(u: string, referenced: set<string>, stuck: set<string>) {
    u !in referenced && IsAssetUrl(u) && IdOf(u) in stuck
  }

  lemma ComesToFirst(urls: seq<string>, referenced: set<string>, stuck: set<string>, u: string)
    requires urls != []
    ensures ComesTo(urls, referenced, stuck, u) <==>
            !Stops(urls[0], referenced, stuck) && (urls[0] == u || ComesTo(urls[1..], referenced, stuck, u))
  {
    hide Stops;
    if i :| 0 <= i < |urls[1..]| && urls[1..][i] == u
            && forall j :: 0 <= j <= i ==> !Stops(urls[1..][j], referenced, stuck) {
      if !Stops(urls[0], referenced, stuck) {
        forall j | 0 <= j <= i + 1 ensures !Stops(urls[j], referenced, stuck) {
          assert j > 0 ==> urls[j] == urls[1..][j - 1];
        }
        assert urls[i + 1] == u;
      }
    }
    if i :| 0 <= i < |urls| && urls[i] == u && forall j :: 0 <= j <= i ==> !Stops(urls[j], referenced, stuck) {
      if i > 0 {
        forall j | 0 <= j <= i - 1 ensures !Stops(urls[1..][j], referenced, stuck) {
          assert urls[1..][j] == urls[j + 1];
        }
        assert urls[1..][i - 1] == u;
      }
    }
  }

  lemma ComesToLast(urls: seq<string>, x: string, referenced: set<string>, stuck: set<string>, u: string)
    ensures ComesTo(urls + [x], referenced, stuck, u) <==>
            ComesTo(urls, referenced, stuck, u)
            || (x == u && !Stops(x, referenced, stuck)
                && forall j :: 0 <= j < |urls| ==> !Stops(urls[j], referenced, stuck))
  {
    hide Stops;
    var all := urls + [x];
    assert forall j :: 0 <= j < |urls| ==> all[j] == urls[j];
    if ComesTo(urls, referenced, stuck, u) {
      var i :| 0 <= i < |urls| && urls[i] == u && forall j :: 0 <= j <= i ==> !Stops(urls[j], referenced, stuck);
      assert all[i] == u;
    }
    if x == u && !Stops(x, referenced, stuck) && forall j :: 0 <= j < |urls| ==> !Stops(urls[j], referenced, stuck) {
      assert all[|urls|] == u;
    }
    if i :| 0 <= i < |all| && all[i] == u && forall j :: 0 <= j <= i ==> !Stops(all[j], referenced, stuck) {
      assert i < |urls| ==> urls[i] == u;
    }
  }

  /** Leaving out repetitions does not change what removal comes to. */
  lemma {:induction false} ComesToOnce(urls: seq<string>, referenced: set<string>, stuck: set<string>, u: string)
    ensures ComesTo(Unique(urls), referenced, stuck, u) <==> ComesTo(urls, referenced, stuck, u)
  {
    if urls != [] {
      var n := |urls| - 1;
      var before := Unique(urls[..n]);
      ComesToOnce(urls[..n], referenced, stuck, u);
      assert urls == urls[..n] + [urls[n]];
      ComesToLast(urls[..n], urls[n], referenced, stuck, u);
      ComesToLast(before, urls[n], referenced, stuck, u);
      hide Stops;
      assert forall j :: 0 <= j < |before| ==> before[j] in urls[..n];
      assert forall j :: 0 <= j < n ==> urls[..n][j] in before;
      if urls[n] in before {
        GivenIsComeTo(urls[..n], referenced, stuck, urls[n]);
      }
    }
  }

  /** Where nothing stops the removal, it comes to everything given. */
  lemma GivenIsComeTo(urls: seq<string>, referenced: set<string>, stuck: set<string>, u: string)
    requires u in urls
    ensures (forall j :: 0 <= j < |urls| ==> !Stops(urls[j], referenced, stuck)) ==> ComesTo(urls, referenced, stuck, u)
  {
    hide Stops;
    var i :| 0 <= i < |urls| && urls[i] == u;
  }

  /** Exactly the unreferenced assets that removal comes to are removed. */
  lemma {:induction false} DeletedIff(
    root: set<string>, urls: seq<string>, referenced: set<string>, stuck: set<string>, id: string)
    ensures id in DeleteAll(root, urls, referenced, stuck) <==>
            id in root
            && !(IsAssetId(id) && UrlOf(id) !in referenced && ComesTo(urls, referenced, stuck, UrlOf(id)))
    decreases |urls|
  {
    hide IsAssetId, ComesTo;
    UrlsAndIds("", id);
    if urls == [] {
      assert !ComesTo([], referenced, stuck, UrlOf(id)) by { NothingComesTo(referenced, stuck, UrlOf(id)); }
    } else {
      ComesToFirst(urls, referenced, stuck, UrlOf(id));
      UrlsAndIds(urls[0], id);
      if urls[0] in referenced || !IsAssetUrl(urls[0]) {
        DeletedIff(root, urls[1..], referenced, stuck, id);
      } else if IdOf(urls[0]) !in stuck {
        DeletedIff(root - {IdOf(urls[0])}, urls[1..], referenced, stuck, id);
      }
    }
  }

  lemma NothingComesTo(referenced: set<string>, stuck: set<string>, u: string)
    ensures !ComesTo([], referenced, stuck, u)
  {
  }

  lemma GarbageIff(row: Option<Row>, id: string)
    ensures IsGarbage(row, id) <==> IsAssetId(id) && UrlOf(id) !in References(row)
  {
    hide IsAssetId, IsFileName, IsShown, References;
    FileNames(id);
    ReferencesAreShown(row, UrlOf(id));
    assert UrlOf(id) == "/site-assets/" + id;
  }

  lemma StopsIff(row: Option<Row>, stuck: set<string>, id: string)
    ensures Stops(UrlOf(id), References(row), stuck) <==> IsGarbage(row, id) && id in stuck
  {
    GarbageIff(row, id);
    UrlsAndIds("", id);
    hide IsAssetId, IsGarbage, References;
  }

  lemma {:induction false} ReachedAmong(row: Option<Row>, listing: seq<string>, stuck: set<string>, id: string)
    ensures IsFileName(id) ==>
              (ComesTo(Unique(Candidates(listing)), References(row), stuck, UrlOf(id)) <==>
               IsReached(row, listing, stuck, id))
  {
    ComesToOnce(Candidates(listing), References(row), stuck, UrlOf(id));
    CandidatesReached(row, listing, stuck, id);
  }

  lemma {:induction false} CandidatesReached(row: Option<Row>, listing: seq<string>, stuck: set<string>, id: string)
    ensures IsFileName(id) ==>
              (ComesTo(Candidates(listing), References(row), stuck, UrlOf(id)) <==> IsReached(row, listing, stuck, id))
    decreases |listing|
  {
    hide ComesTo, IsReached, IsAssetId, IsFileName, References, Stops, IsGarbage;
    if listing == [] {
      NothingComesTo(References(row), stuck, UrlOf(id));
      NothingReached(row, stuck, id);
    } else {
      CandidatesReached(row, listing[1..], stuck, id);
      ReachedFirst(row, listing, stuck, id);
      FileNames(listing[0]);
      StopsIff(row, stuck, listing[0]);
      GarbageIff(row, listing[0]);
      UrlsAndIds("", id);
      UrlsAndIds("", listing[0]);
      if IsAssetId(listing[0]) {
        var urls := [UrlOf(listing[0])] + Candidates(listing[1..]);
        assert Candidates(listing) == urls && urls[1..] == Candidates(listing[1..]);
        ComesToFirst(urls, References(row), stuck, UrlOf(id));
      }
    }
  }

  lemma NothingReached(row: Option<Row>, stuck: set<string>, id: string)
    ensures !IsReached(row, [], stuck, id)
  {
  }

  lemma ReachedFirst(row: Option<Row>, listing: seq<string>, stuck: set<string>, id: string)
    requires listing != []
    ensures IsReached(row, listing, stuck, id) <==>
            !(IsGarbage(row, listing[0]) && listing[0] in stuck)
            && (listing[0] == id || IsReached(row, listing[1..], stuck, id))
  {
    hide IsGarbage;
    var rest := listing[1..];
    if i :| 0 <= i < |rest| && rest[i] == id
            && forall j :: 0 <= j <= i && IsGarbage(row, rest[j]) ==> rest[j] !in stuck {
      if !(IsGarbage(row, listing[0]) && listing[0] in stuck) {
        forall j | 0 <= j <= i + 1 && IsGarbage(row, listing[j]) ensures listing[j] !in stuck {
          assert j > 0 ==> listing[j] == rest[j - 1];
        }
        assert listing[i + 1] == id;
      }
    }
    if i :| 0 <= i < |listing| && listing[i] == id
            && forall j :: 0 <= j <= i && IsGarbage(row, listing[j]) ==> listing[j] !in stuck {
      if i > 0 {
        forall j | 0 <= j <= i - 1 && IsGarbage(row, rest[j]) ensures rest[j] !in stuck {
          assert rest[j] == listing[j + 1];
        }
        assert rest[i - 1] == id;
      }
    }
  }

  /** A removal answers a count exactly when no garbage listed is stuck. */
  lemma CountIsAnsweredIff(row: Option<Row>, listing: seq<string>, stuck: set<string>)
    ensures DeleteCount(Unique(Candidates(listing)), References(row), stuck).Some?
       <==> forall id :: id in listing && IsGarbage(row, id) ==> id !in stuck
  {
    hide IsGarbage, IsAssetId, References, Stops, DeleteCount;
    var urls := Unique(Candidates(listing));
    NothingStops(urls, References(row), stuck);
    forall id ensures id in listing && IsGarbage(row, id) && id in stuck
                 <==> UrlOf(id) in urls && Stops(UrlOf(id), References(row), stuck) {
      CandidatesAreListed(listing, id);
      GarbageIff(row, id);
      StopsIff(row, stuck, id);
    }
    forall j | 0 <= j < |urls| && Stops(urls[j], References(row), stuck)
      ensures HasPrefix(urls[j]) && UrlOf(IdOf(urls[j])) == urls[j]
    {
      StopsAtUrl(urls[j], References(row), stuck);
    }
  }

  lemma StopsAtUrl(u: string, referenced: set<string>, stuck: set<string>)
    requires Stops(u, referenced, stuck)
    ensures HasPrefix(u) && UrlOf(IdOf(u)) == u
  {
    UrlsAndIds(u, "");
  }

  lemma {:induction false} NothingStops(urls: seq<string>, referenced: set<string>, stuck: set<string>)
    ensures DeleteCount(urls, referenced, stuck).Some?
       <==> forall j :: 0 <= j < |urls| ==> !Stops(urls[j], referenced, stuck)
    decreases |urls|
  {
    hide IsAssetId;
    if urls != [] {
      NothingStops(urls[1..], referenced, stuck);
      assert forall j :: 0 < j < |urls| ==> urls[j] == urls[1..][j - 1];
    }
  }

  /** Whatever cannot be removed, a clean-up never removes a shown file, and adds nothing. */
  lemma CleanUpSparesTheShown(site: Site, step: Step, id: string)
    requires Apart(site.files) && Succeeds(site, step)
    ensures var after := Next(site, step);
            && (id in after.files.root ==> id in site.files.root || SavesWith(step, id))
            && ((id in site.files.root || SavesWith(step, id)) && IsShown(after.row, "/site-assets/" + id) ==>
                  id in after.files.root)
  {
    hide Apart, IsAssetId, References, IsShown, Shows, SaveMoves, DeleteAll, RemoveStale;
    PlacedFiles(site, step, id);
    var after := Next(site, step);
    DeletesOnlyUnreferenced(
      Placed(site, step).root, Unique(Candidates(step.faults.listing)), References(after.row), step.faults.stuck);
    ReferencesAreShown(after.row, "/site-assets/" + id);
    assert UrlOf(id) == "/site-assets/" + id;
  }

  /**
    After a successful save or publication an upload still waits if and only if it was not saved
    with, and is younger than the retention time, was not listed, or cannot be removed.
   */
  lemma UploadsLeftWaiting(site: Site, step: Step, upload: Staged)
    requires Apart(site.files) && Succeeds(site, step)
    ensures var after := Next(site, step);
            && (upload in after.files.pending <==>
                && upload in site.files.pending && !Takes(step, upload)
                && (step.faults.now - site.files.pending[upload] < step.faults.retention
                    || upload !in step.faults.uploads || upload in step.faults.stuckUploads))
            && (upload in after.files.pending ==> after.files.pending[upload] == site.files.pending[upload])
  {
    hide Apart, IsAssetId, References, Shows, SaveMoves, DeleteAll, RemoveStale;
    PlacedUploads(site, step, upload);
    OnlyStaleUploadsGo(Placed(site, step).pending, step.faults.uploads, step.faults.now, step.faults.retention,
      step.faults.stuckUploads);
  }

  lemma PlacedUploads(site: Site, step: Step, upload: Staged)
    requires Apart(site.files) && Succeeds(site, step)
    ensures var placed := Placed(site, step).pending;
            && (upload in placed <==> upload in site.files.pending && !Takes(step, upload))
            && (upload in placed ==> placed[upload] == site.files.pending[upload])
  {
    hide Apart, IsAssetId, AssetUrls, Shows, CleanedUp, RolledBack, MoveAll;
    if step.SaveStep? {
      var urls := Unique(AssetUrls(step.settings));
      UploadsTaken(site.files, step.actor, urls, step.faults.unmovable, [], upload);
      FieldUrls(step.settings, "/site-assets/" + upload.id);
      assert UrlOf(upload.id) == "/site-assets/" + upload.id;
    }
  }

  /** A commit takes exactly the uploads of this administrator that it was given and can move. */
  lemma {:induction false} UploadsTaken(
    files: Files, actor: string, urls: seq<string>, faulty: set<string>, done: seq<string>, upload: Staged)
    requires MoveAll(files, actor, urls, faulty, done).failure.None?
    ensures var left := MoveAll(files, actor, urls, faulty, done).files.pending;
            && (upload in left <==>
                && upload in files.pending
                && !(upload.actor == actor && upload.id !in faulty && UrlOf(upload.id) in urls))
            && (upload in left ==> left[upload] == files.pending[upload])
    decreases |urls|
  {
    hide IsAssetId;
    if urls == [] {
    } else {
      var id := IdOf(urls[0]);
      UrlsAndIds(urls[0], upload.id);
      assert urls == [urls[0]] + urls[1..];
      assert UrlOf(upload.id) == urls[0] <==> upload.id == id;
      if CanMove(files, actor, id, faulty) {
        UploadsTaken(Move(files, actor, id), actor, urls[1..], faulty, done + [id], upload);
      } else {
        UploadsTaken(files, actor, urls[1..], faulty, done, upload);
      }
    }
  }

  /**
    An upload can be saved with by whoever made it and by nobody else: settings that show it and
    nothing further are accepted in the next step exactly from its administrator, and its file is in place.
   */
  lemma UploadIsItsAdministrators(
    steps: seq<Step>, actor: string, id: string, now: int, other: string, settings: Settings, faults: Faults)
    requires IsFileName(id) && Fresh(Run(Initial(), steps).files, id)
    requires forall u :: Shows(settings, u) <==> u == "/site-assets/" + id
    requires id !in faults.unmovable && !faults.transactionFails && !faults.readFails
    ensures var staged := Next(Run(Initial(), steps), StageStep(actor, id, now));
            var (after, outcome) := DraftSaved(staged, other, settings, Current(staged.row), faults);
            && staged.files.root == Run(Initial(), steps).files.root
            && staged.files.pending == Run(Initial(), steps).files.pending[Staged(actor, id) := now]
            && (outcome.Ok? <==> other == actor)
            && (outcome.Ok? ==> id in after.files.root)
            && (outcome.Err? ==> outcome.error == AssetRefused(MoveFailed) && after == staged)
  {
    var site := Run(Initial(), steps);
    ReachableIsApart(steps);
    hide Run, IsFileName;
    var staged := Next(site, StageStep(actor, id, now));
    assert Apart(staged.files);
    hide Shows, CanBePlaced, SaveMoves, RolledBack, CleanedUp, Apart;
    PlacingSucceedsIff(staged, other, settings, faults);
    var u := "/site-assets/" + id;
    assert CanBePlaced(staged.files, other, u, faults.unmovable) <==> other == actor by {
      OnlyOnePlace(staged.files, actor, id, now, other, faults.unmovable);
    }
    var step := SaveStep(other, settings, Current(staged.row), faults);
    if other == actor {
      assert IsShown(Next(staged, step).row, u);
      CleanUpSparesTheShown(staged, step, id);
    } else {
      RefusedFieldIsKnown(staged, other, settings, faults);
      assert IsUrlOf(u, id);
      assert SaveMoves(staged, other, settings, faults).failure != Some(UrlInvalid);
      RefusedSaveChangesNothingIff(staged, other, settings, Current(staged.row), faults);
      NothingToMove(staged, other, settings, faults, id);
    }
  }

  lemma OnlyOnePlace(files: Files, actor: string, id: string, now: int, other: string, unmovable: set<string>)
    requires IsFileName(id) && id !in files.root && id !in unmovable
    requires forall k :: k in files.pending && k.id == id <==> k == Staged(actor, id)
    ensures CanBePlaced(files, other, "/site-assets/" + id, unmovable) <==> other == actor
  {
    var u := "/site-assets/" + id;
    UrlsAndIds("", id);
    assert u == UrlOf(id);
    assert IsUrlOf(u, id);
    forall k | IsUrlOf(u, k) ensures k == id {
      assert u[|"/site-assets/"|..] == k;
      assert u[|"/site-assets/"|..] == id;
    }
    assert Staged(actor, id) in files.pending;
  }

  lemma NothingToMove(site: Site, actor: string, settings: Settings, faults: Faults, id: string)
    requires Staged(actor, id) !in site.files.pending && Apart(site.files)
    requires forall u :: Shows(settings, u) ==> u == "/site-assets/" + id
    ensures SaveMoves(site, actor, settings, faults).committed == []
  {
    hide IsAssetId, Shows, AssetUrls, MoveAll;
    var urls := Unique(AssetUrls(settings));
    OnlyUploadsMove(site.files, actor, urls, faults.unmovable, []);
    SaveMovesAreReported(site, actor, settings, faults);
    var m := SaveMoves(site, actor, settings, faults);
    assert UrlOf(id) == "/site-assets/" + id;
    UrlsAndIds("", id);
    assert forall i :: 0 <= i < |m.committed| ==> m.committed[i] in m.committed;
    if m.committed != [] {
      FieldUrls(settings, UrlOf(m.committed[0]));
      UrlsAndIds("", m.committed[0]);
    }
  }

  /**
    The save that breaks agreement: accepted in everything but the read after its commit, and shown
    in one field an upload it moved.
   */
  lemma BreaksIff(site: Site, actor: string, settings: Settings, expected: int, faults: Faults)
    requires Apart(site.files)
    ensures Breaks(site, SaveStep(actor, settings, expected, faults))
       <==> && (forall u :: Shows(settings, u) ==> CanBePlaced(site.files, actor, u, faults.unmovable))
            && expected == Current(site.row) && !faults.transactionFails && faults.readFails
            && exists u, id :: Shows(settings, u) && IsUrlOf(u, id)
                               && Staged(actor, id) in site.files.pending && id !in faults.unmovable
  {
    hide Shows, CanBePlaced, IsUrlOf, Apart, IsAssetId, AssetUrls, MoveAll;
    PlacingSucceedsIff(site, actor, settings, faults);
    var urls := Unique(AssetUrls(settings));
    var m := SaveMoves(site, actor, settings, faults);
    SaveMovesAreReported(site, actor, settings, faults);
    if m.failure.None? {
      if m.committed != [] {
        CommittedWereWaiting(site.files, actor, urls, faults.unmovable, []);
        var id := m.committed[0];
        assert id in m.committed;
        FieldUrls(settings, UrlOf(id));
        UrlsAndIds("", id);
        UrlsOfFiles(UrlOf(id), id);
      }
      forall u, id | Shows(settings, u) && IsUrlOf(u, id)
                     && Staged(actor, id) in site.files.pending && id !in faults.unmovable
        ensures m.committed != []
      {
        FieldUrls(settings, u);
        UrlsOfFiles(u, id);
        UploadsTaken(site.files, actor, urls, faults.unmovable, [], Staged(actor, id));
        OnlyUploadsMove(site.files, actor, urls, faults.unmovable, []);
      }
    }
  }

  lemma {:induction false} CommittedWereWaiting(
    files: Files, actor: string, urls: seq<string>, faulty: set<string>, done: seq<string>)
    ensures forall id :: id in MoveAll(files, actor, urls, faulty, done).committed ==>
                           id in done || (Staged(actor, id) in files.pending && id !in faulty)
    decreases |urls|
  {
    hide IsAssetId;
    if urls != [] && IsAssetUrl(urls[0]) {
      var id := IdOf(urls[0]);
      if CanMove(files, actor, id, faulty) {
        CommittedWereWaiting(Move(files, actor, id), actor, urls[1..], faulty, done + [id]);
      } else {
        CommittedWereWaiting(files, actor, urls[1..], faulty, done);
      }
    }
  }
}
