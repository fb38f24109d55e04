/**
  Saving and publishing site settings: files are moved, then a version-checked transaction
  runs, then garbage is collected or the moves are rolled back.
 */
module SiteSettings {
  import opened Wrappers
  import opened Rows
  import opened SiteAssets

  /** The five fields that hold URLs, and everything else. */
  datatype Settings = Settings(logoLight: string, logoDark: string, favicon: string, openGraphImage: string,
    heroImage: string, rest: string)

  datatype Row = Row(draft: Settings, published: Option<Settings>, version: nat)

  datatype Action = SavesDraft | Publishes

  datatype Revision = Revision(actor: string, action: Action, version: nat, snapshot: Settings)

  datatype Site = Site(files: Files, row: Option<Row>, revisions: seq<Revision>)

  datatype SettingsError = AssetRefused(asset: AssetError) | VersionConflict | TransactionFailed | ReadFailed

  /**
    What the file system and the database do to one call: the names that cannot be moved, whether
    the transaction or the read after it fails, what the directories list, and what cannot be removed.
   */
  datatype Faults = Faults(
    unmovable: set<string>,
    transactionFails: bool,
    readFails: bool,
    listing: seq<string>,
    stuck: set<string>,
    uploads: seq<Staged>,
    stuckUploads: set<Staged>,
    now: int,
    retention: int)

  /** The URLs of the settings that name site assets. */
  function AssetUrls(s: Settings): seq<string> {
    Filter([s.logoLight, s.logoDark, s.favicon, s.openGraphImage, s.heroImage], StartsWithPrefix())
  }

  function References(row: Option<Row>): set<string> {
    if row.None? then {}
    else
      (set u | u in AssetUrls(row.value.draft))
      + if row.value.published.None? then {} else set u | u in AssetUrls(row.value.published.value)
  }

  // ----- Transactions -----

  function SaveTx(row: Option<Row>, settings: Settings, expected: int, fails: bool): Result<Row, SettingsError> {
    if row.Some? && row.value.version != expected then Err(VersionConflict)
    else if row.None? && expected != 1 then Err(VersionConflict)
    else if fails then Err(TransactionFailed)
    else if row.Some? then Ok(row.value.(draft := settings, version := row.value.version + 1))
    else Ok(Row(settings, None, 1))
  }

  function PublishTx(row: Option<Row>, expected: int, fails: bool): Result<Row, SettingsError> {
    if row.None? || row.value.version != expected then Err(VersionConflict)
    else if fails then Err(TransactionFailed)
    else Ok(row.value.(published := Some(row.value.draft), version := row.value.version + 1))
  }

  /** After a commit: unreferenced assets and stale uploads go, as far as they can be removed. */
  function CleanedUp(files: Files, row: Option<Row>, faults: Faults): Files {
    Files(
      DeleteAll(files.root, Unique(Candidates(faults.listing)), References(row), faults.stuck),
      RemoveStale(files.pending, faults.uploads, faults.now, faults.retention, faults.stuckUploads))
  }

  function SaveMoves(site: Site, actor: string, settings: Settings, faults: Faults): Moves {
    MoveAll(site.files, actor, Unique(AssetUrls(settings)), faults.unmovable, [])
  }

  function DraftSaved(
    site: Site, actor: string, settings: Settings, expected: int, faults: Faults): (Site, Result<Row, SettingsError>) {
    var moves := SaveMoves(site, actor, settings, faults);
    if moves.failure.Some? then (site.(files := moves.files), Err(AssetRefused(moves.failure.value)))
    else
      var stored := SaveTx(site.row, settings, expected, faults.transactionFails);
      if stored.Err? then (site.(files := RolledBack(moves.files, moves.committed)), Err(stored.error))
      else
        var row := Some(stored.value);
        var revisions := site.revisions + [Revision(actor, SavesDraft, stored.value.version, settings)];
        if faults.readFails then (Site(RolledBack(moves.files, moves.committed), row, revisions), Err(ReadFailed))
        else (Site(CleanedUp(moves.files, row, faults), row, revisions), Ok(stored.value))
  }

  function Published(site: Site, actor: string, expected: int, faults: Faults): (Site, Result<Row, SettingsError>) {
    var stored := PublishTx(site.row, expected, faults.transactionFails);
    if stored.Err? then (site, Err(stored.error))
    else
      var row := Some(stored.value);
      var revisions := site.revisions + [Revision(actor, Publishes, stored.value.version, stored.value.draft)];
      if faults.readFails then (Site(site.files, row, revisions), Err(ReadFailed))
      else (Site(CleanedUp(site.files, row, faults), row, revisions), Ok(stored.value))
  }

  /** The name of an upload is random; no name is drawn that is in use. */
  predicate Fresh(files: Files, id: string) {
    id !in files.root && forall k :: k in files.pending ==> k.id != id
  }

  function Stage(site: Site, actor: string, id: string, now: int): Site
    requires Fresh(site.files, id)
  {
    site.(files := Files(site.files.root, site.files.pending[Staged(actor, id) := now]))
  }

  // ----- Runs -----

  datatype Step =
    | StageStep(actor: string, id: string, now: int)
    | SaveStep(actor: string, settings: Settings, expected: int, faults: Faults)
    | PublishStep(actor: string, expected: int, faults: Faults)

  function Next(site: Site, step: Step): Site {
    match step
    case StageStep(actor, id, now) => if Fresh(site.files, id) then Stage(site, actor, id, now) else site
    case SaveStep(actor, settings, expected, faults) => DraftSaved(site, actor, settings, expected, faults).0
    case PublishStep(actor, expected, faults) => Published(site, actor, expected, faults).0
  }

  function Run(site: Site, steps: seq<Step>): Site
    decreases |steps|
  {
    if steps == [] then site else Run(Next(site, steps[0]), steps[1..])
  }

  function Initial(): Site {
    Site(Files({}, map[]), None, [])
  }

  // ----- Invariants -----

  /** Every asset URL in the stored draft or published settings has a file in the root. */
  predicate Agreement(site: Site) {
    forall u :: u in References(site.row) ==> IsAssetUrl(u) && IdOf(u) in site.files.root
  }

  /** The revision log's versions are exactly one to the current version. */
  predicate Versioned(site: Site) {
    && |site.revisions| == (if site.row.None? then 0 else site.row.value.version)
    && (site.row.Some? ==> site.row.value.version > 0)
    && forall i :: 0 <= i < |site.revisions| ==> site.revisions[i].version == i + 1
  }

  predicate Valid(site: Site) {
    Apart(site.files) && Agreement(site) && Versioned(site)
  }

  /** A save that committed but whose later read failed rolls back files its settings now need. */
  predicate Breaks(site: Site, step: Step) {
    && step.SaveStep?
    && step.faults.readFails
    && SaveMoves(site, step.actor, step.settings, step.faults).failure.None?
    && SaveMoves(site, step.actor, step.settings, step.faults).committed != []
    && SaveTx(site.row, step.settings, step.expected, step.faults.transactionFails).Ok?
  }

  lemma AssetUrlsHavePrefix(s: Settings, u: string)
    ensures u in AssetUrls(s) ==> HasPrefix(u)
  {
    FilterMembers([s.logoLight, s.logoDark, s.favicon, s.openGraphImage, s.heroImage], StartsWithPrefix(), u);
  }

  /** Clean-up leaves every referenced file and mixes nothing up. */
  lemma CleanUpKeepsReferenced(files: Files, row: Option<Row>, faults: Faults)
    requires Apart(files)
    ensures var cleaned := CleanedUp(files, row, faults);
            && Apart(cleaned)
            && forall u :: u in References(row) && IsAssetUrl(u) && IdOf(u) in files.root ==> IdOf(u) in cleaned.root
  {
    hide IsAssetId, References;
    var cleaned := CleanedUp(files, row, faults);
    DeletesOnlyUnreferenced(files.root, Unique(Candidates(faults.listing)), References(row), faults.stuck);
    OnlyStaleUploadsGo(files.pending, faults.uploads, faults.now, faults.retention, faults.stuckUploads);
    forall u | u in References(row) && IsAssetUrl(u) && IdOf(u) in files.root ensures IdOf(u) in cleaned.root {
      UrlsAndIds(u, "");
    }
  }

  /** Nothing stands in the way of a clean-up, and it sees every file of the root. */
  predicate CleansFully(files: Files, faults: Faults) {
    faults.stuck == {} && forall f :: f in files.root ==> f in faults.listing
  }

  /** A clean-up that nothing stands in the way of leaves of the files named like assets exactly those referred to. */
  lemma FullCleanUpLeavesReferenced(files: Files, row: Option<Row>, faults: Faults, id: string)
    requires CleansFully(files, faults) && IsAssetId(id)
    ensures id in CleanedUp(files, row, faults).root <==> id in files.root && UrlOf(id) in References(row)
  {
    hide IsAssetId, References;
    var urls := Unique(Candidates(faults.listing));
    DeletesOnlyUnreferenced(files.root, urls, References(row), faults.stuck);
    CandidatesAreListed(faults.listing, id);
    UrlsAndIds("", id);
    if id in files.root && UrlOf(id) !in References(row) {
      var i :| 0 <= i < |urls| && urls[i] == UrlOf(id);
      assert IsAssetUrl(urls[i]);
    }
  }

  /** What the moves of a save leave behind when none was refused. */
  lemma SaveMovesAreReported(site: Site, actor: string, settings: Settings, faults: Faults)
    requires Apart(site.files)
    ensures var m := SaveMoves(site, actor, settings, faults);
            && Apart(m.files) && m.files.root == site.files.root + Names(m.committed)
            && (forall id :: id in m.committed ==> id !in site.files.root && UrlOf(id) in AssetUrls(settings))
            && RolledBack(m.files, m.committed).root == site.files.root && Apart(RolledBack(m.files, m.committed))
            && (m.failure.None? ==> forall u :: u in AssetUrls(settings) ==> IsAssetUrl(u) && IdOf(u) in m.files.root)
  {
    hide IsAssetId;
    var urls := Unique(AssetUrls(settings));
    MovesAreReported(site.files, actor, urls, faults.unmovable, []);
    RollbackRestoresRoot(site.files, actor, urls, faults.unmovable);
    var m := SaveMoves(site, actor, settings, faults);
    if m.failure.None? {
      forall u | u in AssetUrls(settings) ensures IsAssetUrl(u) && IdOf(u) in m.files.root {
        assert u in urls;
      }
    }
  }

  /** The settings a save stores refer to what its moves put in place, and to what was published before. */
  lemma SavedReferences(site: Site, actor: string, settings: Settings, expected: int, faults: Faults)
    requires Valid(site)
    requires SaveMoves(site, actor, settings, faults).failure.None?
    requires SaveTx(site.row, settings, expected, faults.transactionFails).Ok?
    ensures var row := Some(SaveTx(site.row, settings, expected, faults.transactionFails).value);
            && (forall u :: u in References(row) ==>
                  IsAssetUrl(u) && IdOf(u) in SaveMoves(site, actor, settings, faults).files.root)
            && (forall u :: u in AssetUrls(settings) ==> u in References(row))
  {
    hide IsAssetId, AssetUrls;
    SaveMovesAreReported(site, actor, settings, faults);
    var row := SaveTx(site.row, settings, expected, faults.transactionFails).value;
    forall u | u in References(Some(row))
        ensures IsAssetUrl(u) && IdOf(u) in SaveMoves(site, actor, settings, faults).files.root {
      if u !in AssetUrls(settings) {
        assert site.row.Some? && u in References(site.row);
      }
    }
  }

  /** A save keeps files and settings in agreement exactly when it does not break off after its commit. */
  lemma SaveKeepsAgreementIff(site: Site, actor: string, settings: Settings, expected: int, faults: Faults)
    requires Valid(site)
    ensures var after := DraftSaved(site, actor, settings, expected, faults).0;
            && Apart(after.files)
            && (Agreement(after) <==> !Breaks(site, SaveStep(actor, settings, expected, faults)))
  {
    hide IsAssetId, AssetUrls, CleanedUp, References;
    SaveMovesAreReported(site, actor, settings, faults);
    var m := SaveMoves(site, actor, settings, faults);
    var stored := SaveTx(site.row, settings, expected, faults.transactionFails);
    if m.failure.None? && stored.Ok? {
      SavedReferences(site, actor, settings, expected, faults);
      if !faults.readFails {
        CleanUpKeepsReferenced(m.files, Some(stored.value), faults);
      } else if m.committed != [] {
        var id := m.committed[0];
        UrlsAndIds("", id);
        assert UrlOf(id) in References(Some(stored.value));
      } else {
        assert Names(m.committed) == {};
      }
    }
  }

  lemma PublishKeepsAgreement(site: Site, actor: string, expected: int, faults: Faults)
    requires Valid(site)
    ensures var after := Published(site, actor, expected, faults).0; Apart(after.files) && Agreement(after)
  {
    hide IsAssetId, AssetUrls, CleanedUp;
    var stored := PublishTx(site.row, expected, faults.transactionFails);
    if stored.Ok? {
      assert References(Some(stored.value)) <= References(site.row);
      if !faults.readFails {
        hide References;
        CleanUpKeepsReferenced(site.files, Some(stored.value), faults);
      }
    }
  }

  /**
    After a save or publication without faults, seeing the whole root, the files named like assets
    are exactly the ones the stored draft and published settings refer to.
   */
  lemma OnlyReferencedAssetsRemain(site: Site, step: Step, id: string)
    requires Valid(site) && IsAssetId(id)
    requires || (step.SaveStep? && DraftSaved(site, step.actor, step.settings, step.expected, step.faults).1.Ok?
                 && CleansFully(SaveMoves(site, step.actor, step.settings, step.faults).files, step.faults))
             || (step.PublishStep? && Published(site, step.actor, step.expected, step.faults).1.Ok?
                 && CleansFully(site.files, step.faults))
    ensures id in Next(site, step).files.root <==> UrlOf(id) in References(Next(site, step).row)
  {
    hide IsAssetId, References, CleanedUp, MoveAll, CleansFully;
    UrlsAndIds("", id);
    StepKeepsValidIff(site, step);
    var row := Next(site, step).row;
    var files := if step.SaveStep? then SaveMoves(site, step.actor, step.settings, step.faults).files else site.files;
    FullCleanUpLeavesReferenced(files, row, step.faults, id);
  }

  lemma StepKeepsVersions(site: Site, step: Step)
    requires Versioned(site)
    ensures Versioned(Next(site, step))
  {
    hide CleanedUp, MoveAll, SaveMoves, RolledBack;
  }

  /** After any step the invariant still holds exactly when the step does not break off after its commit. */
  lemma StepKeepsValidIff(site: Site, step: Step)
    requires Valid(site)
    ensures Apart(Next(site, step).files) && Versioned(Next(site, step))
    ensures Agreement(Next(site, step)) <==> !Breaks(site, step)
  {
    StepKeepsVersions(site, step);
    match step {
      case StageStep(actor, id, now) =>
        hide IsAssetId, References;
      case SaveStep(actor, settings, expected, faults) =>
          SaveKeepsAgreementIff(site, actor, settings, expected, faults);
      case PublishStep(actor, expected, faults) => PublishKeepsAgreement(site, actor, expected, faults);
    }
  }

  /** No step of the run breaks off after its commit. */
  predicate Unbroken(site: Site, steps: seq<Step>)
    decreases |steps|
  {
    steps == [] || (!Breaks(site, steps[0]) && Unbroken(Next(site, steps[0]), steps[1..]))
  }

  lemma {:induction false} RunKeepsValid(site: Site, steps: seq<Step>)
    requires Valid(site) && Unbroken(site, steps)
    ensures Valid(Run(site, steps))
    decreases |steps|
  {
    hide Next, Breaks, Apart, Agreement, Versioned;
    if steps == [] {
    } else {
      StepKeepsValidIff(site, steps[0]);
      RunKeepsValid(Next(site, steps[0]), steps[1..]);
    }
  }

  /** After any run without such a break every stored asset URL has its file. */
  lemma FilesAgreeAfterAnyRun(steps: seq<Step>, u: string)
    requires Unbroken(Initial(), steps) && u in References(Run(Initial(), steps).row)
    ensures IsAssetUrl(u) && IdOf(u) in Run(Initial(), steps).files.root
  {
    hide Run, Unbroken, References, IsAssetId;
    InitialIsValid();
    RunKeepsValid(Initial(), steps);
  }

  lemma InitialIsValid()
    ensures Valid(Initial())
  {
  }

  /** After any run at all the revision log's versions are one to the current version. */
  lemma {:induction false} VersionsAreConsecutive(site: Site, steps: seq<Step>)
    requires Versioned(site)
    ensures Versioned(Run(site, steps))
    decreases |steps|
  {
    hide Next, Versioned;
    if steps == [] {
    } else {
      StepKeepsVersions(site, steps[0]);
      VersionsAreConsecutive(Next(site, steps[0]), steps[1..]);
    }
  }

  /** A refused transaction leaves the root, the settings and the log as they were. */
  lemma RefusedSaveRestores(site: Site, actor: string, settings: Settings, expected: int, faults: Faults)
    requires Apart(site.files) && SaveMoves(site, actor, settings, faults).failure.None?
    requires SaveTx(site.row, settings, expected, faults.transactionFails).Err?
    ensures var after := DraftSaved(site, actor, settings, expected, faults).0;
            after.files.root == site.files.root && after.row == site.row && after.revisions == site.revisions
  {
    SaveMovesAreReported(site, actor, settings, faults);
  }

  /**
    A save refused for a file or by its transaction leaves everything as it was exactly when it had
    moved no upload.
   */
  lemma RefusedSaveChangesNothingIff(site: Site, actor: string, settings: Settings, expected: int, faults: Faults)
    requires Apart(site.files)
    requires || SaveMoves(site, actor, settings, faults).failure.Some?
             || SaveTx(site.row, settings, expected, faults.transactionFails).Err?
    ensures DraftSaved(site, actor, settings, expected, faults).0 == site
       <==> SaveMoves(site, actor, settings, faults).committed == []
  {
    hide IsAssetId, AssetUrls, MoveAll;
    var urls := Unique(AssetUrls(settings));
    var m := SaveMoves(site, actor, settings, faults);
    OnlyUploadsMove(site.files, actor, urls, faults.unmovable, []);
    MovesAreReported(site.files, actor, urls, faults.unmovable, []);
    RollbackRestoresRoot(site.files, actor, urls, faults.unmovable);
    if m.committed == [] {
      assert RolledBack(m.files, m.committed) == site.files;
    } else {
      assert m.committed[0] in m.committed;
      assert Staged(actor, m.committed[0]) in site.files.pending;
    }
  }

  /**
    What a refused save had moved is gone: saving the same settings again cannot succeed, whatever
    version is expected.
   */
  lemma RefusedSaveLosesUploads(
    site: Site, actor: string, settings: Settings, expected: int, faults: Faults, again: int, faultsAgain: Faults)
    requires Apart(site.files) && SaveMoves(site, actor, settings, faults).failure.None?
    requires SaveMoves(site, actor, settings, faults).committed != []
    requires SaveTx(site.row, settings, expected, faults.transactionFails).Err?
    ensures var after := DraftSaved(site, actor, settings, expected, faults).0;
            DraftSaved(after, actor, settings, again, faultsAgain).1 == Err(AssetRefused(MoveFailed))
  {
    hide IsAssetId, AssetUrls;
    var urls := Unique(AssetUrls(settings));
    var m := SaveMoves(site, actor, settings, faults);
    var after := DraftSaved(site, actor, settings, expected, faults).0;
    MovesAreReported(site.files, actor, urls, faults.unmovable, []);
    RollbackRestoresRoot(site.files, actor, urls, faults.unmovable);
    var id := m.committed[0];
    UrlsAndIds("", id);
    var i :| 0 <= i < |urls| && urls[i] == UrlOf(id);
    assert !Movable(after.files, actor, urls[i], faultsAgain.unmovable);
    MovesAreReported(after.files, actor, urls, faultsAgain.unmovable, []);
    OnlyMovesFail(after.files, actor, urls, faultsAgain.unmovable, []);
    var second := SaveMoves(after, actor, settings, faultsAgain);
    assert second.failure.Some?;
    assert second.failure.value == MoveFailed;
  }

  /** Where every URL is an asset's, only a missing file stops a commit. */
  lemma {:induction false} OnlyMovesFail(
    files: Files, actor: string, urls: seq<string>, faulty: set<string>, done: seq<string>)
    requires forall i :: 0 <= i < |urls| ==> IsAssetUrl(urls[i])
    ensures MoveAll(files, actor, urls, faulty, done).failure != Some(UrlInvalid)
    decreases |urls|
  {
    hide IsAssetId;
    if urls == [] {
    } else if CanMove(files, actor, IdOf(urls[0]), faulty) {
      OnlyMovesFail(Move(files, actor, IdOf(urls[0])), actor, urls[1..], faulty, done + [IdOf(urls[0])]);
    } else {
      OnlyMovesFail(files, actor, urls[1..], faulty, done);
    }
  }

  // ----- A concrete break -----

  const LOGO := "00000000-0000-0000-0000-000000000000.png"

  function LogoSettings(): Settings {
    Settings(UrlOf(LOGO), "", "", "", "", "")
  }

  function ReadFails(): Faults {
    Faults({}, false, true, [], {}, [], {}, 0, 0)
  }

  lemma LogoUrls()
    ensures IsAssetUrl(UrlOf(LOGO)) && Unique(AssetUrls(LogoSettings())) == [UrlOf(LOGO)]
  {
    UrlsAndIds("", LOGO);
    assert |LOGO| == 40 && LOGO[36..] == ".png";
    var five := [UrlOf(LOGO), "", "", "", ""];
    assert !HasPrefix("");
    assert five[1..] == ["", "", "", ""] && five[1..][1..] == ["", "", ""] && five[1..][1..][1..] == ["", ""]
        && five[1..][1..][1..][1..] == [""];
    assert Filter([""], StartsWithPrefix()) == [];
    assert Filter(["", ""], StartsWithPrefix()) == [];
    assert Filter(["", "", ""], StartsWithPrefix()) == [];
    assert Filter(["", "", "", ""], StartsWithPrefix()) == [];
    assert Filter(five, StartsWithPrefix()) == [UrlOf(LOGO)];
    assert Unique([]) == [];
    assert [UrlOf(LOGO)][..0] == [];
  }

  /** One upload and one save whose read fails after the commit: the stored logo has no file. */
  lemma BrokenSaveLosesTheLogo()
    ensures var staged := Next(Initial(), StageStep("admin", LOGO, 0));
            var saved := Next(staged, SaveStep("admin", LogoSettings(), 1, ReadFails()));
            && UrlOf(LOGO) in References(saved.row)
            && LOGO !in saved.files.root
  {
    LogoUrls();
    UrlsAndIds("", LOGO);
    hide IsAssetId;
    var staged := Next(Initial(), StageStep("admin", LOGO, 0));
    assert staged.files == Files({}, map[Staged("admin", LOGO) := 0]);
    var m := SaveMoves(staged, "admin", LogoSettings(), ReadFails());
    var moved := Move(staged.files, "admin", LOGO);
    assert [UrlOf(LOGO)][1..] == [] && [] + [LOGO] == [LOGO];
    assert MoveAll(moved, "admin", [], {}, [LOGO]) == Moves(moved, [LOGO], None);
    assert CanMove(staged.files, "admin", LOGO, {});
    assert m == MoveAll(staged.files, "admin", [UrlOf(LOGO)], {}, []);
    assert m == Moves(moved, [LOGO], None);
    assert LOGO in Names(m.committed);
    assert UrlOf(LOGO) in Unique(AssetUrls(LogoSettings()));
    AssetUrlsHavePrefix(LogoSettings(), UrlOf(LOGO));
  }

  // ----- The services -----

  class SiteSettingsService {
    var root: set<string>
    var pending: map<Staged, int>
    var row: Option<Row>
    var revisions: seq<Revision>

    function State(): Site
      reads this
    {
      Site(Files(root, pending), row, revisions)
    }

    constructor ()
      ensures State() == Initial() && Valid(State())
    {
      root, pending, row, revisions := {}, map[], None, [];
    }

    /** Writes an upload under a fresh name. */
    method StageUpload(actor: string, id: string, now: int)
      requires Fresh(State().files, id)
      modifies this`pending
      ensures State() == Next(old(State()), StageStep(actor, id, now))
    {
      pending := pending[Staged(actor, id) := now];
    }

    /** Moves what the URLs refer to; stops at the first URL or file it cannot accept. */
    method CommitReferenced(actor: string, urls: seq<string>, faulty: set<string>)
      returns (committed: seq<string>, failure: Option<AssetError>)
      modifies this`root, this`pending
      ensures Moves(State().files, committed, failure) == MoveAll(old(State().files), actor, Unique(urls), faulty, [])
    {
      committed, failure := [], None;
      var once := Unique(urls);
      var i := 0;
      while i < |once|
        invariant 0 <= i <= |once|
        invariant MoveAll(State().files, actor, once[i..], faulty, committed)
                 == MoveAll(old(State().files), actor, once, faulty, [])
        invariant failure.None?
      {
        assert once[i..][0] == once[i] && once[i..][1..] == once[i + 1..];
        if !IsAssetUrl(once[i]) {
          failure := Some(UrlInvalid);
          return;
        }
        var id := IdOf(once[i]);
        if Staged(actor, id) in pending && id !in faulty {
          root, pending := root + {id}, pending - {Staged(actor, id)};
          committed := committed + [id];
        } else if id !in root {
          failure := Some(MoveFailed);
          return;
        }
        i := i + 1;
      }
    }

    /** Removes the files a commit had moved. */
    method RollbackCommitted(committed: seq<string>)
      modifies this`root
      ensures State().files == RolledBack(old(State().files), committed)
    {
      var i := 0;
      while i < |committed|
        invariant 0 <= i <= |committed|
        invariant root == old(root) - Names(committed[..i])
      {
        assert committed[..i + 1] == committed[..i] + [committed[i]];
        root := root - {committed[i]};
        i := i + 1;
      }
      assert committed[..i] == committed;
    }

    /** Removes the unreferenced assets among the URLs; no count is answered once a removal has failed. */
    method DeleteUnreferenced(urls: seq<string>, referenced: set<string>, stuck: set<string>)
        returns (removed: Option<nat>)
      modifies this`root
      ensures root == DeleteAll(old(root), Unique(urls), referenced, stuck)
      ensures removed == DeleteCount(Unique(urls), referenced, stuck)
    {
      var once := Unique(urls);
      var count: nat := 0;
      var i := 0;
      while i < |once|
        invariant 0 <= i <= |once|
        invariant DeleteAll(root, once[i..], referenced, stuck) == DeleteAll(old(root), once, referenced, stuck)
        invariant var rest := DeleteCount(once[i..], referenced, stuck);
                  DeleteCount(once, referenced, stuck) == if rest.None? then None else Some(count + rest.value)
      {
        var url := once[i];
        assert once[i..][0] == url && once[i..][1..] == once[i + 1..];
        i := i + 1;
        if url in referenced || !IsAssetUrl(url) {
          continue;
        }
        if IdOf(url) in stuck {
          return None;
        }
        root := root - {IdOf(url)};
        count := count + 1;
      }
      removed := Some(count);
    }

    method CleanupCommitted(referenced: set<string>, listing: seq<string>, stuck: set<string>)
        returns (removed: Option<nat>)
      modifies this`root
      ensures root == DeleteAll(old(root), Unique(Candidates(listing)), referenced, stuck)
      ensures removed == DeleteCount(Unique(Candidates(listing)), referenced, stuck)
    {
      removed := DeleteUnreferenced(Candidates(listing), referenced, stuck);
    }

    method CleanupStaged(listing: seq<Staged>, now: int, retention: int, stuck: set<Staged>) returns (removed: nat)
      modifies this`pending
      ensures pending == RemoveStale(old(pending), listing, now, retention, stuck)
      ensures removed == StaleCount(old(pending), listing, now, retention, stuck)
    {
      removed := 0;
      var i := 0;
      while i < |listing|
        invariant 0 <= i <= |listing|
        invariant RemoveStale(pending, listing[i..], now, retention, stuck)
                 == RemoveStale(old(pending), listing, now, retention, stuck)
        invariant removed + StaleCount(pending, listing[i..], now, retention, stuck)
               == StaleCount(old(pending), listing, now, retention, stuck)
      {
        var file := listing[i];
        assert listing[i..][0] == file && listing[i..][1..] == listing[i + 1..];
        if file in pending && now - pending[file] >= retention {
          if file !in stuck {
            pending := pending - {file};
          }
          removed := removed + 1;
        }
        i := i + 1;
      }
    }

    /** Adds the URLs of the draft and of the published settings to one set. */
    method CollectReferences() returns (references: set<string>)
      ensures references == References(row)
    {
      references := {};
      if row.Some? {
        var values := [row.value.draft] + if row.value.published.Some? then [row.value.published.value] else [];
        var i := 0;
        while i < |values|
          invariant 0 <= i <= |values|
          invariant references == set n, u | 0 <= n < i && u in AssetUrls(values[n]) :: u
        {
          var urls := AssetUrls(values[i]);
          var j := 0;
          ghost var before := references;
          while j < |urls|
            invariant 0 <= j <= |urls|
            invariant references == before + set u | u in urls[..j]
          {
            references := references + {urls[j]};
            j := j + 1;
          }
          assert urls[..j] == urls;
          i := i + 1;
        }
        assert forall u ::
            u in References(row) <==> u in AssetUrls(values[0]) || (|values| == 2 && u in AssetUrls(values[1]));
        assert references == References(row);
      }
    }

    /** Saves a draft: moves its files, stores it under the next version, then cleans up or rolls back. */
    method SaveDraft(
      actor: string, settings: Settings, expected: int, faults: Faults) returns (r: Result<Row, SettingsError>)
      modifies this
      ensures State() == Next(old(State()), SaveStep(actor, settings, expected, faults))
      ensures r == DraftSaved(old(State()), actor, settings, expected, faults).1
    {
      var committed, failure := CommitReferenced(actor, AssetUrls(settings), faults.unmovable);
      if failure.Some? {
        return Err(AssetRefused(failure.value));
      }
      var conflict := if row.Some? then row.value.version != expected else expected != 1;
      if conflict || faults.transactionFails {
        RollbackCommitted(committed);
        return Err(if conflict then VersionConflict else TransactionFailed);
      }
      var nextVersion := if row.Some? then row.value.version + 1 else 1;
      row := Some(if row.Some? then row.value.(draft := settings, version := nextVersion)
        else Row(settings, None, nextVersion));
      revisions := revisions + [Revision(actor, SavesDraft, nextVersion, settings)];
      if faults.readFails {
        RollbackCommitted(committed);
        return Err(ReadFailed);
      }
      var references := CollectReferences();
      var _ := CleanupCommitted(references, faults.listing, faults.stuck);
      var _ := CleanupStaged(faults.uploads, faults.now, faults.retention, faults.stuckUploads);
      r := Ok(row.value);
    }

    /** Publishes the stored draft under the next version, then cleans up. */
    method Publish(actor: string, expected: int, faults: Faults) returns (r: Result<Row, SettingsError>)
      modifies this
      ensures State() == Next(old(State()), PublishStep(actor, expected, faults))
      ensures r == Published(old(State()), actor, expected, faults).1
    {
      if row.None? || row.value.version != expected {
        return Err(VersionConflict);
      }
      if faults.transactionFails {
        return Err(TransactionFailed);
      }
      var nextVersion := row.value.version + 1;
      row := Some(row.value.(published := Some(row.value.draft), version := nextVersion));
      revisions := revisions + [Revision(actor, Publishes, nextVersion, row.value.draft)];
      if faults.readFails {
        return Err(ReadFailed);
      }
      var references := CollectReferences();
      var _ := CleanupCommitted(references, faults.listing, faults.stuck);
      var _ := CleanupStaged(faults.uploads, faults.now, faults.retention, faults.stuckUploads);
      r := Ok(row.value);
    }
  }
}
