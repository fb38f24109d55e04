/**
  The files behind site assets: uploads wait in a directory per administrator, a save moves
  the ones it refers to into the root, clean-up removes what nothing refers to.
 */
module SiteAssets {
  import opened Wrappers
  import opened Rows

  const PREFIX := "/site-assets/"

  predicate HasPrefix(url: string) {
    PREFIX <= url
  }

  function StartsWithPrefix(): string -> bool {
    (url: string) => HasPrefix(url)
  }

  predicate IsIdCharacter(c: char) {
    c == '-' || 'a' <= c <= 'f' || '0' <= c <= '9'
  }

  /** The pattern of file names: thirty-six characters and an extension. */
  predicate IsAssetId(id: string) {
    && |id| > 36
    && (forall i :: 0 <= i < 36 ==> IsIdCharacter(id[i]))
    && id[36..] in {".png", ".jpg", ".webp", ".ico"}
  }

  function IdOf(url: string): string
    requires HasPrefix(url)
  {
    url[|PREFIX|..]
  }

  function UrlOf(id: string): string {
    PREFIX + id
  }

  /** The prefix and then a file name, which has no further separator. */
  predicate IsAssetUrl(url: string) {
    HasPrefix(url) && IsAssetId(IdOf(url))
  }

  lemma UrlsAndIds(url: string, id: string)
    ensures HasPrefix(UrlOf(id)) && IdOf(UrlOf(id)) == id
    ensures HasPrefix(url) ==> UrlOf(IdOf(url)) == url
  {
  }

  // ----- Files -----

  datatype Staged = Staged(actor: string, id: string)

  /** The names in the root and the waiting uploads with their times of change. */
  datatype Files = Files(root: set<string>, pending: map<Staged, int>)

  datatype AssetError = UrlInvalid | MoveFailed

  /** What a commit did: the files afterwards, the names it moved, and why it stopped, if it did. */
  datatype Moves = Moves(files: Files, committed: seq<string>, failure: Option<AssetError>)

  /** Every value once, where it first stands. */
  function Unique(urls: seq<string>): (once: seq<string>)
    ensures forall u :: u in once <==> u in urls
    ensures Distinct(once)
  {
    if urls == [] then []
    else
      var before := Unique(urls[..|urls| - 1]);
      assert urls == urls[..|urls| - 1] + [urls[|urls| - 1]];
      if urls[|urls| - 1] in before then before else before + [urls[|urls| - 1]]
  }

  /** `faulty` are the names the file system fails to move. */
  predicate CanMove(files: Files, actor: string, id: string, faulty: set<string>) {
    Staged(actor, id) in files.pending && id !in faulty
  }

  function Move(files: Files, actor: string, id: string): Files {
    Files(files.root + {id}, files.pending - {Staged(actor, id)})
  }

  /** One URL after the other: move the upload, or find the file in place, or stop. */
  function MoveAll(files: Files, actor: string, urls: seq<string>, faulty: set<string>, committed: seq<string>): Moves
    decreases |urls|
  {
    if urls == [] then Moves(files, committed, None)
    else if !IsAssetUrl(urls[0]) then Moves(files, committed, Some(UrlInvalid))
    else
      var id := IdOf(urls[0]);
      if CanMove(files, actor, id, faulty)
          then MoveAll(Move(files, actor, id), actor, urls[1..], faulty, committed + [id])
      else if id in files.root then MoveAll(files, actor, urls[1..], faulty, committed)
      else Moves(files, committed, Some(MoveFailed))
  }

  function Names(paths: seq<string>): set<string> {
    set p | p in paths
  }

  function RolledBack(files: Files, committed: seq<string>): Files {
    files.(root := files.root - Names(committed))
  }

  /** Removal stops at the first name the file system fails to remove. */
  function DeleteAll(root: set<string>, urls: seq<string>, referenced: set<string>, stuck: set<string>): set<string>
    decreases |urls|
  {
    if urls == [] then root
    else if urls[0] in referenced || !IsAssetUrl(urls[0]) then DeleteAll(root, urls[1..], referenced, stuck)
    else if IdOf(urls[0]) in stuck then root
    else DeleteAll(root - {IdOf(urls[0])}, urls[1..], referenced, stuck)
  }

  /** How many files were removed, unless a removal failed. */
  function DeleteCount(urls: seq<string>, referenced: set<string>, stuck: set<string>): Option<nat>
    decreases |urls|
  {
    if urls == [] then Some(0)
    else if urls[0] in referenced || !IsAssetUrl(urls[0]) then DeleteCount(urls[1..], referenced, stuck)
    else if IdOf(urls[0]) in stuck then None
    else
      var rest := DeleteCount(urls[1..], referenced, stuck);
      if rest.None? then None else Some(rest.value + 1)
  }

  /** The URLs of the listed names that look like assets. */
  function Candidates(listing: seq<string>): seq<string>
    decreases |listing|
  {
    if listing == [] then []
    else if IsAssetId(listing[0]) then [UrlOf(listing[0])] + Candidates(listing[1..])
    else Candidates(listing[1..])
  }

  /** Old uploads go one by one; one that cannot be removed stays. */
  function RemoveStale(
    pending: map<Staged, int>, listing: seq<Staged>, now: int, retention: int, stuck: set<Staged>): map<Staged, int>
    decreases |listing|
  {
    if listing == [] then pending
    else if listing[0] in pending && now - pending[listing[0]] >= retention && listing[0] !in stuck then
      RemoveStale(pending - {listing[0]}, listing[1..], now, retention, stuck)
    else RemoveStale(pending, listing[1..], now, retention, stuck)
  }

  /** How many uploads were found past the retention time, removable or not. */
  function StaleCount(pending: map<Staged, int>, listing: seq<Staged>, now: int, retention: int,
      stuck: set<Staged>): nat
    decreases |listing|
  {
    if listing == [] then 0
    else if listing[0] in pending && now - pending[listing[0]] >= retention then
      1 + StaleCount(if listing[0] in stuck then pending else pending - {listing[0]}, listing[1..], now, retention,
        stuck)
    else StaleCount(pending, listing[1..], now, retention, stuck)
  }

  // ----- What moving does -----

  /** No name is both waiting and in the root, or waiting twice. */
  predicate Apart(files: Files) {
    && (forall k :: k in files.pending ==> k.id !in files.root)
    && (forall j, k :: j in files.pending && k in files.pending && j.id == k.id ==> j == k)
  }

  predicate Movable(files: Files, actor: string, url: string, faulty: set<string>) {
    IsAssetUrl(url) && (CanMove(files, actor, IdOf(url), faulty) || IdOf(url) in files.root)
  }

  lemma MoveKeepsApart(files: Files, actor: string, id: string)
    requires Apart(files) && Staged(actor, id) in files.pending
    ensures Apart(Move(files, actor, id)) && id !in files.root
  {
    var moved := Move(files, actor, id);
    forall k | k in moved.pending ensures k.id !in moved.root {
      assert k in files.pending && k != Staged(actor, id);
    }
  }

  /**
    A commit adds to the root exactly the names it reports, all new there; it succeeds exactly
    when every URL is an asset's and either waits and can be moved or is in place, and then all are in place.
   */
  lemma {:induction false} MovesAreReported(
    files: Files, actor: string, urls: seq<string>, faulty: set<string>, done: seq<string>)
    requires Apart(files) && Distinct(urls) && forall id :: id in done ==> id in files.root
    ensures var m := MoveAll(files, actor, urls, faulty, done);
            && Apart(m.files) && done <= m.committed
            && m.files.root == files.root + Names(m.committed)
            && (forall id :: id in m.committed ==>
                  id in done || (id !in files.root && HasPrefix(UrlOf(id)) && UrlOf(id) in urls))
            && (forall id :: id in m.committed ==> Staged(actor, id) !in m.files.pending || id in done)
            && (forall k :: k in m.files.pending ==> k in files.pending && m.files.pending[k] == files.pending[k])
            && (m.failure.None? <==> forall i :: 0 <= i < |urls| ==> Movable(files, actor, urls[i], faulty))
            && (m.failure.None? ==>
                  forall i :: 0 <= i < |urls| ==> IsAssetUrl(urls[i]) && IdOf(urls[i]) in m.files.root)
    decreases |urls|
  {
    hide IsAssetId;
    if urls == [] {
      assert files.root == files.root + Names(done);
    } else if IsAssetUrl(urls[0]) {
      var id := IdOf(urls[0]);
      UrlsAndIds(urls[0], id);
      RestIsDistinct(urls);
      if CanMove(files, actor, id, faulty) {
        MoveKeepsApart(files, actor, id);
        MovesAreReported(Move(files, actor, id), actor, urls[1..], faulty, done + [id]);
        MovableLater(files, actor, urls, faulty);
        var m := MoveAll(Move(files, actor, id), actor, urls[1..], faulty, done + [id]);
        assert m.committed[|done|] == (done + [id])[|done|] == id;
        assert id in Names(m.committed);
      } else if id in files.root {
        MovesAreReported(files, actor, urls[1..], faulty, done);
      }
    }
  }

  lemma RestIsDistinct(urls: seq<string>)
    requires Distinct(urls) && urls != []
    ensures Distinct(urls[1..]) && urls[0] !in urls[1..]
  {
  }

  /** Moving the first upload does not change what can be said of the others. */
  lemma MovableLater(files: Files, actor: string, urls: seq<string>, faulty: set<string>)
    requires Distinct(urls) && urls != [] && IsAssetUrl(urls[0]) && CanMove(files, actor, IdOf(urls[0]), faulty)
    ensures forall i :: 0 < i < |urls| ==>
              (Movable(files, actor, urls[i], faulty) <==>
               Movable(Move(files, actor, IdOf(urls[0])), actor, urls[i], faulty))
  {
    forall i | 0 < i < |urls|
      ensures Movable(files, actor, urls[i], faulty)
              <==> Movable(Move(files, actor, IdOf(urls[0])), actor, urls[i], faulty)
    {
      UrlsAndIds(urls[0], "");
      UrlsAndIds(urls[i], "");
      assert urls[i] != urls[0];
    }
  }

  /** Whatever a commit moved was waiting for this administrator; a commit that moved nothing changed nothing. */
  lemma {:induction false} OnlyUploadsMove(files: Files, actor: string, urls: seq<string>, faulty: set<string>,
      done: seq<string>)
    ensures var m := MoveAll(files, actor, urls, faulty, done);
            && |done| <= |m.committed|
            && (|m.committed| == |done| ==> m.files == files)
            && forall id :: id in m.committed ==> id in done || Staged(actor, id) in files.pending
    decreases |urls|
  {
    hide IsAssetId;
    if urls != [] && IsAssetUrl(urls[0]) {
      var id := IdOf(urls[0]);
      if CanMove(files, actor, id, faulty) {
        OnlyUploadsMove(Move(files, actor, id), actor, urls[1..], faulty, done + [id]);
      } else {
        OnlyUploadsMove(files, actor, urls[1..], faulty, done);
      }
    }
  }

  // ----- What rolling back and cleaning up do -----

  /** Rolling a commit back restores the root as it was; the uploads it had moved are gone. */
  lemma RollbackRestoresRoot(files: Files, actor: string, urls: seq<string>, faulty: set<string>)
    requires Apart(files) && Distinct(urls)
    ensures var m := MoveAll(files, actor, urls, faulty, []);
            && RolledBack(m.files, m.committed).root == files.root
            && Apart(RolledBack(m.files, m.committed))
            && forall id :: id in m.committed ==>
                 id !in RolledBack(m.files, m.committed).root && Staged(actor, id) !in m.files.pending
  {
    MovesAreReported(files, actor, urls, faulty, []);
  }

  /** Only listed, unreferenced assets are removed, and all of them when no removal fails. */
  lemma {:induction false} DeletesOnlyUnreferenced(
    root: set<string>, urls: seq<string>, referenced: set<string>, stuck: set<string>)
    ensures var left := DeleteAll(root, urls, referenced, stuck);
            && left <= root
            && (forall id :: id in root && id !in left ==>
                  UrlOf(id) in urls && UrlOf(id) !in referenced && IsAssetId(id))
            && (stuck == {} ==> forall i :: 0 <= i < |urls| && IsAssetUrl(urls[i]) && urls[i] !in referenced ==>
              IdOf(urls[i]) !in left)
    decreases |urls|
  {
    hide IsAssetId;
    if urls == [] {
    } else if urls[0] in referenced || !IsAssetUrl(urls[0]) {
      DeletesOnlyUnreferenced(root, urls[1..], referenced, stuck);
    } else {
      UrlsAndIds(urls[0], "");
      DeletesOnlyUnreferenced(root - {IdOf(urls[0])}, urls[1..], referenced, stuck);
    }
  }

  lemma {:induction false} CandidatesAreListed(listing: seq<string>, id: string)
    ensures UrlOf(id) in Candidates(listing) <==> id in listing && IsAssetId(id)
    decreases |listing|
  {
    hide IsAssetId;
    if listing == [] {
    } else {
      CandidatesAreListed(listing[1..], id);
      assert listing == [listing[0]] + listing[1..];
      UrlsAndIds("", id);
      UrlsAndIds("", listing[0]);
    }
  }

  /** Only uploads past the retention time go. */
  lemma {:induction false} OnlyStaleUploadsGo(
    pending: map<Staged, int>, listing: seq<Staged>, now: int, retention: int, stuck: set<Staged>)
    ensures var left := RemoveStale(pending, listing, now, retention, stuck);
            && (forall k :: k in left ==> k in pending && left[k] == pending[k])
            && (forall k :: k in pending && k !in left ==> k in listing && now - pending[k] >= retention && k !in stuck)
            && (forall k :: k in pending && k in listing && now - pending[k] >= retention && k !in stuck ==> k !in left)
    decreases |listing|
  {
    if listing == [] {
    } else {
      var after := if listing[0] in pending && now - pending[listing[0]] >= retention && listing[0] !in stuck
                   then pending - {listing[0]} else pending;
      OnlyStaleUploadsGo(after, listing[1..], now, retention, stuck);
      assert listing == [listing[0]] + listing[1..];
    }
  }

  /** The count of a clean-up without failures is the number of files the root lost. */
  lemma {:induction false} CountIsWhatTheRootLost(root: set<string>, urls: seq<string>, referenced: set<string>,
      stuck: set<string>)
    requires Distinct(urls) && DeleteCount(urls, referenced, stuck).Some?
    requires forall i :: 0 <= i < |urls| && IsAssetUrl(urls[i]) ==> IdOf(urls[i]) in root
    ensures |root| == |DeleteAll(root, urls, referenced, stuck)| + DeleteCount(urls, referenced, stuck).value
    decreases |urls|
  {
    hide IsAssetId;
    if urls == [] {
    } else if urls[0] in referenced || !IsAssetUrl(urls[0]) {
      CountIsWhatTheRootLost(root, urls[1..], referenced, stuck);
    } else {
      forall i | 0 <= i < |urls[1..]| && IsAssetUrl(urls[1..][i]) ensures IdOf(urls[1..][i]) in root - {IdOf(urls[0])} {
        UrlsAndIds(urls[0], "");
        UrlsAndIds(urls[i + 1], "");
        assert urls[0] != urls[i + 1];
      }
      CountIsWhatTheRootLost(root - {IdOf(urls[0])}, urls[1..], referenced, stuck);
    }
  }

  /** The count of stale uploads is the number that went when none was stuck. */
  lemma {:induction false} CountIsWhatWaitedTooLong(pending: map<Staged, int>, listing: seq<Staged>, now: int,
      retention: int)
    ensures |pending| == |RemoveStale(pending, listing, now, retention, {})|
            + StaleCount(pending, listing, now, retention, {})
    decreases |listing|
  {
    if listing == [] {
    } else if listing[0] in pending && now - pending[listing[0]] >= retention {
      var rest := pending - {listing[0]};
      assert rest.Keys == pending.Keys - {listing[0]};
      assert |rest| == |pending| - 1;
      CountIsWhatWaitedTooLong(rest, listing[1..], now, retention);
    } else {
      CountIsWhatWaitedTooLong(pending, listing[1..], now, retention);
    }
  }
}
