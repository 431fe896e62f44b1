/**
 The installer (`install`): resolve the download link through the
 marketplace, download the artifact, upload it to the plugin manager with the
 current session token, then wait for the install job to report done.
 */
module Installer {
  import opened Records
  import opened Marketplace
  import opened Filename
  import opened Poll

  /** The answer to the artifact download. The download is not checked for an
      HTTP error status; only a request that raises stops the install. */
  datatype DownloadReply = DownloadFailed | Downloaded(disposition: Option<string>)

  /** The answer to the upload. */
  datatype UploadReply = Rejected | Accepted

  /** Everything the remote side answers during one install, in request order. */
  datatype InstallWorld = InstallWorld(
    pages: seq<PageReply>,
    download: DownloadReply,
    upload: UploadReply,
    statuses: seq<StatusReply>)

  /** The remote effects of one install and how it ended. */
  datatype InstallRun = InstallRun(effects: seq<Effect>, outcome: Outcome)

  /** A link the source accepts: present and not the empty string. */
  predicate Usable(url: Option<string>)
  {
    url.Some? && url.value != ""
  }

  /** A saved name that makes the artifact's path a directory, the temporary
      directory itself or its parent, so that opening it for writing raises. */
  predicate NamesDirectory(name: string)
  {
    name == "" || name == "." || name == ".."
  }

  /** The artifact of `url`, downloaded with the header `disposition`, gets a
      file name it can be saved under. */
  predicate Saveable(url: string, disposition: Option<string>)
  {
    ChooseFilename(url, disposition).Some? && !NamesDirectory(ChooseFilename(url, disposition).value)
  }

  /** The remote side accepts the upload, and a status poll eventually
      reports the install done. */
  predicate Completes(world: InstallWorld)
  {
    world.upload == Accepted && Wait(world.statuses).state.Done?
  }

  /** The versions requests made for `key` at the given offsets. */
  function PageEffects(key: string, offsets: seq<nat>): (es: seq<Effect>)
    ensures |es| == |offsets|
    ensures forall i :: 0 <= i < |es| ==> es[i] == FetchVersions(key, offsets[i])
    ensures Count(es, IsDownload) == 0 && Count(es, IsUpload) == 0 && Count(es, IsPoll) == 0
    ensures Count(es, IsSleep) == 0 && Count(es, IsFetchInventory) == 0
  {
    var es := seq(|offsets|, i requires 0 <= i < |offsets| => FetchVersions(key, offsets[i]));
    CountZero(es, IsDownload);
    CountZero(es, IsUpload);
    CountZero(es, IsPoll);
    CountZero(es, IsSleep);
    CountZero(es, IsFetchInventory);
    es
  }

  /** The link `install` resolves for `version`, None when paging did not
      end in a listing. */
  function ResolvedUrl(key: string, version: string, world: InstallWorld): Option<string>
  {
    var listing := AllVersions(world.pages);
    if listing.Listed? then DownloadUrl(listing.versions, version) else None
  }

  /** `run` preceded by the effects `first`. */
  function Prefix(first: seq<Effect>, run: InstallRun): (r: InstallRun)
    ensures r.outcome == run.outcome
    ensures r.effects == first + run.effects
    ensures Count(r.effects, IsUpload) == Count(first, IsUpload) + Count(run.effects, IsUpload)
    ensures Count(r.effects, IsDownload) == Count(first, IsDownload) + Count(run.effects, IsDownload)
    ensures Count(r.effects, IsPoll) == Count(first, IsPoll) + Count(run.effects, IsPoll)
    ensures Count(r.effects, IsSleep) == Count(first, IsSleep) + Count(run.effects, IsSleep)
    ensures Count(r.effects, IsFetchInventory) == Count(first, IsFetchInventory) + Count(run.effects, IsFetchInventory)
  {
    CountAppend(first, run.effects, IsUpload);
    CountAppend(first, run.effects, IsDownload);
    CountAppend(first, run.effects, IsPoll);
    CountAppend(first, run.effects, IsSleep);
    CountAppend(first, run.effects, IsFetchInventory);
    InstallRun(first + run.effects, run.outcome)
  }

  /** The end of an install after an accepted upload: the wait on the status
      link, which succeeds only once a poll reports done. */
  function WaitPhase(statuses: seq<StatusReply>): (r: InstallRun)
    ensures Count(r.effects, IsDownload) == 0 && Count(r.effects, IsUpload) == 0
    ensures Count(r.effects, IsFetchInventory) == 0
    ensures r.outcome == Success <==> Wait(statuses).state.Done?
    ensures r.outcome == Success ==>
              Count(r.effects, IsPoll) == Wait(statuses).state.polls
              && Count(r.effects, IsSleep) == Wait(statuses).state.polls - 1
  {
    var waited := Wait(statuses);
    match waited.state
    case Done(_) => InstallRun(waited.effects, Success)
    case PollFailed(_) => InstallRun(waited.effects, Abort(StatusHttpError))
    case Pending(_) => InstallRun(waited.effects, Abort(RepliesExhausted))
  }

  /** The install from the upload of the saved artifact `name` on. */
  function Send(name: string, token: Option<string>, world: InstallWorld): (r: InstallRun)
    ensures |r.effects| > 0 && r.effects[0] == Upload(name, token)
    ensures Count(r.effects, IsUpload) == 1
    ensures forall i :: 0 <= i < |r.effects| && r.effects[i].Upload? ==> i == 0
    ensures Count(r.effects, IsDownload) == 0 && Count(r.effects, IsFetchInventory) == 0
    ensures r.outcome == Success <==> Completes(world)
    ensures r.outcome == Success ==>
              Count(r.effects, IsPoll) == Wait(world.statuses).state.polls
              && Count(r.effects, IsSleep) == Wait(world.statuses).state.polls - 1
    ensures r.outcome != Abort(VersionNotFound)
  {
    var uploaded := [Upload(name, token)];
    match world.upload
    case Rejected => InstallRun(uploaded, Abort(UploadRejected))
    case Accepted =>
      var waiting := WaitPhase(world.statuses);
      CountZero(waiting.effects, IsUpload);
      Prefix(uploaded, waiting)
  }

  /** The install once the artifact of `url` has been downloaded with the
      given `Content-Disposition` header: choose its file name, save it there,
      and send it. */
  function Save(url: string, disposition: Option<string>, token: Option<string>, world: InstallWorld): (r: InstallRun)
    ensures Count(r.effects, IsDownload) == 0 && Count(r.effects, IsFetchInventory) == 0
    ensures Count(r.effects, IsUpload) <= 1
    ensures forall i :: 0 <= i < |r.effects| && r.effects[i].Upload? ==>
              r.effects[i].token == token && ChooseFilename(url, disposition) == Some(r.effects[i].filename)
              && !NamesDirectory(r.effects[i].filename)
    ensures ChooseFilename(url, disposition).None? ==> r == InstallRun([], Abort(NoQuotedFilename))
    ensures ChooseFilename(url, disposition).Some? && NamesDirectory(ChooseFilename(url, disposition).value) ==>
              r == InstallRun([], Abort(SaveError))
    ensures Saveable(url, disposition) ==> Count(r.effects, IsUpload) == 1
    ensures r.outcome == Success <==> Saveable(url, disposition) && Completes(world)
    ensures r.outcome == Success ==>
              Count(r.effects, IsPoll) == Wait(world.statuses).state.polls
              && Count(r.effects, IsSleep) == Wait(world.statuses).state.polls - 1
    ensures r.outcome != Abort(VersionNotFound) && r.outcome != Abort(DownloadError)
  {
    match ChooseFilename(url, disposition)
    case None => InstallRun([], Abort(NoQuotedFilename))
    case Some(name) =>
      if NamesDirectory(name) then InstallRun([], Abort(SaveError))
      else Send(name, token, world)
  }

  /** The install from the download of the resolved link `url` on. */
  function Deliver(url: string, token: Option<string>, world: InstallWorld): (r: InstallRun)
    ensures |r.effects| > 0 && r.effects[0] == Download(url)
    ensures Count(r.effects, IsDownload) == 1
    ensures Count(r.effects, IsFetchInventory) == 0
    ensures Count(r.effects, IsUpload) <= 1
    ensures forall i :: 0 <= i < |r.effects| && r.effects[i].Upload? ==> r.effects[i].token == token
    ensures forall i :: 0 <= i < |r.effects| && r.effects[i].Upload? ==>
              world.download.Downloaded? && ChooseFilename(url, world.download.disposition) == Some(r.effects[i].filename)
              && !NamesDirectory(r.effects[i].filename)
    ensures world.download.Downloaded? && ChooseFilename(url, world.download.disposition).Some?
            && NamesDirectory(ChooseFilename(url, world.download.disposition).value) ==>
              r.outcome == Abort(SaveError) && Count(r.effects, IsUpload) == 0
    ensures world.download.Downloaded? && Saveable(url, world.download.disposition) ==> Count(r.effects, IsUpload) == 1
    ensures r.outcome == Success <==>
              world.download.Downloaded? && Saveable(url, world.download.disposition) && Completes(world)
    ensures r.outcome == Success ==>
              Count(r.effects, IsPoll) == Wait(world.statuses).state.polls
              && Count(r.effects, IsSleep) == Wait(world.statuses).state.polls - 1
    ensures r.outcome != Abort(VersionNotFound)
  {
    var downloaded := [Download(url)];
    assert Count(downloaded, IsUpload) == 0 && Count(downloaded, IsDownload) == 1
        && Count(downloaded, IsPoll) == 0 && Count(downloaded, IsSleep) == 0
        && Count(downloaded, IsFetchInventory) == 0;
    match world.download
    case DownloadFailed => InstallRun(downloaded, Abort(DownloadError))
    case Downloaded(disposition) =>
      Prefix(downloaded, Save(url, disposition, token, world))
  }

  /** The install once the listing completed and resolved the link `link`:
      "version not found" when the link is missing or empty, and otherwise
      the delivery of that link. */
  function Proceed(link: Option<string>, token: Option<string>, world: InstallWorld): (r: InstallRun)
    ensures r.outcome == Abort(VersionNotFound) <==> !Usable(link)
    ensures !Usable(link) ==> r.effects == []
    ensures Count(r.effects, IsUpload) <= 1
    ensures Count(r.effects, IsFetchInventory) == 0
    ensures Count(r.effects, IsDownload) > 0 <==> Usable(link)
    ensures Usable(link) ==> Count(r.effects, IsDownload) == 1
    ensures Usable(link) && world.download.Downloaded? && Saveable(link.value, world.download.disposition) ==>
              Count(r.effects, IsUpload) == 1
    ensures forall i :: 0 <= i < |r.effects| && r.effects[i].Upload? ==> r.effects[i].token == token
    ensures r.outcome == Success <==>
              Usable(link) && world.download.Downloaded? && Saveable(link.value, world.download.disposition) && Completes(world)
    ensures r.outcome == Success ==>
              Count(r.effects, IsPoll) == Wait(world.statuses).state.polls
              && Count(r.effects, IsSleep) == Wait(world.statuses).state.polls - 1
  {
    if Usable(link) then Deliver(link.value, token, world)
    else InstallRun([], Abort(VersionNotFound))
  }

  /** The install once paging ended: the failure of the listing if it did
      not complete, and otherwise the link it resolves, proceeded with. */
  function Resolve(key: string, version: string, token: Option<string>, world: InstallWorld): (r: InstallRun)
    ensures r.outcome == Abort(VersionNotFound)
            <==> AllVersions(world.pages).Listed? && !Usable(ResolvedUrl(key, version, world))
    ensures r.outcome == Abort(VersionNotFound) ==> r.effects == []
    ensures AllVersions(world.pages).ListingFailed? ==> r == InstallRun([], Abort(MarketplaceHttpError))
    ensures AllVersions(world.pages).ListingUnfinished? ==> r == InstallRun([], Abort(RepliesExhausted))
    ensures Count(r.effects, IsUpload) <= 1
    ensures Count(r.effects, IsFetchInventory) == 0
    ensures Count(r.effects, IsDownload) > 0 <==> Usable(ResolvedUrl(key, version, world))
    ensures Usable(ResolvedUrl(key, version, world)) ==> Count(r.effects, IsDownload) == 1
    ensures Usable(ResolvedUrl(key, version, world)) && world.download.Downloaded?
            && Saveable(ResolvedUrl(key, version, world).value, world.download.disposition) ==>
              Count(r.effects, IsUpload) == 1
    ensures forall i :: 0 <= i < |r.effects| && r.effects[i].Upload? ==> r.effects[i].token == token
    ensures r.outcome == Success <==>
              && Usable(ResolvedUrl(key, version, world))
              && world.download.Downloaded?
              && Saveable(ResolvedUrl(key, version, world).value, world.download.disposition)
              && Completes(world)
    ensures r.outcome == Success ==>
              Count(r.effects, IsPoll) == Wait(world.statuses).state.polls
              && Count(r.effects, IsSleep) == Wait(world.statuses).state.polls - 1
  {
    var listing := AllVersions(world.pages);
    if listing.Listed? then Proceed(ResolvedUrl(key, version, world), token, world)
    else if listing.ListingFailed? then InstallRun([], Abort(MarketplaceHttpError))
    else InstallRun([], Abort(RepliesExhausted))
  }

  /** One install of `version` of `key`, uploading with `token`: page through
      the marketplace, resolve the link, then deliver it. */
  function Install(key: string, version: string, token: Option<string>, world: InstallWorld): (r: InstallRun)
    ensures r.outcome == Abort(VersionNotFound)
            <==> AllVersions(world.pages).Listed? && !Usable(ResolvedUrl(key, version, world))
    ensures r.outcome == Abort(VersionNotFound) ==> Count(r.effects, IsDownload) == 0 && Count(r.effects, IsUpload) == 0
    ensures Count(r.effects, IsUpload) <= 1
    ensures Count(r.effects, IsFetchInventory) == 0
    ensures Count(r.effects, IsDownload) > 0 <==> Usable(ResolvedUrl(key, version, world))
    ensures Usable(ResolvedUrl(key, version, world)) ==> Count(r.effects, IsDownload) == 1
    ensures Usable(ResolvedUrl(key, version, world)) && world.download.Downloaded?
            && Saveable(ResolvedUrl(key, version, world).value, world.download.disposition) ==>
              Count(r.effects, IsUpload) == 1
    ensures forall i :: 0 <= i < |r.effects| && r.effects[i].Upload? ==> r.effects[i].token == token
    ensures r.outcome == Success <==>
              && Usable(ResolvedUrl(key, version, world))
              && world.download.Downloaded?
              && Saveable(ResolvedUrl(key, version, world).value, world.download.disposition)
              && Completes(world)
    ensures r.outcome == Success ==>
              Count(r.effects, IsPoll) == Wait(world.statuses).state.polls
              && Count(r.effects, IsSleep) == Wait(world.statuses).state.polls - 1
  {
    Prefix(PageEffects(key, AllVersions(world.pages).offsets), Resolve(key, version, token, world))
  }

  /** An install succeeds only once a status answer reported done, and then
      it has polled once per status answer up to that one and slept once per
      answer before it. */
  lemma SuccessAfterDone(key: string, version: string, token: Option<string>, world: InstallWorld, k: int)
    requires FirstDone(world.statuses, k)
    ensures Install(key, version, token, world).outcome == Success ==>
              Count(Install(key, version, token, world).effects, IsPoll) == k + 1
    ensures Install(key, version, token, world).outcome == Success ==>
              Count(Install(key, version, token, world).effects, IsSleep) == k
  {
  }

  /** A marketplace whose one version `version` links to `url` resolves
      `version` to `url`. */
  lemma SingleVersionResolves(key: string, version: string, url: string, world: InstallWorld)
    requires world.pages == [Page([VersionRecord(Some(version), Some(url))]), Page([])]
    ensures ResolvedUrl(key, version, world) == Some(url)
  {
    var v := VersionRecord(Some(version), Some(url));
    assert Served([v]) + [] == world.pages;
    PaginationComplete([v], []);
  }

  /** A listed version with a link, a download without a `Content-Disposition`
      header, an accepted upload, and the status answers not done then done:
      the install succeeds after one upload, two polls and one pause. */
  lemma TwoPollInstall(key: string, version: string, token: Option<string>, world: InstallWorld)
    requires world.pages == [Page([VersionRecord(Some(version), Some("m/a.jar"))]), Page([])]
    requires world.download == Downloaded(None) && world.upload == Accepted
    requires world.statuses == [Status(false), Status(true)]
    ensures Install(key, version, token, world).outcome == Success
    ensures Count(Install(key, version, token, world).effects, IsUpload) == 1
    ensures Count(Install(key, version, token, world).effects, IsPoll) == 2
    ensures Count(Install(key, version, token, world).effects, IsSleep) == 1
  {
    SingleVersionResolves(key, version, "m/a.jar", world);
    assert "m/a.jar" == "m" + "/" + "a.jar";
    SegmentRoundTrip("m", "a.jar");
    assert Saveable("m/a.jar", None);
    assert FirstDone(world.statuses, 1);
  }
}
