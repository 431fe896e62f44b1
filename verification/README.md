# Atlassian add-on deployer, modelled in Dafny

This project models the decision logic of the add-on deployer
(`atlassian-addon-installer/cli.py`). The deployer reads a manifest of
`(plugin key, version)` entries. For each entry, in order, it does three things:
1. It refreshes the installed state and the session token from the target
   application's plugin manager.
2. It compares the desired version with the installed one.
3. On a difference, it installs the version:
   - page through the Atlassian Marketplace's versions listing;
   - pick the first version with the wanted name;
   - download its artifact and choose the file name;
   - upload the artifact with the session token;
   - poll the install job until it reports done.

Every remote call becomes a given reply, or a given sequence of replies. Each
run also returns the log of the remote effects it performed (inventory
fetches, marketplace page requests, download, upload, status polls, sleeps).
That lets the contracts say what was and was not sent. A failure that raises
in the source becomes an `Abort(failure)` outcome that ends the whole run.

Modules, one per part of the script:

- `Records` (records.dfy): the records, failures, outcomes, and the effect log with its counting function.
- `Inventory` (inventory.dfy): `update_addon_data`, the installed-state fold and the token refresh.
- `Marketplace` (marketplace.dfy): `get_all_addon_versions` pagination and the `get_download_url` first-match scan.
- `Filename` (filename.dfy): the artifact file name.
  - With a `Content-Disposition` header, it is the leftmost match of `filename="(.+)"`, greedy up to the last quote on the line.
  - Otherwise it is the URL's last `/` segment.
- `Poll` (poll.dfy): the install-status poll loop, as a state machine over status replies.
- `Installer` (installer.dfy): `install`, from the link lookup through download and upload to the wait.
- `Reconciler` (reconciler.dfy): `deploy_config`, the loop over the manifest.
  - It is generic in the install step, so its lemmas hold for any install step that uploads at most once.
  - `Deploy` instantiates it with `Installer.Install`.

Four behaviours of the code that the model follows closely:

- An inventory GET that raises keeps the previous session token: the header is
  read at line 52, inside the `try`, before the body is parsed.
- Only an empty page stops the paging (line 76). Against a marketplace holding
  N versions in full pages, the deployer makes ceil(N/50) + 1 requests, as
  `Marketplace.PaginationComplete` proves.
- The explicit `cleanup()` of the temporary directory (line 43) runs only after
  the loop completes. After an abort, the directory is left to the finalizer of
  `TemporaryDirectory` (line 18), which removes it when the interpreter exits.
- The file name pattern's `.+` is greedy (line 107). When another quoted
  parameter follows the file name on the same header line, the name runs on to
  that parameter's closing quote, as `Filename.OverCapture` proves.

## Model

| member | source | states |
|---|---|---|
| Inventory.Fold | atlassian-addon-installer/cli.py:58-59 | The map has exactly the keys of the plugin records, and a key that repeats holds the version of its last record. |
| Inventory.UpdateAddonData | atlassian-addon-installer/cli.py:45-61 | One refresh: a GET that raised or a body that is not JSON leaves the empty map, otherwise the records' keys with the last record's version. A GET that raised keeps the previous token; any reply that arrived replaces it with its `upm-token` header, even a missing one, and even when the body does not parse. |
| Inventory.InstalledState | atlassian-addon-installer/cli.py:45-61 | A GET that raised or a body that is not JSON gives the empty map. Otherwise the map has the records' keys, with the last record's version winning. |
| Inventory.NeedsInstallCases | atlassian-addon-installer/cli.py:40 | For an installed key, an install is needed exactly when the versions differ. For a missing key, exactly when the desired version is not the empty string. |
| Inventory.ListedVersionSatisfies | atlassian-addon-installer/cli.py:40-59 | An entry asking for the version the inventory's last record for its key lists needs no install. |
| Marketplace.Collect | atlassian-addon-installer/cli.py:64-80 | Requests go to `offset + 50*i` in order. A listing ends exactly at the first empty page, after non-empty pages only, and holds their versions concatenated in order. An HTTP error page fails the listing. Replies that run out before an empty page leave it unfinished. |
| Marketplace.AllVersions | atlassian-addon-installer/cli.py:63-80 | Offsets are 0, 50, 100, and so on. The listing completes iff some reply is the empty page and every reply before it is a non-empty page. |
| Marketplace.ShortPageDoesNotStop | atlassian-addon-installer/cli.py:76-79 | A first page shorter than 50 but not empty is followed by a second request, and its versions lead the listing. |
| Marketplace.PaginationComplete | atlassian-addon-installer/cli.py:63-80 | A marketplace serving N versions in full pages yields all N, in order. It takes exactly ceil(N/50) + 1 requests, whatever it would answer afterwards. |
| Marketplace.ServedFrom | atlassian-addon-installer/cli.py:66-79 | From any offset, the pages serving `all` give a listing of exactly `all` after ceil(N/50) + 1 requests. |
| Marketplace.DownloadUrl | atlassian-addon-installer/cli.py:82-93 | The result is the `href` of the first version whose name is the requested one, and may be absent. It is None when no version has that name. |
| Marketplace.LaterVersionsIgnored | atlassian-addon-installer/cli.py:83-91 | Once some version matches, versions appended after it change nothing, even same-named ones with a link. |
| Filename.MatchAt | atlassian-addon-installer/cli.py:107 | The pattern matches at a position only where `filename="` stands. The capture is non-empty, shorter than the rest of the line, and has no line break. |
| Filename.GreedyCapture | atlassian-addon-installer/cli.py:107 | The capture is the line up to its last double quote, and no double quote follows it on the line. There is no match when the line has no later quote. |
| Filename.Leftmost | atlassian-addon-installer/cli.py:107 | The first position of a range that yields a capture: every earlier position yields none, and None means no position does. |
| Filename.Search | atlassian-addon-installer/cli.py:107 | The match taken is at the leftmost position where the pattern matches, and None means it matches nowhere. |
| Filename.DispositionFilename | atlassian-addon-installer/cli.py:107 | The result is None (where `findall(...)[0]` raises) exactly when the pattern matches nowhere. Otherwise it is the capture at the leftmost position where the pattern matches, a non-empty name without a line break. |
| Filename.LastSegment | atlassian-addon-installer/cli.py:109 | The result is a suffix of the URL without `/`, preceded by a `/` unless it is the whole URL. |
| Filename.ChooseFilename | atlassian-addon-installer/cli.py:106-109 | Without the header, the name is the URL's last segment: a slash-free suffix, preceded by a `/` unless it is the whole URL. With the header, there is no name exactly when the pattern matches nowhere, and otherwise it is the capture at the leftmost match. |
| Filename.LeftmostMatch | atlassian-addon-installer/cli.py:107 | When the first match is at `p`, the chosen name is the capture at `p`. |
| Filename.QuotedFilenameRoundTrip | atlassian-addon-installer/cli.py:107 | A header `pre filename="name" post` yields exactly `name`. This needs no `f` in `pre`, and no quote in `name` or `post`. |
| Filename.OverCapture | atlassian-addon-installer/cli.py:107 | For `filename="a"; d="b"`, the chosen name is `a"; d="b`: the capture runs past the closing quote of the file name to the last quote of the line. |
| Filename.SegmentRoundTrip | atlassian-addon-installer/cli.py:109 | The URL `dir/name` with a slash-free `name` is saved as `name`. |
| Poll.DriveEffects | atlassian-addon-installer/cli.py:135-143 | The wait logs one status request per poll and one 5-second sleep per not-done answer: a wait that stopped slept once fewer than it polled, and its last effect is the poll that stopped it. It downloads, uploads and fetches nothing. |
| Poll.Wait | atlassian-addon-installer/cli.py:135-145 | The wait ends done exactly at the first answer that reports done (k + 1 polls for answer k), after k + 1 status requests and k sleeps, ending with the poll that saw done. It fails at an error answer that follows only not-done answers. |
| Poll.Drive | atlassian-addon-installer/cli.py:135-143 | A wait that ends done stopped at the first done answer. A failed wait stopped at an error answer after not-done answers only. A still-pending wait consumed only not-done answers. |
| Installer.WaitPhase | atlassian-addon-installer/cli.py:135-145 | After the upload, success holds exactly when the wait ended done, with one poll per answer and one sleep fewer. The wait downloads, uploads and fetches nothing else. |
| Installer.Send | atlassian-addon-installer/cli.py:120-145 | The upload is the first effect and the only upload, sent with the held token. The install succeeds exactly when the upload is accepted and the wait ends done. |
| Installer.Save | atlassian-addon-installer/cli.py:106-145 | A header without a quoted file name aborts before any effect. A name that makes the saved path a directory (empty, `.` or `..`) aborts with a save error before the upload. Otherwise there is exactly one upload, carrying the chosen name and the held token. It succeeds exactly when the name is usable, the upload is accepted and the wait ends done. |
| Installer.Deliver | atlassian-addon-installer/cli.py:104-145 | The download comes first and happens once. An upload happens only after a download that did not raise, under the chosen file name, which never names a directory, with the held token. A download that did not raise, with a usable name, leads to exactly one upload. The install succeeds exactly when, in addition, the upload is accepted and the wait ends done. |
| Installer.Proceed | atlassian-addon-installer/cli.py:100-145 | A missing or empty link aborts with "version not found" before any effect, and that is the only way to get that failure. A usable link is downloaded exactly once. A download that did not raise, with a usable name, leads to exactly one upload with the held token. Success holds exactly when the link is usable, the download did not raise, the name is usable, the upload is accepted and the wait ends done. |
| Installer.Resolve | atlassian-addon-installer/cli.py:98-145 | Past paging: a page request that failed gives the marketplace HTTP error, and replies that ran out give exhaustion, both with no further effect. Otherwise it proceeds with the link resolved from the complete listing, with the same download, upload and success conditions as `Proceed`. |
| Installer.Install | atlassian-addon-installer/cli.py:95-145 | "Version not found" iff the listing completed and the resolved link is missing or empty. In that case nothing is downloaded or uploaded. There is a download exactly when the link is usable, and then exactly one. A download that did not raise, with a usable file name, leads to exactly one upload, with the given token. The install succeeds exactly when the link is usable, the download did not raise, the name is usable, the upload is accepted and the wait ends done. Success comes with k + 1 polls and k sleeps. |
| Installer.TwoPollInstall | atlassian-addon-installer/cli.py:95-145 | One listed version with a link, a download without a `Content-Disposition` header, an accepted upload, and status answers not done then done: the install succeeds, with one upload, two polls and one sleep. |
| Installer.SuccessAfterDone | atlassian-addon-installer/cli.py:135-145 | A successful install whose first done answer is k polled k + 1 times and slept k times. |
| Reconciler.Deploy | atlassian-addon-installer/cli.py:31-43 | Starting with no token, the entries are visited in order until the first failed install. Each visit attempts an install exactly when its entry differs from the state refreshed for it, and holds the token of the latest reply so far. An aborted deployment ends with the failed install. |
| Reconciler.DeployVisits | atlassian-addon-installer/cli.py:31-52 | For any install step, visit j attempts an install iff entry j differs from its refreshed state, and holds the latest token up to entry j. An aborted deployment ends with the visit whose install failed. |
| Reconciler.DeployFrom | atlassian-addon-installer/cli.py:31-42 | There is at most one visit per entry. A completed run visited every entry, and an aborted run visited at least one. |
| Reconciler.AttemptedWhenNeeded | atlassian-addon-installer/cli.py:32-41 | The visit for entry i + j attempts an install iff that entry's version differs from the state refreshed for it. |
| Reconciler.EarlierVisitsWentThrough | atlassian-addon-installer/cli.py:32-41 | Every visit before the last one met no failure: the run stops at the first failed install. |
| Reconciler.CompletedWithoutFailure | atlassian-addon-installer/cli.py:32-41 | In a completed run, no visit met a failure. |
| Reconciler.AbortedAtFailure | atlassian-addon-installer/cli.py:32-41 | An aborted run ends with a visit that attempted an install, and the run carries that install's failure. |
| Reconciler.VisitIs | atlassian-addon-installer/cli.py:32-41 | The visit for entry k is the loop body over entry k, holding the token the refreshes of the earlier entries left. |
| Reconciler.VisitTokens | atlassian-addon-installer/cli.py:33-52 | Each visit holds the token of the latest inventory reply that arrived up to its entry, or the starting token if none did. |
| Reconciler.RunEffects | atlassian-addon-installer/cli.py:32-41 | Uploads are at most the number of attempted installs. A completed run fetched the inventory once per entry. |
| Reconciler.NoInstallWhenSatisfied | atlassian-addon-installer/cli.py:32-41 | When every entry matches the state refreshed for it, the run completes without attempting any install or uploading anything. |
| Reconciler.EmptyVersionOfMissingKeyIsSatisfied | atlassian-addon-installer/cli.py:40 | An entry whose key is not installed and whose version is the empty string never triggers an install. |
| Reconciler.InstallUploadsAtMostOnce | atlassian-addon-installer/cli.py:95-145 | `install` uploads at most once and never fetches the inventory. |
| Reconciler.DeployEffects | atlassian-addon-installer/cli.py:31-43 | A deployment uploads at most once per attempted install. A completed one fetched the inventory once per manifest entry. |
| Reconciler.DeployUploads | atlassian-addon-installer/cli.py:40-121 | Every upload belongs to an entry whose version differs from its refreshed state. It carries the token of the latest inventory reply up to that entry, or none before any reply. |

## Left out

- HTTP itself is not modelled: sessions, basic auth, headers, `raise_for_status` and the multipart upload (lines 49-51, 67-71, 104, 120-131). Each request is a given reply.
- JSON parsing is not modelled: records are datatypes with optional fields.
  - A versions page or status answer that is not JSON raises like an HTTP error, so it is the same `PageError` or `StatusError` reply.
  - A versions page without the `_embedded.versions` array is the empty page.
  - A status answer without `done` is a not-done answer.
- The upload answer's `links.alternate` and the `urljoin` of the status link (line 133) are not modelled. An accepted upload whose body is not JSON raises there; that path is left out.
- Plugin records without a `key` or `version` field are not modelled: they raise `KeyError` at line 59, outside the `try`.
- An inventory body that is JSON but not an object is not modelled: it raises at line 58.
- Manifest entries without `key` or `version` are not modelled: `.get` yields None there; entries are pairs of strings here.
- The temporary directory, the file write and the cleanup (lines 18, 43, 110-117) are I/O.
  - The one modelled file outcome is a name that makes the path a directory: empty, `.` or `..`. Then `open` at line 114 raises, and this is `SaveError`.
- Installer.Save: a header name containing `/` is uploaded under that name. The model does not follow `os.path.join`. In the source, a relative name through a missing subdirectory (`lib/x.jar`) raises FileNotFoundError at line 114, and an absolute name writes outside the temporary directory.
- Poll.Drive: a not-done status answer whose `progress` is null raises TypeError at line 141 (`None * 100`). The model continues the wait after every not-done answer, because status answers do not carry the progress.
- `time.sleep` is modelled only as a `Sleep(5)` effect. The logging and the floating-point progress (lines 141-143) are left out.
- The `__main__` entry point (lines 148-151) only opens files.
- The download's HTTP status is not checked by the source, so it is not modelled either. Only a download that raises stops the install.
- `RepliesExhausted` and `ListingUnfinished` exist only because the replies are finite. The source would go on requesting forever.
- Filename.GreedyCapture: the regular expression is modelled for this one pattern only, not `re.findall` in general.
