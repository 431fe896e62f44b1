/**
 The plain data the add-on deployer works on: manifest entries, the plugin
 records returned by the target application's plugin manager, marketplace
 version records, and the log of remote effects a run performs.
 */
module Records {

  /** A value that may be absent (a missing JSON field, a missing header). */
  datatype Option<+T> = None | Some(value: T)

  /** One entry of the manifest: the version of one plugin that should be installed. */
  datatype TargetEntry = TargetEntry(key: string, version: string)

  /** One plugin as listed by the target application's plugin inventory. */
  datatype PluginRecord = PluginRecord(key: string, version: string)

  /** One version of an add-on in the marketplace listing. The version name and the
      binary download link may each be missing from the listing. */
  datatype VersionRecord = VersionRecord(name: Option<string>, href: Option<string>)

  /** Why an install, and with it the whole deployment, stops. */
  datatype Failure =
    | MarketplaceHttpError   // a versions page answered with an HTTP error
    | VersionNotFound        // no usable download link for the requested version
    | DownloadError          // the artifact download itself raised
    | NoQuotedFilename       // Content-Disposition present but without a filename="..." token
    | SaveError              // opening the artifact file raised: its name makes its path a directory
    | UploadRejected         // the upload to the plugin manager answered with an HTTP error
    | StatusHttpError        // a status poll answered with an HTTP error
    | RepliesExhausted       // the given replies ended while the deployer would still be waiting

  /** The result of an install or of a whole deployment. */
  datatype Outcome = Success | Abort(failure: Failure)

  /** The seconds slept between two status polls. */
  const PollDelay: nat := 5

  /** One remote effect, in the order a run performs them. */
  datatype Effect =
    | FetchInventory                       // GET of the plugin inventory
    | FetchVersions(key: string, offset: nat)  // GET of one marketplace versions page
    | Download(url: string)                // GET of the artifact
    | Upload(filename: string, token: Option<string>)  // POST of the artifact with the session token
    | PollStatus                           // GET of the install status
    | Sleep(seconds: nat)                  // the pause after a not-done status

  predicate IsFetchInventory(e: Effect) { e.FetchInventory? }
  predicate IsPoll(e: Effect) { e.PollStatus? }
  predicate IsSleep(e: Effect) { e.Sleep? }
  predicate IsDownload(e: Effect) { e.Download? }
  predicate IsUpload(e: Effect) { e.Upload? }

  /** The number of effects in `es` that satisfy `p`. */
  function Count(es: seq<Effect>, p: Effect -> bool): (n: nat)
    ensures n <= |es|
  {
    if |es| == 0 then 0 else (if p(es[0]) then 1 else 0) + Count(es[1..], p)
  }

  lemma {:induction false} CountAppend(a: seq<Effect>, b: seq<Effect>, p: Effect -> bool)
    ensures Count(a + b, p) == Count(a, p) + Count(b, p)
  {
    if |a| == 0 {
      assert a + b == b;
    } else {
      assert (a + b)[1..] == a[1..] + b;
      CountAppend(a[1..], b, p);
    }
  }

  /** No effect satisfies `p` exactly when none is counted. */
  lemma {:induction false} CountZero(es: seq<Effect>, p: Effect -> bool)
    ensures Count(es, p) == 0 <==> forall i :: 0 <= i < |es| ==> !p(es[i])
  {
    if |es| > 0 {
      CountZero(es[1..], p);
      assert forall i :: 1 <= i < |es| ==> es[i] == es[1..][i - 1];
    }
  }
}
