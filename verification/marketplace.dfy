/**
 The marketplace client: `get_all_addon_versions` pages through the versions
 listing of one add-on, and `get_download_url` scans it for one version.
 */
module Marketplace {
  import opened Records

  /** The `limit` of every versions request, and the step of its `offset`. */
  const PageSize: nat := 50

  /** The answer to one versions request. A body without the versions array
      is the empty page. */
  datatype PageReply = PageError | Page(versions: seq<VersionRecord>)

  /** The result of paging through the listing. `offsets` are the offsets
      requested, in order. `ListingUnfinished` means the given replies ran out
      before an empty page arrived, so the deployer would still be requesting. */
  datatype Listing =
    | Listed(versions: seq<VersionRecord>, offsets: seq<nat>)
    | ListingFailed(offsets: seq<nat>)
    | ListingUnfinished(offsets: seq<nat>)
  {
    /** The same listing after one more page, `page` at `offset`, in front. */
    function Prepend(page: seq<VersionRecord>, offset: nat): Listing
    {
      match this
      case Listed(vs, offs) => Listed(page + vs, [offset] + offs)
      case ListingFailed(offs) => ListingFailed([offset] + offs)
      case ListingUnfinished(offs) => ListingUnfinished([offset] + offs)
    }
  }

  /** The first `n` replies are non-empty pages. */
  ghost predicate NonEmptyPages(replies: seq<PageReply>, n: int)
    requires 0 <= n <= |replies|
  {
    forall i :: 0 <= i < n ==> replies[i].Page? && |replies[i].versions| > 0
  }

  /** The versions of the page replies of `replies`, concatenated in order. */
  function Concat(replies: seq<PageReply>): seq<VersionRecord>
  {
    if |replies| == 0 then []
    else (if replies[0].Page? then replies[0].versions else []) + Concat(replies[1..])
  }

  /** Requests pages at `offset`, `offset + PageSize`, ... answered by
      `replies`, accumulating versions until the first empty page. */
  function Collect(replies: seq<PageReply>, offset: nat): (r: Listing)
    ensures 1 <= |r.offsets| <= |replies| || (|replies| == 0 && r == ListingUnfinished([]))
    ensures forall i :: 0 <= i < |r.offsets| ==> r.offsets[i] == offset + PageSize * i
    ensures r.Listed? || r.ListingFailed? ==> NonEmptyPages(replies, |r.offsets| - 1)
    ensures r.Listed? ==> replies[|r.offsets| - 1] == Page([])
    ensures r.Listed? ==> r.versions == Concat(replies[..|r.offsets| - 1])
    ensures r.ListingFailed? ==> replies[|r.offsets| - 1] == PageError
    ensures r.ListingUnfinished? ==> |r.offsets| == |replies| && NonEmptyPages(replies, |replies|)
    decreases |replies|
  {
    if |replies| == 0 then ListingUnfinished([])
    else
      match replies[0]
      case PageError => ListingFailed([offset])
      case Page(vs) =>
        if |vs| == 0 then Listed([], [offset])
        else
          var rest := Collect(replies[1..], offset + PageSize);
          assert rest.Listed? ==>
            var front := replies[..|rest.offsets|];
            front[0] == replies[0] && front[1..] == replies[1..][..|rest.offsets| - 1];
          rest.Prepend(vs, offset)
  }

  /** `get_all_addon_versions`: the listing requested from offset 0. */
  function AllVersions(replies: seq<PageReply>): (r: Listing)
    ensures forall i :: 0 <= i < |r.offsets| ==> r.offsets[i] == PageSize * i
    ensures r.Listed? <==> exists k :: 0 <= k < |replies| && replies[k] == Page([]) && NonEmptyPages(replies, k)
                                        && (forall j :: 0 <= j < k ==> replies[j] != PageError)
  {
    Collect(replies, 0)
  }

  /** Only an empty page ends the paging: a first page shorter than `PageSize`
      is followed by a second request, and its versions come first. */
  lemma ShortPageDoesNotStop(page: seq<VersionRecord>, later: seq<PageReply>)
    requires 0 < |page| < PageSize && |later| > 0
    ensures |AllVersions([Page(page)] + later).offsets| >= 2
    ensures AllVersions([Page(page)] + later).Listed? ==>
              AllVersions([Page(page)] + later).versions[..|page|] == page
  {
    var r := Collect(later, PageSize);
    assert ([Page(page)] + later)[1..] == later;
  }

  /** The answers of a marketplace holding `all` versions to requests at
      offsets 0, 50, ...: full pages of `PageSize` versions, a shorter last one,
      and then the empty page. */
  function Served(all: seq<VersionRecord>): seq<PageReply>
    decreases |all|
  {
    if |all| == 0 then [Page([])]
    else if |all| <= PageSize then [Page(all)] + Served([])
    else [Page(all[..PageSize])] + Served(all[PageSize..])
  }

  /** The number of requests the deployer makes against a marketplace holding
      `count` versions: one per non-empty page, plus the empty one that stops it. */
  function RequestsFor(count: nat): nat
  {
    (count + PageSize - 1) / PageSize + 1
  }

  /** Paging through a marketplace that serves full pages returns every version,
      in order, after exactly one request per non-empty page plus one, whatever
      it would answer afterwards. */
  lemma PaginationComplete(all: seq<VersionRecord>, later: seq<PageReply>)
    ensures AllVersions(Served(all) + later).Listed?
    ensures AllVersions(Served(all) + later).versions == all
    ensures |AllVersions(Served(all) + later).offsets| == RequestsFor(|all|)
  {
    ServedFrom(all, later, 0);
  }

  /** A non-empty page is kept, and paging goes on at the next offset. */
  lemma CollectPage(page: seq<VersionRecord>, rest: seq<PageReply>, offset: nat)
    requires |page| > 0
    ensures Collect([Page(page)] + rest, offset) == Collect(rest, offset + PageSize).Prepend(page, offset)
  {
    assert ([Page(page)] + rest)[1..] == rest;
  }

  /** One more full page costs one more request. */
  lemma RequestsStep(count: nat)
    ensures RequestsFor(count + PageSize) == RequestsFor(count) + 1
  {
  }

  /** Paging from `offset` through the pages a marketplace holding `all`
      serves ends in a listing of exactly `all`, after `RequestsFor(|all|)`
      requests. */
  lemma {:induction false} ServedFrom(all: seq<VersionRecord>, later: seq<PageReply>, offset: nat)
    ensures Collect(Served(all) + later, offset).Listed?
    ensures Collect(Served(all) + later, offset).versions == all
    ensures |Collect(Served(all) + later, offset).offsets| == RequestsFor(|all|)
    decreases |all|, 1
  {
    if |all| == 0 {
      ServedNothing(later, offset);
    } else if |all| <= PageSize {
      ServedLastPage(all, later, offset);
    } else {
      ServedFullPage(all, later, offset);
    }
  }

  /** With nothing left to serve, the next request gets the empty page. */
  lemma ServedNothing(later: seq<PageReply>, offset: nat)
    ensures Collect(Served([]) + later, offset) == Listed([], [offset])
  {
    assert (Served([]) + later)[0] == Page([]);
  }

  /** A last page shorter than or as long as `PageSize` is followed by the
      empty page. */
  lemma ServedLastPage(all: seq<VersionRecord>, later: seq<PageReply>, offset: nat)
    requires 0 < |all| <= PageSize
    ensures Collect(Served(all) + later, offset) == Listed(all, [offset, offset + PageSize])
  {
    var after := Served([]) + later;
    assert Served(all) + later == [Page(all)] + after;
    CollectPage(all, after, offset);
    ServedNothing(later, offset + PageSize);
    assert all + [] == all;
    assert [offset] + [offset + PageSize] == [offset, offset + PageSize];
    assert Listed([], [offset + PageSize]).Prepend(all, offset) == Listed(all, [offset, offset + PageSize]);
  }

  /** A full page is followed by the pages serving the rest. */
  lemma {:induction false} ServedFullPage(all: seq<VersionRecord>, later: seq<PageReply>, offset: nat)
    requires |all| > PageSize
    ensures Collect(Served(all) + later, offset).Listed?
    ensures Collect(Served(all) + later, offset).versions == all
    ensures |Collect(Served(all) + later, offset).offsets| == RequestsFor(|all|)
    decreases |all|, 0
  {
    var tail := all[PageSize..];
    assert Served(all) + later == [Page(all[..PageSize])] + (Served(tail) + later);
    CollectPage(all[..PageSize], Served(tail) + later, offset);
    ServedFrom(tail, later, offset + PageSize);
    RequestsStep(|tail|);
    assert all[..PageSize] + tail == all;
  }

  /** Version `i` is the first one in the listing named `wanted`. */
  ghost predicate FirstMatch(versions: seq<VersionRecord>, wanted: string, i: int)
  {
    && 0 <= i < |versions|
    && versions[i].name == Some(wanted)
    && forall j :: 0 <= j < i ==> versions[j].name != Some(wanted)
  }

  /** `get_download_url`'s scan: the download link of the first version named
      `wanted`, which may itself be missing; None when no version has that name. */
  function DownloadUrl(versions: seq<VersionRecord>, wanted: string): (r: Option<string>)
    ensures forall i :: FirstMatch(versions, wanted, i) ==> r == versions[i].href
    ensures (forall i :: 0 <= i < |versions| ==> versions[i].name != Some(wanted)) ==> r == None
  {
    if |versions| == 0 then None
    else if versions[0].name == Some(wanted) then versions[0].href
    else
      var r := DownloadUrl(versions[1..], wanted);
      assert forall i :: FirstMatch(versions, wanted, i) ==> FirstMatch(versions[1..], wanted, i - 1);
      r
  }

  /** Some version carries the name `wanted`, so there is a first one. */
  lemma {:induction false} FirstMatchExists(versions: seq<VersionRecord>, wanted: string, k: int)
    requires 0 <= k < |versions| && versions[k].name == Some(wanted)
    ensures exists i :: FirstMatch(versions, wanted, i)
  {
    if !FirstMatch(versions, wanted, k) {
      var j :| 0 <= j < k && versions[j].name == Some(wanted);
      FirstMatchExists(versions, wanted, j);
    }
  }

  /** Versions fetched after a match are never consulted: appending more
      versions, even ones with the same name and a link, changes nothing. */
  lemma LaterVersionsIgnored(versions: seq<VersionRecord>, more: seq<VersionRecord>, wanted: string, k: int)
    requires 0 <= k < |versions| && versions[k].name == Some(wanted)
    ensures DownloadUrl(versions + more, wanted) == DownloadUrl(versions, wanted)
  {
    FirstMatchExists(versions, wanted, k);
    var i :| FirstMatch(versions, wanted, i);
    assert FirstMatch(versions + more, wanted, i);
  }
}
