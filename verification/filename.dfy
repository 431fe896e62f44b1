/**
 The name under which a downloaded artifact is saved: when the download has a
 `Content-Disposition` header, everything from the first `filename="` to the
 last double quote of that line of the header (so not always the quoted
 string of section 4.1 of RFC 6266); otherwise the last `/`-separated segment
 of the download URL.
 */
module Filename {
  import opened Records

  /** The text the header pattern `filename="(.+)"` must find before its capture. */
  const Marker: string := "filename=\""

  /** A match of the header pattern: where it starts and what it captured. */
  datatype Capture = Capture(at: nat, name: string)

  /** The index of the last double quote in `s`, if any. */
  function LastQuote(s: string): (r: Option<nat>)
    ensures r.Some? ==> r.value < |s| && s[r.value] == '"'
    ensures r.Some? ==> forall j :: r.value < j < |s| ==> s[j] != '"'
    ensures r.None? <==> '"' !in s
  {
    if |s| == 0 then None
    else if s[|s| - 1] == '"' then Some(|s| - 1)
    else
      assert s == s[..|s| - 1] + [s[|s| - 1]];
      LastQuote(s[..|s| - 1])
  }

  /** `s` up to its first line break: the most the pattern's `.` can cover. */
  function Line(s: string): (r: string)
    ensures |r| <= |s| && r == s[..|r|]
    ensures '\n' !in r
    ensures |r| < |s| ==> s[|r|] == '\n'
  {
    if |s| == 0 || s[0] == '\n' then []
    else [s[0]] + Line(s[1..])
  }

  /** The marker of the header pattern stands at index `p` of `h`. */
  predicate MarkerAt(h: string, p: nat)
  {
    p + |Marker| <= |h| && h[p..p + |Marker|] == Marker
  }

  /** What the pattern's `.+"` can range over once the marker matched at `p`:
      the rest of that line of the header. */
  function LineAfter(h: string, p: nat): string
    requires MarkerAt(h, p)
  {
    Line(h[p + |Marker|..])
  }

  /** The capture of `filename="(.+)"` when the match is tried at index `p`:
      the marker must stand at `p`, and `.+` takes the longest non-empty run
      of the same line that is followed by a double quote. */
  function MatchAt(h: string, p: nat): (r: Option<string>)
    ensures r.Some? ==> MarkerAt(h, p) && 0 < |r.value| < |LineAfter(h, p)| && '\n' !in r.value
  {
    if MarkerAt(h, p) then
      var line := LineAfter(h, p);
      match LastQuote(line)
      case Some(j) => if j >= 1 then Some(line[..j]) else None
      case None => None
    else None
  }

  /** The capture is greedy: it runs up to the last double quote of the line
      after the marker, and there is no match at a marker whose line has no
      double quote after its first character. */
  lemma GreedyCapture(h: string, p: nat)
    ensures MatchAt(h, p).Some? ==>
              && LineAfter(h, p)[..|MatchAt(h, p).value|] == MatchAt(h, p).value
              && LineAfter(h, p)[|MatchAt(h, p).value|] == '"'
              && forall j :: |MatchAt(h, p).value| < j < |LineAfter(h, p)| ==> LineAfter(h, p)[j] != '"'
    ensures MatchAt(h, p).None? && MarkerAt(h, p) ==>
              forall j :: 1 <= j < |LineAfter(h, p)| ==> LineAfter(h, p)[j] != '"'
  {
  }

  /** The first position in `from..last` at which `m` yields a capture. */
  function Leftmost(m: nat -> Option<string>, from: nat, last: nat): (r: Option<Capture>)
    requires from <= last
    ensures r.Some? ==> from <= r.value.at <= last && m(r.value.at) == Some(r.value.name)
    ensures r.Some? ==> forall q :: from <= q < r.value.at ==> m(q).None?
    ensures r.None? ==> forall q :: from <= q <= last ==> m(q).None?
    decreases last - from
  {
    match m(from)
    case Some(name) => Some(Capture(from, name))
    case None => if from == last then None else Leftmost(m, from + 1, last)
  }

  /** Tries the pattern at `from`, `from + 1`, ... and returns the leftmost match. */
  function Search(h: string, from: nat): (r: Option<Capture>)
    requires from <= |h|
    ensures r.Some? ==> from <= r.value.at <= |h| && MatchAt(h, r.value.at) == Some(r.value.name)
    ensures r.Some? ==> forall q :: from <= q < r.value.at ==> MatchAt(h, q).None?
    ensures r.None? ==> forall q :: from <= q <= |h| ==> MatchAt(h, q).None?
  {
    var m := (q: nat) => MatchAt(h, q);
    assert forall q: nat :: m(q) == MatchAt(h, q);
    Leftmost(m, from, |h|)
  }

  /** `re.findall('filename="(.+)"', h)[0]`: the capture of the leftmost match,
      None where the source's indexing raises. */
  function DispositionFilename(h: string): (r: Option<string>)
    ensures r.Some? ==> |r.value| > 0 && '\n' !in r.value
    ensures r.None? <==> forall q :: 0 <= q <= |h| ==> MatchAt(h, q).None?
    ensures r.Some? ==> exists p :: 0 <= p <= |h| && MatchAt(h, p) == r && forall q :: 0 <= q < p ==> MatchAt(h, q).None?
  {
    match Search(h, 0)
    case Some(c) => Some(c.name)
    case None => None
  }

  /** `url.split("/")[-1]`: the text after the last slash, or the whole URL
      when it has none. */
  function LastSegment(url: string): (r: string)
    ensures |r| <= |url| && r == url[|url| - |r|..]
    ensures '/' !in r
    ensures |r| < |url| ==> url[|url| - |r| - 1] == '/'
  {
    if |url| == 0 || url[|url| - 1] == '/' then []
    else
      var r := LastSegment(url[..|url| - 1]) + [url[|url| - 1]];
      assert url[..|url| - 1][|url| - |r|..] + [url[|url| - 1]] == url[|url| - |r|..];
      r
  }

  /** The name the artifact is saved under; None when the header is present
      but has no quoted filename, where the source raises. */
  function ChooseFilename(url: string, disposition: Option<string>): (r: Option<string>)
    ensures disposition.None? ==> r.Some? && '/' !in r.value
    ensures disposition.None? ==> |r.value| <= |url| && url[|url| - |r.value|..] == r.value
    ensures disposition.None? && |r.value| < |url| ==> url[|url| - |r.value| - 1] == '/'
    ensures disposition.Some? ==> (r.None? <==> forall q :: 0 <= q <= |disposition.value| ==> MatchAt(disposition.value, q).None?)
    ensures disposition.Some? && r.Some? ==>
              exists p :: 0 <= p <= |disposition.value| && MatchAt(disposition.value, p) == r
                          && forall q :: 0 <= q < p ==> MatchAt(disposition.value, q).None?
  {
    match disposition
    case Some(h) => DispositionFilename(h)
    case None => Some(LastSegment(url))
  }

  lemma {:induction false} LineAppend(a: string, b: string)
    requires '\n' !in a
    ensures Line(a + b) == a + Line(b)
  {
    if |a| > 0 {
      assert (a + b)[1..] == a[1..] + b;
      LineAppend(a[1..], b);
    } else {
      assert a + b == b;
    }
  }

  /** The pattern matches at the marker in front of `name"post` and captures `name`. */
  lemma {:induction false} MatchesQuotedName(h: string, p: nat, name: string, post: string)
    requires MarkerAt(h, p) && h[p + |Marker|..] == name + "\"" + post
    requires '"' !in post
    requires |name| > 0 && '\n' !in name
    ensures MatchAt(h, p) == Some(name)
  {
    assert name + "\"" + post == name + ("\"" + post);
    LineAppend(name, "\"" + post);
    LineAppend("\"", post);
    var line := LineAfter(h, p);
    assert line == name + "\"" + Line(post);
    assert line[|name|] == '"';
    var q := LastQuote(line);
    assert q == Some(|name|) by {
      assert forall k :: |name| < k < |line| ==> line[k] == Line(post)[k - |name| - 1];
      assert forall k :: 0 <= k < |name| ==> line[k] == name[k];
    }
    assert line[..|name|] == name;
  }

  /** When the pattern first matches at `p`, that match is the one taken. */
  lemma LeftmostMatch(h: string, p: nat, name: string)
    requires p <= |h| && MatchAt(h, p) == Some(name)
    requires forall q :: 0 <= q < p ==> MatchAt(h, q).None?
    ensures DispositionFilename(h) == Some(name)
  {
    var r := Search(h, 0);
    assert r.Some?;
    assert r.value.at == p;
  }

  /** The pattern cannot match inside a prefix that has no `f`, the first
      letter of its marker. */
  lemma NoMatchBefore(h: string, pre: string)
    requires |pre| <= |h| && h[..|pre|] == pre && 'f' !in pre
    ensures forall q :: 0 <= q < |pre| ==> MatchAt(h, q).None?
  {
    forall q | 0 <= q < |pre|
      ensures MatchAt(h, q).None?
    {
      assert h[q] == pre[q];
      assert !MarkerAt(h, q) by {
        if q + |Marker| <= |h| {
          assert h[q..q + |Marker|][0] == h[q];
        }
      }
    }
  }

  /** In `pre filename="name" post`, with no `f` in `pre`, the pattern first
      matches where the marker stands, and captures `name` there. */
  lemma {:induction false} FirstMatchAtMarker(pre: string, name: string, post: string)
    requires 'f' !in pre && '"' !in post
    requires |name| > 0 && '"' !in name && '\n' !in name
    ensures var h := pre + Marker + name + "\"" + post;
              |pre| <= |h| && MatchAt(h, |pre|) == Some(name)
              && forall q :: 0 <= q < |pre| ==> MatchAt(h, q).None?
  {
    var h := pre + Marker + name + "\"" + post;
    var p := |pre|;
    assert h == pre + (Marker + (name + "\"" + post));
    assert h[..p] == pre;
    assert h[p..p + |Marker|] == Marker;
    assert h[p + |Marker|..] == name + "\"" + post;
    MatchesQuotedName(h, p, name, post);
    NoMatchBefore(h, pre);
  }

  /** A header carrying `filename="name"` after text without an `f`, and with
      no further double quote, yields exactly `name`. */
  lemma QuotedFilenameRoundTrip(pre: string, name: string, post: string)
    requires 'f' !in pre && '"' !in post
    requires |name| > 0 && '"' !in name && '\n' !in name
    ensures DispositionFilename(pre + Marker + name + "\"" + post) == Some(name)
  {
    FirstMatchAtMarker(pre, name, post);
    LeftmostMatch(pre + Marker + name + "\"" + post, |pre|, name);
  }

  /** The capture does not stop at the quote that closes the file name: when
      another quoted parameter follows on the same line, it is captured too. */
  lemma OverCapture(a: string, b: string)
    requires |a| > 0 && '"' !in a && '\n' !in a && '\n' !in b
    ensures DispositionFilename(Marker + a + "\"; d=\"" + b + "\"") == Some(a + "\"; d=\"" + b)
  {
    var name := a + "\"; d=\"" + b;
    var h := Marker + a + "\"; d=\"" + b + "\"";
    assert h == [] + Marker + name + "\"" + [];
    assert '\n' !in name by {
      assert forall k :: 0 <= k < |name| ==> name[k] == if k < |a| then a[k] else if k < |a| + 6 then "\"; d=\""[k - |a|] else b[k - |a| - 6];
    }
    assert h[0..|Marker|] == Marker;
    assert h[|Marker|..] == name + "\"" + [];
    MatchesQuotedName(h, 0, name, []);
    LeftmostMatch(h, 0, name);
  }

  /** A URL `dir/name` whose last part has no slash is saved as `name`. */
  lemma {:induction false} SegmentRoundTrip(dir: string, name: string)
    requires '/' !in name
    ensures LastSegment(dir + "/" + name) == name
  {
    var url := dir + "/" + name;
    var r := LastSegment(url);
    assert url[|url| - |name| - 1] == '/';
    assert |r| <= |name|;
    assert |r| >= |name|;
    assert url[|url| - |name|..] == name;
  }
}
