/**
 `TwitterClient._extract_media`: every match of `<img[^>]+src="([^"]+)"`, in
 the order `re.finditer` reports them, minus video thumbnails, each turned
 into a photo attachment.

 Regex reading: `<img` is literal; the greedy `[^>]+` (at least one
 character, none of them '>') backtracks from the first '>' after the tag
 name, so the rightmost `src="` inside the tag wins; `[^"]+"` then takes
 everything up to the next double quote (which may lie past that '>').
 `finditer` resumes right after each match.
 */
module Media {
  import opened Wrappers
  import opened Text

  const ImgOpen: string := "<img"
  const SrcOpen: string := "src=\""
  const VideoThumb: string := "tweet_video_thumb"
  const PhotoKind: string := "photo"

  /** One `{'url': ..., 'type': ...}` attachment. */
  datatype Item = Item(url: string, kind: string)

  /** Index of the first `c` at or after `i`, or `|s|` when there is none. */
  function FindChar(s: string, i: nat, c: char): (j: nat)
    requires i <= |s|
    ensures i <= j <= |s|
    ensures forall k :: i <= k < j ==> s[k] != c
    ensures j < |s| ==> s[j] == c
    decreases |s| - i
  {
    if i == |s| || s[i] == c then i else FindChar(s, i + 1, c)
  }

  /** `src="([^"]+)"` matches at index `k`: a non-empty value and a closing quote. */
  predicate SrcAt(s: string, k: nat) {
    && StartsAt(s, k, SrcOpen) && k + |SrcOpen| < |s| && s[k + |SrcOpen|] != '"'
    && FindChar(s, k + |SrcOpen|, '"') < |s|
  }

  /** The quote that closes the attribute value opened at `k`. */
  function CloseQuote(s: string, k: nat): (q: nat)
    requires SrcAt(s, k)
    ensures k + |SrcOpen| < q < |s| && s[q] == '"'
    ensures forall j :: k + |SrcOpen| <= j < q ==> s[j] != '"'
  {
    FindChar(s, k + |SrcOpen|, '"')
  }

  /** The `src="..."` test at every index of `s`. */
  function SrcTest(s: string): nat -> bool {
    (k: nat) => SrcAt(s, k)
  }

  /**
   The pattern matches at `i`, with `[^>]+` ending where a position `k`
   passing the attribute test `ok` starts.
   */
  predicate MatchBy(s: string, i: nat, k: nat, ok: nat -> bool) {
    && StartsAt(s, i, ImgOpen) && i + |ImgOpen| < k <= |s|
    && ok(k)
    && (forall j :: i + |ImgOpen| <= j < k ==> s[j] != '>')
  }

  /** The whole pattern matches at `i`, with `[^>]+` ending where the attribute starts at `k`. */
  predicate MatchAt(s: string, i: nat, k: nat) {
    MatchBy(s, i, k, SrcTest(s))
  }

  /**
   The backtracking of the greedy `[^>]+`: walk the candidate attribute
   positions `k, k + 1, ...` while the character before each is not a '>',
   remembering the last one that passes `ok`.
   */
  function ScanTag(s: string, k: nat, last: Option<nat>, ok: nat -> bool): (r: Option<nat>)
    requires k >= 1
    ensures r.Some? ==> r == last || (k <= r.value && ok(r.value))
    decreases |s| + 1 - k
  {
    if k > |s| || s[k - 1] == '>' then last
    else ScanTag(s, k + 1, if ok(k) then Some(k) else last, ok)
  }

  /** `last` is the rightmost match position below `k`, if any. */
  ghost predicate RightmostBelow(s: string, i: nat, k: nat, last: Option<nat>, ok: nat -> bool) {
    && (last.None? ==> forall j: nat :: j < k ==> !MatchBy(s, i, j, ok))
    && (last.Some? ==> last.value < k && MatchBy(s, i, last.value, ok)
                       && forall j: nat :: last.value < j < k ==> !MatchBy(s, i, j, ok))
  }

  lemma {:induction false} ScanTagSpec(s: string, i: nat, k: nat, last: Option<nat>, ok: nat -> bool)
    requires StartsAt(s, i, ImgOpen) && i + |ImgOpen| < k <= |s| + 1
    requires forall j :: i + |ImgOpen| <= j < k - 1 ==> s[j] != '>'
    requires RightmostBelow(s, i, k, last, ok)
    ensures RightmostBelow(s, i, |s| + 1, ScanTag(s, k, last, ok), ok)
    decreases |s| + 1 - k
  {
    if k > |s| {
    } else if s[k - 1] == '>' {
      ClosedTag(s, i, k, last, ok);
    } else {
      var next := if ok(k) then Some(k) else last;
      ScanTagStep(s, i, k, last, ok);
      ScanTagSpec(s, i, k + 1, next, ok);
    }
  }

  /** Past a '>' the pattern cannot match any more, so the rightmost match so far is final. */
  lemma ClosedTag(s: string, i: nat, k: nat, last: Option<nat>, ok: nat -> bool)
    requires i + |ImgOpen| < k <= |s| && s[k - 1] == '>'
    requires RightmostBelow(s, i, k, last, ok)
    ensures RightmostBelow(s, i, |s| + 1, last, ok)
  {
    assert forall j: nat :: k <= j ==> !MatchBy(s, i, j, ok) by {
      forall j: nat | k <= j
        ensures !MatchBy(s, i, j, ok)
      {
        assert i + |ImgOpen| <= k - 1 < j;
      }
    }
  }

  /** One step of the scan: position `k` is a match exactly when it passes `ok`. */
  lemma ScanTagStep(s: string, i: nat, k: nat, last: Option<nat>, ok: nat -> bool)
    requires StartsAt(s, i, ImgOpen) && i + |ImgOpen| < k <= |s|
    requires forall j :: i + |ImgOpen| <= j < k ==> s[j] != '>'
    requires RightmostBelow(s, i, k, last, ok)
    ensures RightmostBelow(s, i, k + 1, if ok(k) then Some(k) else last, ok)
  {
    assert MatchBy(s, i, k, ok) <==> ok(k);
  }

  /** A reported match: where it starts, where its `src="` is, its closing quote and the captured URL. */
  datatype ImgMatch = ImgMatch(start: nat, src: nat, close: nat, url: string)

  /** The regex tried at index `i` alone. */
  function ImgAt(s: string, i: nat): (r: Option<ImgMatch>)
    ensures r.Some? ==> var m := r.value;
      && m.start == i && StartsAt(s, i, ImgOpen) && i + |ImgOpen| < m.src
      && StartsAt(s, m.src, SrcOpen) && m.src + |SrcOpen| < m.close < |s| && s[m.close] == '"'
      && m.url == s[m.src + |SrcOpen|..m.close]
  {
    if !StartsAt(s, i, ImgOpen) then
      None
    else
      match ScanTag(s, i + |ImgOpen| + 1, None, SrcTest(s))
      case None => None
      case Some(k) =>
        var q := CloseQuote(s, k);
        Some(ImgMatch(i, k, q, s[k + |SrcOpen|..q]))
  }

  /**
   `ImgAt` is the regex's answer at `i`: no match exactly when no attribute
   position completes the pattern; otherwise the rightmost such position
   (greedy `[^>]+`), with the URL running up to the first closing quote.
   */
  lemma ImgAtSpec(s: string, i: nat)
    ensures ImgAt(s, i).None? <==> forall k: nat :: !MatchAt(s, i, k)
    ensures ImgAt(s, i).Some? ==> var m := ImgAt(s, i).value;
      && MatchAt(s, i, m.src) && m.close == CloseQuote(s, m.src)
      && forall k: nat :: m.src < k ==> !MatchAt(s, i, k)
  {
    if StartsAt(s, i, ImgOpen) {
      ScanTagSpec(s, i, i + |ImgOpen| + 1, None, SrcTest(s));
      var r := ScanTag(s, i + |ImgOpen| + 1, None, SrcTest(s));
      if r.Some? {
        assert MatchAt(s, i, r.value);
      }
    }
  }

  /**
   What a matcher tried at each index of an `n`-character text may report:
   a match starting there and closing strictly inside the text.
   */
  predicate Advances(n: nat, at: nat -> Option<ImgMatch>) {
    forall k: nat :: k < n && at(k).Some? ==> at(k).value.start == k < at(k).value.close < n && at(k).value.url != []
  }

  /**
   The `finditer` loop over any matcher: try index `i`; on a match, report it
   and resume right after it, otherwise move one character on.
   */
  function Scan(n: nat, i: nat, at: nat -> Option<ImgMatch>): (r: seq<ImgMatch>)
    requires i <= n && Advances(n, at)
    ensures forall m :: 0 <= m < |r| ==> i <= r[m].start < r[m].close < n && r[m].url != []
    ensures forall m, l :: 0 <= m < l < |r| ==> r[m].close < r[l].start
    decreases n - i
  {
    if i == n then
      []
    else
      match at(i)
      case Some(m) => [m] + Scan(n, m.close + 1, at)
      case None => Scan(n, i + 1, at)
  }

  /** Every match the scan reports is what the matcher finds at its start. */
  lemma {:induction false} ScanSound(n: nat, i: nat, at: nat -> Option<ImgMatch>, m: nat)
    requires i <= n && Advances(n, at) && m < |Scan(n, i, at)|
    ensures at(Scan(n, i, at)[m].start) == Some(Scan(n, i, at)[m])
    decreases n - i
  {
    match at(i)
    case Some(x) =>
      if m > 0 {
        ScanSound(n, x.close + 1, at, m - 1);
      }
    case None =>
      ScanSound(n, i + 1, at, m);
  }

  /** Index `j` is the start of, or lies inside, one of the matches `ms`. */
  ghost predicate Covered(ms: seq<ImgMatch>, j: nat) {
    exists m :: 0 <= m < |ms| && ms[m].start <= j <= ms[m].close
  }

  lemma CoveredCons(x: ImgMatch, ms: seq<ImgMatch>, j: nat)
    requires Covered(ms, j)
    ensures Covered([x] + ms, j)
  {
    var m :| 0 <= m < |ms| && ms[m].start <= j <= ms[m].close;
    assert ([x] + ms)[m + 1] == ms[m];
  }

  /** The scan skips no index at which the matcher succeeds, except inside a reported match. */
  lemma {:induction false} ScanComplete(n: nat, i: nat, at: nat -> Option<ImgMatch>, j: nat)
    requires i <= j < n && Advances(n, at) && at(j).Some?
    ensures Covered(Scan(n, i, at), j)
    decreases n - i
  {
    var r := Scan(n, i, at);
    if at(i).Some? {
      var x := at(i).value;
      var tail := Scan(n, x.close + 1, at);
      assert r == [x] + tail;
      if j <= x.close {
        assert r[0].start <= j <= r[0].close;
      } else {
        ScanComplete(n, x.close + 1, at, j);
        CoveredCons(x, tail, j);
      }
    } else {
      assert r == Scan(n, i + 1, at);
      ScanComplete(n, i + 1, at, j);
    }
  }

  /** The pattern's answer at every index of `s`. */
  function Finder(s: string): (at: nat -> Option<ImgMatch>)
    ensures Advances(|s|, at)
  {
    (k: nat) => ImgAt(s, k)
  }

  /** `re.finditer` over the whole markup: matches in order, none overlapping. */
  function Matches(s: string): (r: seq<ImgMatch>)
    ensures forall m :: 0 <= m < |r| ==> r[m].start < r[m].close < |s| && r[m].url != []
    ensures forall m, l :: 0 <= m < l < |r| ==> r[m].close < r[l].start
  {
    Scan(|s|, 0, Finder(s))
  }

  /** Every reported match is what the regex finds at its start index. */
  lemma MatchesSound(s: string, m: nat)
    requires m < |Matches(s)|
    ensures ImgAt(s, Matches(s)[m].start) == Some(Matches(s)[m])
  {
    ScanSound(|s|, 0, Finder(s), m);
  }

  /**
   Nothing is skipped: every index at which the pattern would match is
   either the start of a reported match or lies inside one reported earlier.
   */
  lemma MatchesComplete(s: string, j: nat)
    requires j < |s| && ImgAt(s, j).Some?
    ensures Covered(Matches(s), j)
  {
    ScanComplete(|s|, 0, Finder(s), j);
  }

  /** Keep the URLs that are not video thumbnails, as photo attachments, in order. */
  function Photos(urls: seq<string>): (r: seq<Item>)
    requires forall n :: 0 <= n < |urls| ==> urls[n] != []
    ensures |r| <= |urls|
    ensures forall n :: 0 <= n < |r| ==> r[n].kind == PhotoKind && r[n].url != [] && !Contains(r[n].url, VideoThumb)
  {
    if urls == [] then
      []
    else
      var rest := Photos(urls[1..]);
      if Contains(urls[0], VideoThumb) then rest else [Item(urls[0], PhotoKind)] + rest
  }

  /** Only URLs of the input become attachments. */
  lemma {:induction false} PhotosFromInput(urls: seq<string>, x: Item)
    requires forall n :: 0 <= n < |urls| ==> urls[n] != []
    requires x in Photos(urls)
    ensures x.url in urls
  {
    if urls != [] {
      var rest := Photos(urls[1..]);
      if x in rest {
        PhotosFromInput(urls[1..], x);
      }
    }
  }

  /** Every URL that is not a video thumbnail becomes a photo attachment. */
  lemma {:induction false} PhotosKeepsPhotos(urls: seq<string>, u: string)
    requires forall n :: 0 <= n < |urls| ==> urls[n] != []
    requires u in urls && !Contains(u, VideoThumb)
    ensures Item(u, PhotoKind) in Photos(urls)
  {
    if u != urls[0] {
      PhotosKeepsPhotos(urls[1..], u);
    }
  }

  /** Filtering is applied URL by URL, so attachments keep the order of the matches. */
  lemma {:induction false} PhotosAppend(a: seq<string>, b: seq<string>)
    requires forall n :: 0 <= n < |a| ==> a[n] != []
    requires forall n :: 0 <= n < |b| ==> b[n] != []
    ensures forall n :: 0 <= n < |a + b| ==> (a + b)[n] != []
    ensures Photos(a + b) == Photos(a) + Photos(b)
  {
    if a == [] {
      assert a + b == b;
    } else {
      assert (a + b)[0] == a[0];
      assert (a + b)[1..] == a[1..] + b;
      PhotosAppend(a[1..], b);
    }
  }

  function UrlsOf(ms: seq<ImgMatch>): (urls: seq<string>)
    ensures |urls| == |ms|
    ensures forall n :: 0 <= n < |ms| ==> urls[n] == ms[n].url
  {
    seq(|ms|, n requires 0 <= n < |ms| => ms[n].url)
  }

  /** `_extract_media(html)`. */
  function ExtractMedia(html: string): (r: seq<Item>)
    ensures forall n :: 0 <= n < |r| ==> r[n].kind == PhotoKind && r[n].url != [] && !Contains(r[n].url, VideoThumb)
  {
    Photos(UrlsOf(Matches(html)))
  }

  /**
   Each attachment URL is the value of a `src="..."` attribute of the
   markup: it follows `src="` and is followed by the closing quote.
   */
  lemma MediaUrlInMarkup(html: string, x: Item)
    requires x in ExtractMedia(html)
    ensures exists k: nat :: StartsAt(html, k, SrcOpen) && StartsAt(html, k + |SrcOpen|, x.url + "\"")
  {
    var urls := UrlsOf(Matches(html));
    PhotosFromInput(urls, x);
    var n :| 0 <= n < |urls| && urls[n] == x.url;
    MatchUrlInMarkup(html, n);
  }

  /** The URL captured by the `n`-th match follows a `src="` and runs up to a quote. */
  lemma MatchUrlInMarkup(html: string, n: nat)
    requires n < |Matches(html)|
    ensures var m := Matches(html)[n];
      StartsAt(html, m.src, SrcOpen) && StartsAt(html, m.src + |SrcOpen|, m.url + "\"")
  {
    var m := Matches(html)[n];
    MatchesSound(html, n);
    ImgAtUrl(html, m.start);
  }

  /** A single match's url is the quoted value of its `src="` attribute. */
  lemma ImgAtUrl(s: string, i: nat)
    requires ImgAt(s, i).Some?
    ensures var m := ImgAt(s, i).value;
      StartsAt(s, m.src, SrcOpen) && StartsAt(s, m.src + |SrcOpen|, m.url + "\"")
  {
    var m := ImgAt(s, i).value;
    ValueThenQuote(s, m.src + |SrcOpen|, m.close);
  }

  lemma ValueThenQuote(s: string, a: nat, q: nat)
    requires a <= q < |s| && s[q] == '"'
    ensures StartsAt(s, a, s[a..q] + "\"")
  {
    assert s[a..q + 1] == s[a..q] + "\"";
  }

  /** Markup without any `<img` yields no attachments. */
  lemma NoImageNoMedia(html: string)
    requires !Contains(html, ImgOpen)
    ensures ExtractMedia(html) == []
  {
    var ms := Matches(html);
    if ms != [] {
      MatchesSound(html, 0);
    }
  }
}
