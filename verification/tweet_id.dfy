/**
 `TwitterClient._extract_tweet_id`: the first group of `re.search(r'/status/(\d+)', url)`.
 The search reports the leftmost index at which "/status/" is followed by at
 least one digit; `\d+` then takes the longest run of digits from there.
 */
module TweetIds {
  import opened Wrappers
  import opened Text

  const StatusMarker: string := "/status/"

  /** The pattern `/status/\d` matches at index `i`. */
  predicate StatusAt(url: string, i: nat) {
    StartsAt(url, i, StatusMarker) && i + |StatusMarker| < |url| && IsDigit(url[i + |StatusMarker|])
  }

  /** End of the run of digits that starts at `j`. */
  function DigitsEnd(s: string, j: nat): (k: nat)
    requires j <= |s|
    ensures j <= k <= |s|
    ensures forall m :: j <= m < k ==> IsDigit(s[m])
    ensures k == |s| || !IsDigit(s[k])
    decreases |s| - j
  {
    if j < |s| && IsDigit(s[j]) then DigitsEnd(s, j + 1) else j
  }

  /** The search, resumed at index `i`. */
  function ExtractFrom(url: string, i: nat): (r: Option<string>)
    requires i <= |url|
    ensures r.None? <==> forall k :: i <= k < |url| ==> !StatusAt(url, k)
    ensures r.Some? ==> exists k :: i <= k < |url| && StatusAt(url, k) && IdAt(url, k, r.value)
                                   && forall k' :: i <= k' < k ==> !StatusAt(url, k')
    decreases |url| - i
  {
    if i + |StatusMarker| >= |url| then
      None
    else if StatusAt(url, i) then
      var start := i + |StatusMarker|;
      var id := url[start..DigitsEnd(url, start)];
      assert IdAt(url, i, id);
      Some(id)
    else
      var r := ExtractFrom(url, i + 1);
      assert r.Some? ==> exists k :: i + 1 <= k < |url| && StatusAt(url, k) && IdAt(url, k, r.value)
                                     && forall k' :: i + 1 <= k' < k ==> !StatusAt(url, k');
      r
  }

  /**
   `id` is exactly the greedy `\d+` run following the marker at `i`: non-empty,
   all digits, and not followed by another digit.
   */
  ghost predicate IdAt(url: string, i: nat, id: string) {
    var start := i + |StatusMarker|;
    && |id| > 0 && AllDigits(id)
    && start + |id| <= |url| && url[start..start + |id|] == id
    && (start + |id| == |url| || !IsDigit(url[start + |id|]))
  }

  /**
   `_extract_tweet_id(url)`: `None` exactly when the pattern occurs nowhere;
   otherwise the maximal digit run after the leftmost matching marker.
   */
  function ExtractTweetId(url: string): (r: Option<string>)
    ensures r.None? <==> forall k :: 0 <= k < |url| ==> !StatusAt(url, k)
    ensures r.Some? ==> |r.value| > 0 && AllDigits(r.value)
    ensures r.Some? ==> exists k :: 0 <= k < |url| && StatusAt(url, k) && IdAt(url, k, r.value)
                                   && forall k' :: 0 <= k' < k ==> !StatusAt(url, k')
  {
    ExtractFrom(url, 0)
  }

  /** Every extracted id is accepted by `int(...)`, so sorting by it cannot raise. */
  lemma ExtractedIdParses(url: string)
    requires ExtractTweetId(url).Some?
    ensures ParseInt(ExtractTweetId(url).value).Some?
  {
  }

  /** A permalink of the usual shape yields its trailing number. */
  lemma PermalinkId(prefix: string, id: string)
    requires |id| > 0 && AllDigits(id)
    requires forall k :: 0 <= k < |prefix| ==> !StatusAt(prefix + StatusMarker + id, k)
    ensures ExtractTweetId(prefix + StatusMarker + id) == Some(id)
  {
    var url := prefix + StatusMarker + id;
    var i := |prefix|;
    assert url[i..i + |StatusMarker|] == StatusMarker;
    assert url[i + |StatusMarker|..] == id;
    FirstMarker(url, i, id);
  }

  /** The first marker, followed by nothing but digits, yields those digits. */
  lemma FirstMarker(url: string, i: nat, id: string)
    requires |id| > 0 && AllDigits(id)
    requires i + |StatusMarker| + |id| == |url|
    requires StartsAt(url, i, StatusMarker) && url[i + |StatusMarker|..] == id
    requires forall k :: 0 <= k < i ==> !StatusAt(url, k)
    ensures ExtractTweetId(url) == Some(id)
  {
    var start := i + |StatusMarker|;
    assert url[start] == id[0];
    assert StatusAt(url, i);
    SkipTo(url, 0, i);
    forall m | start <= m < |url|
      ensures IsDigit(url[m])
    {
      assert url[m] == id[m - start];
    }
    var end := DigitsEnd(url, start);
    assert end == |url|;
    assert ExtractFrom(url, i) == Some(url[start..end]);
    assert url[start..end] == id;
  }

  /** Where the pattern does not occur, the search moves on unchanged. */
  lemma {:induction false} SkipTo(url: string, j: nat, i: nat)
    requires j <= i <= |url|
    requires forall k :: j <= k < i ==> !StatusAt(url, k)
    ensures ExtractFrom(url, j) == ExtractFrom(url, i)
    decreases i - j
  {
    if j < i {
      if j + |StatusMarker| < |url| {
        SkipOne(url, j);
        SkipTo(url, j + 1, i);
      } else {
        PastEnd(url, j);
        PastEnd(url, i);
      }
    }
  }

  /** The search moves past an index where the marker does not start. */
  lemma SkipOne(url: string, j: nat)
    requires j + |StatusMarker| < |url| && !StatusAt(url, j)
    ensures ExtractFrom(url, j) == ExtractFrom(url, j + 1)
  {
  }

  /** No marker fits after the last `|StatusMarker|` characters. */
  lemma PastEnd(url: string, j: nat)
    requires j <= |url| && |url| <= j + |StatusMarker|
    ensures ExtractFrom(url, j) == None
  {
  }
}
