/**
 `TwitterClient`: turns one fetched RSS feed into the user record and the
 tweet records the relay works with. The fetch itself
 (`feedparser.parse` of `https://nitter.net/<username>/rss`) is an input:
 `None` stands for a fetch or parse that raised.
 */
module TwitterClient {
  import opened Wrappers
  import opened Text
  import TweetIds
  import CleanText
  import Media
  import Seqs

  const BaseUrl: string := "https://nitter.net"
  /** `feed.entries[:5]`. */
  const BatchSize: nat := 5
  const RetweetPrefix: string := "RT by"
  const TitleSuffix: string := "'s tweets"

  datatype Metrics = Metrics(replyCount: nat, retweetCount: nat, likeCount: nat)

  /**
   One tweet dictionary. `retweeted` stands for the presence of the
   `referenced_tweets` key; `attachments` for the `attachments` key and the
   media list under it.
   */
  datatype Tweet = Tweet(
    id: Option<string>,
    text: string,
    createdAt: int,
    metrics: Metrics,
    retweeted: bool,
    attachments: Option<seq<Media.Item>>)

  datatype User = User(username: string, name: string, id: string, profileImageUrl: Option<string>)

  /** The fields of a feed entry that the client reads. */
  datatype Entry = Entry(link: string, title: string, description: string, published: string)

  /** `feed.feed.image`; its `href` may be missing. */
  datatype Image = Image(href: Option<string>)

  /** A parsed feed: channel title and image (either may be missing) and the entries. */
  datatype Feed = Feed(title: Option<string>, image: Option<Image>, entries: seq<Entry>)

  /** Parser of the `published` field with format `%a, %d %b %Y %H:%M:%S %z`; `None` when it raises. */
  type DateParser = string -> Option<int>

  /** Python's `s.replace(p, "")`: remove the non-overlapping occurrences of `p`, scanning left to right. */
  function RemoveAll(s: string, p: string): (r: string)
    requires |p| > 0
    ensures |r| <= |s|
    ensures Contains(s, p) ==> |r| <= |s| - |p|
    ensures !Contains(s, p) ==> r == s
    decreases |s|
  {
    if |s| < |p| then
      s
    else if s[..|p|] == p then
      assert StartsAt(s, 0, p);
      RemoveAll(s[|p|..], p)
    else
      ContainsTail(s, p);
      [s[0]] + RemoveAll(s[1..], p)
  }

  /** An occurrence not at index 0 is an occurrence in the tail, and conversely. */
  lemma ContainsTail(s: string, p: string)
    requires s != [] && |p| > 0 && !StartsAt(s, 0, p)
    ensures Contains(s, p) <==> Contains(s[1..], p)
  {
    if Contains(s, p) {
      var i :| 0 <= i <= |s| && StartsAt(s, i, p);
      assert i > 0;
      assert StartsAt(s[1..], i - 1, p) by {
        assert s[1..][i - 1..i - 1 + |p|] == s[i..i + |p|];
      }
    }
    if Contains(s[1..], p) {
      var i :| 0 <= i <= |s[1..]| && StartsAt(s[1..], i, p);
      assert StartsAt(s, i + 1, p) by {
        assert s[1..][i..i + |p|] == s[i + 1..i + 1 + |p|];
      }
    }
  }

  /** `replace` changes the title exactly when the suffix text occurs in it. */
  lemma RemoveAllUnchangedIff(s: string, p: string)
    requires |p| > 0
    ensures RemoveAll(s, p) == s <==> !Contains(s, p)
  {
  }

  /** No proper prefix of "'s tweets" is also a suffix of it. */
  lemma TitleSuffixUnbordered(k: nat)
    requires 0 < k < |TitleSuffix|
    ensures TitleSuffix[k] != TitleSuffix[0]
  {
  }

  /** A title of the form `<name>'s tweets` yields `<name>` when the name itself does not contain the suffix. */
  lemma NameFromTitle(name: string)
    requires !Contains(name, TitleSuffix)
    ensures RemoveAll(name + TitleSuffix, TitleSuffix) == name
  {
    TitleSuffixSplit(name, "");
    assert name + TitleSuffix + "" == name + TitleSuffix;
  }

  /**
   When no occurrence starts inside `a`, even one running into the `p` that
   follows, `replace` keeps `a`, drops that `p` and goes on after it.
   */
  lemma {:induction false} RemoveAllSplit(a: string, p: string, b: string)
    requires |p| > 0 && !Contains(a + p[..|p| - 1], p)
    ensures RemoveAll(a + p + b, p) == a + RemoveAll(b, p)
    decreases |a|
  {
    if a == [] {
      var s := a + p + b;
      assert s[..|p|] == p && s[|p|..] == b;
    } else {
      var x := a + p[..|p| - 1];
      assert !StartsAt(x, 0, p);
      ContainsTail(x, p);
      assert x[1..] == a[1..] + p[..|p| - 1];
      RemoveAllSplit(a[1..], p, b);
      NotAtHead(a, p, b);
      RemoveAllSplitCons(a, p, b);
    }
  }

  /** Inductive step of `RemoveAllSplit`: the first character of `a` is kept. */
  lemma RemoveAllSplitCons(a: string, p: string, b: string)
    requires a != [] && |p| > 0 && (a + p + b)[..|p|] != p
    requires RemoveAll(a[1..] + p + b, p) == a[1..] + RemoveAll(b, p)
    ensures RemoveAll(a + p + b, p) == a + RemoveAll(b, p)
  {
    var s := a + p + b;
    RemoveAllSkip(s, p);
    Seqs.TailAppend3(a, p, b);
    Seqs.HeadTail(a);
    Seqs.ConcatShift(RemoveAll(s, p), a, [a[0]], RemoveAll(a[1..] + p + b, p), a[1..], RemoveAll(b, p));
  }

  /** With no occurrence at index 0 of `a + p[..|p| - 1]`, the text `a + p + b` does not start with `p`. */
  lemma NotAtHead(a: string, p: string, b: string)
    requires a != [] && |p| > 0 && !StartsAt(a + p[..|p| - 1], 0, p)
    ensures (a + p + b)[..|p|] != p
  {
    assert (a + p[..|p| - 1])[0..0 + |p|] == (a + p + b)[..|p|];
  }

  /** Text that does not start with `p` keeps its first character. */
  lemma RemoveAllSkip(s: string, p: string)
    requires 0 < |p| <= |s| && s[..|p|] != p
    ensures RemoveAll(s, p) == [s[0]] + RemoveAll(s[1..], p)
  {
  }

  /** No occurrence before index `i` means none starts in `s[..i]`, even one running into an occurrence at `i`. */
  lemma NoEarlyOccurrence(s: string, p: string, i: nat)
    requires |p| > 0 && StartsAt(s, i, p)
    requires forall j :: 0 <= j < i ==> !StartsAt(s, j, p)
    ensures !Contains(s[..i] + p[..|p| - 1], p)
  {
    var x := s[..i] + p[..|p| - 1];
    assert x == s[..i + |p| - 1] by {
      assert s[i..i + |p|][..|p| - 1] == s[i..i + |p| - 1];
      Seqs.SliceAround(s[..i + |p| - 1], i, i + |p| - 1);
    }
    forall j | 0 <= j <= |x|
      ensures !StartsAt(x, j, p)
    {
      if j + |p| <= |x| {
        assert !StartsAt(s, j, p);
        assert x[j..j + |p|] == s[j..j + |p|];
      }
    }
  }

  /**
   `replace` removes the leftmost occurrence, keeps everything before it, and
   goes on removing in the text after it.
   */
  lemma RemoveAllLeftmost(s: string, p: string, i: nat)
    requires |p| > 0 && StartsAt(s, i, p)
    requires forall j :: 0 <= j < i ==> !StartsAt(s, j, p)
    ensures RemoveAll(s, p) == s[..i] + RemoveAll(s[i + |p|..], p)
  {
    var a, b := s[..i], s[i + |p|..];
    NoEarlyOccurrence(s, p, i);
    RemoveAllSplit(a, p, b);
    Seqs.SliceAround(s, i, i + |p|);
  }

  /**
   For "'s tweets", which overlaps no shifted copy of itself, a text free of
   the suffix keeps its place: the suffix after it is dropped and removal
   goes on in the rest.
   */
  lemma TitleSuffixSplit(a: string, b: string)
    requires !Contains(a, TitleSuffix)
    ensures RemoveAll(a + TitleSuffix + b, TitleSuffix) == a + RemoveAll(b, TitleSuffix)
  {
    var p := TitleSuffix;
    var x := a + p[..|p| - 1];
    forall j | 0 <= j <= |x|
      ensures !StartsAt(x, j, p)
    {
      if j + |p| <= |a| {
        assert x[j..j + |p|] == a[j..j + |p|];
        assert !StartsAt(a, j, p);
      } else if j + |p| <= |x| {
        var k := |a| - j;
        TitleSuffixUnbordered(k);
        assert x[j..j + |p|][k] == x[|a|] == p[0];
      }
    }
    RemoveAllSplit(a, p, b);
  }

  /** Every occurrence is removed, not only the first: "'s tweets's tweets" becomes "". */
  lemma TitleSuffixTwice()
    ensures RemoveAll(TitleSuffix + TitleSuffix, TitleSuffix) == ""
  {
    TitleSuffixSplit("", TitleSuffix);
    TitleSuffixSplit("", "");
    assert "" + TitleSuffix + TitleSuffix == TitleSuffix + TitleSuffix;
    assert "" + TitleSuffix + "" == TitleSuffix;
  }

  /** `_get_profile_image(feed)`: the feed image's `href`, or `None` when either is missing. */
  function ProfileImage(feed: Feed): Option<string> {
    match feed.image
    case Some(Image(Some(href))) => Some(href)
    case _ => None
  }

  /**
   `get_user_by_username(username)`: `None` when the fetch failed, the feed
   has no entries, or its title is missing; otherwise the user record.
   */
  function GetUserByUsername(username: string, feed: Option<Feed>): (r: Option<User>)
    ensures r.None? <==> feed.None? || feed.value.entries == [] || feed.value.title.None?
    ensures r.Some? ==> && r.value.username == username && r.value.id == username
                        && r.value.name == RemoveAll(feed.value.title.value, TitleSuffix)
                        && (r.value.profileImageUrl.Some? <==> feed.value.image.Some? && feed.value.image.value.href.Some?)
                        && r.value.profileImageUrl == (if feed.value.image.Some? then feed.value.image.value.href else None)
  {
    match feed
    case None => None
    case Some(f) =>
      if f.entries == [] || f.title.None? then None
      else Some(User(username, RemoveAll(f.title.value, TitleSuffix), username, ProfileImage(f)))
  }

  const NoMetrics: Metrics := Metrics(0, 0, 0)

  /**
   `t` is what the loop body of `get_recent_tweets` builds from `e`: id from
   the link, cleaned text, parsed date, zero metrics, retweet flag from the
   title, and an attachments entry exactly when media was found.
   */
  ghost predicate BuiltFrom(e: Entry, t: Tweet, parseDate: DateParser) {
    && t.id == TweetIds.ExtractTweetId(e.link)
    && t.text == CleanText.Clean(e.description)
    && parseDate(e.published) == Some(t.createdAt)
    && t.metrics == NoMetrics
    && (t.retweeted <==> StartsWith(e.title, RetweetPrefix))
    && (t.attachments.Some? <==> Media.ExtractMedia(e.description) != [])
    && (t.attachments.Some? ==> t.attachments.value == Media.ExtractMedia(e.description))
  }

  /** The tweet the loop body of `get_recent_tweets` builds from an entry whose date parsed as `when`. */
  function BuildTweet(e: Entry, when: int): (t: Tweet)
    ensures t.createdAt == when && t.metrics == NoMetrics
  {
    var media := Media.ExtractMedia(e.description);
    Tweet(
      TweetIds.ExtractTweetId(e.link),
      CleanText.Clean(e.description),
      when,
      NoMetrics,
      StartsWith(e.title, RetweetPrefix),
      if media == [] then None else Some(media))
  }

  /** One entry; `None` when the date parse raises. */
  function ParseEntry(e: Entry, parseDate: DateParser): (r: Option<Tweet>)
    ensures r.None? <==> parseDate(e.published).None?
  {
    match parseDate(e.published)
    case None => None
    case Some(when) => Some(BuildTweet(e, when))
  }

  /** Apply `f` to every element, in order; `None` as soon as one application fails. */
  function MapAll<A, B>(xs: seq<A>, f: A -> Option<B>): (r: Option<seq<B>>)
    ensures r.None? <==> exists i :: 0 <= i < |xs| && f(xs[i]).None?
    ensures r.Some? ==> |r.value| == |xs| && forall i :: 0 <= i < |xs| ==> f(xs[i]) == Some(r.value[i])
  {
    if xs == [] then
      Some([])
    else
      var head := f(xs[0]);
      var tail := MapAll(xs[1..], f);
      if head.None? then
        None
      else if tail.None? then
        var i :| 0 <= i < |xs[1..]| && f(xs[1..][i]).None?;
        assert xs[i + 1] == xs[1..][i];
        None
      else
        assert forall i :: 1 <= i < |xs| ==> xs[i] == xs[1..][i - 1];
        Some([head.value] + tail.value)
  }

  /** The loop of `get_recent_tweets` over a batch of entries: all of them, or `None` when one raises. */
  function ParseBatch(es: seq<Entry>, parseDate: DateParser): (r: Option<seq<Tweet>>)
    ensures r.None? <==> exists i :: 0 <= i < |es| && parseDate(es[i].published).None?
    ensures r.Some? ==> |r.value| == |es| && forall i :: 0 <= i < |es| ==> ParseEntry(es[i], parseDate) == Some(r.value[i])
  {
    MapAll(es, e => ParseEntry(e, parseDate))
  }

  function Min(a: nat, b: nat): nat {
    if a <= b then a else b
  }

  /**
   `get_recent_tweets(user_id)`: the first five entries, in feed order, each
   built by `BuiltFrom`; `[]` when the fetch failed or any of those five
   entries raised.
   */
  function GetRecentTweets(feed: Option<Feed>, parseDate: DateParser): (r: seq<Tweet>)
    ensures |r| <= BatchSize
    ensures r == [] <==> || feed.None? || feed.value.entries == []
                         || exists i :: 0 <= i < Min(BatchSize, |feed.value.entries|)
                                        && parseDate(feed.value.entries[i].published).None?
    ensures r != [] ==> && |r| == Min(BatchSize, |feed.value.entries|)
                        && forall i :: 0 <= i < |r| ==> ParseEntry(feed.value.entries[i], parseDate) == Some(r[i])
  {
    match feed
    case None => []
    case Some(f) =>
      var batch := f.entries[..Min(BatchSize, |f.entries|)];
      assert forall i :: 0 <= i < |batch| ==> batch[i] == f.entries[i];
      var parsed := ParseBatch(batch, parseDate);
      if parsed.None? then [] else parsed.value
  }

  /** The `i`-th fetched tweet is built from the `i`-th feed entry. */
  lemma RecentTweetBuilt(feed: Option<Feed>, parseDate: DateParser, i: nat)
    requires i < |GetRecentTweets(feed, parseDate)|
    ensures BuiltFrom(feed.value.entries[i], GetRecentTweets(feed, parseDate)[i], parseDate)
  {
    assert ParseEntry(feed.value.entries[i], parseDate) == Some(GetRecentTweets(feed, parseDate)[i]);
  }

  /** The `i`-th fetched tweet has zero counts and carries the `i`-th entry's photos when there are any. */
  lemma RecentTweetMedia(feed: Option<Feed>, parseDate: DateParser, i: nat)
    requires i < |GetRecentTweets(feed, parseDate)|
    ensures var t := GetRecentTweets(feed, parseDate)[i];
            var media := Media.ExtractMedia(feed.value.entries[i].description);
            && t.metrics == NoMetrics
            && t.attachments == if media == [] then None else Some(media)
  {
    RecentTweetBuilt(feed, parseDate, i);
  }

  /** Every fetched tweet carries zero metrics, and an attachments list only when it is non-empty. */
  lemma RecentTweetsShape(feed: Option<Feed>, parseDate: DateParser, t: Tweet)
    requires t in GetRecentTweets(feed, parseDate)
    ensures t.metrics == Metrics(0, 0, 0)
    ensures t.attachments.Some? ==> t.attachments.value != []
    ensures t.attachments.Some? ==> forall n :: 0 <= n < |t.attachments.value| ==> t.attachments.value[n].kind == Media.PhotoKind
    ensures t.id.Some? ==> ParseInt(t.id.value).Some?
  {
    var r := GetRecentTweets(feed, parseDate);
    var i :| 0 <= i < |r| && r[i] == t;
    RecentTweetBuilt(feed, parseDate, i);
  }
}
