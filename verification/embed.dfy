/**
 `Embed`: `create_tweet_embed(tweet, user)`, the Discord message card built
 for one tweet. Rendering by Discord is not modelled; the card is the record
 of what the bot hands to it.
 */
module Embed {
  import opened Wrappers
  import opened Text
  import TweetIds
  import Media
  import TwitterClient

  /** `COLORS['text']`, `COLORS['media']` and `COLORS['retweet']`. */
  const TextColour: nat := 0x6B46C1
  const MediaColour: nat := 0x9F7AEA
  const RetweetColour: nat := 0x4A5568

  const ProfileBase: string := "https://twitter.com/"
  const StatsName: string := "Stats"

  datatype Author = Author(name: string, url: string, iconUrl: Option<string>)
  datatype Field = Field(name: string, value: string)
  datatype Card = Card(
    description: string,
    colour: nat,
    timestamp: int,
    author: Author,
    fields: seq<Field>,
    image: Option<string>)

  /** How an f-string renders the tweet id: the id itself, or `None`. */
  function IdText(id: Option<string>): string {
    match id
    case Some(s) => s
    case None => "None"
  }

  /** The permalink the author line points to. */
  function Permalink(username: string, id: Option<string>): string {
    ProfileBase + username + TweetIds.StatusMarker + IdText(id)
  }

  /** The single "Stats" field: speech balloon, arrows and heart, each followed by its count. */
  function StatsLine(m: TwitterClient.Metrics): string {
    "\U{1F4AC} " + NatToString(m.replyCount)
    + " \U{1F504} " + NatToString(m.retweetCount)
    + " \U{2764}\U{FE0F} " + NatToString(m.likeCount)
  }

  /** The stats text of a tweet read from the feed, which has no counts. */
  const ZeroStats: string := "\U{1F4AC} 0 \U{1F504} 0 \U{2764}\U{FE0F} 0"

  lemma ZeroStatsLine()
    ensures StatsLine(TwitterClient.NoMetrics) == ZeroStats
  {
    assert NatToString(0) == "0";
    var a := "\U{1F4AC} " + "0";
    assert a == "\U{1F4AC} 0";
    var b := a + " \U{1F504} ";
    assert b == "\U{1F4AC} 0 \U{1F504} ";
    var c := b + "0" + " \U{2764}\U{FE0F} " + "0";
    assert c == ZeroStats;
  }

  /**
   The card colour. The retweet test is `hasattr(tweet, 'referenced_tweets')`,
   which is false for every dictionary, so the retweet colour is never chosen;
   a tweet with an `attachments` entry gets the media colour.
   */
  function TweetColour(t: TwitterClient.Tweet): (c: nat)
    ensures c != RetweetColour
    ensures c == MediaColour <==> t.attachments.Some?
    ensures c == TextColour <==> t.attachments.None?
  {
    if t.attachments.Some? then MediaColour else TextColour
  }

  /** A Python value used as a condition: a missing or empty string is false. */
  predicate Truthy(s: Option<string>) {
    s.Some? && s.value != []
  }

  /**
   `create_tweet_embed(tweet, user)`. `None` stands for the `IndexError`
   raised when an attachments entry holds an empty media list.
   */
  function CreateTweetEmbed(tweet: TwitterClient.Tweet, user: TwitterClient.User): (r: Option<Card>)
    ensures r.None? <==> tweet.attachments == Some([])
    ensures r.Some? ==> && r.value.description == tweet.text
                        && r.value.timestamp == tweet.createdAt
                        && r.value.colour == TweetColour(tweet)
    ensures r.Some? ==> && r.value.author.name == user.name + " (@" + user.username + ")"
                        && r.value.author.url == Permalink(user.username, tweet.id)
                        && (r.value.author.iconUrl.Some? <==> Truthy(user.profileImageUrl))
                        && (r.value.author.iconUrl.Some? ==> r.value.author.iconUrl == user.profileImageUrl)
    ensures r.Some? ==> r.value.fields == [Field(StatsName, StatsLine(tweet.metrics))]
    ensures r.Some? ==> (r.value.image.Some? <==> tweet.attachments.Some? && tweet.attachments.value[0].kind == Media.PhotoKind)
    ensures r.Some? && r.value.image.Some? ==> r.value.image.value == tweet.attachments.value[0].url
  {
    if tweet.attachments == Some([]) then
      None
    else
      var name := user.name + " (@" + user.username + ")";
      var author := Author(name, Permalink(user.username, tweet.id),
                           if Truthy(user.profileImageUrl) then user.profileImageUrl else None);
      var image := match tweet.attachments
                   case Some(media) => if media[0].kind == Media.PhotoKind then Some(media[0].url) else None
                   case None => None;
      Some(Card(tweet.text, TweetColour(tweet), tweet.createdAt, author,
                [Field(StatsName, StatsLine(tweet.metrics))], image))
  }

  /** No '/' of the profile part of a permalink starts a `/status/<digit>` match. */
  lemma NoStatusInProfile(username: string, tail: string)
    requires forall i :: 0 <= i < |username| ==> username[i] != '/'
    ensures forall k :: 0 <= k < |ProfileBase + username| ==>
              !TweetIds.StatusAt(ProfileBase + username + TweetIds.StatusMarker + tail, k)
  {
    var prefix := ProfileBase + username;
    var url := prefix + TweetIds.StatusMarker + tail;
    forall k | 0 <= k < |prefix|
      ensures !TweetIds.StatusAt(url, k)
    {
      if k < |ProfileBase| - 1 {
        assert url[k] == ProfileBase[k] && url[k + 1] == ProfileBase[k + 1];
      } else if k == |ProfileBase| - 1 {
        if |username| >= 7 {
          assert url[k + 7] == username[6];
        } else if |username| == 6 {
          assert url[k + 8] == TweetIds.StatusMarker[1];
        } else {
          assert url[k + 7] == TweetIds.StatusMarker[6 - |username|];
        }
      } else {
        assert url[k] == username[k - |ProfileBase|];
      }
    }
  }

  /**
   The card links back to the tweet it shows: extracting the id from the
   author URL gives the tweet's id, for any handle without a '/'.
   */
  lemma PermalinkRoundTrip(tweet: TwitterClient.Tweet, user: TwitterClient.User)
    requires tweet.id.Some? && |tweet.id.value| > 0 && AllDigits(tweet.id.value)
    requires forall i :: 0 <= i < |user.username| ==> user.username[i] != '/'
    requires CreateTweetEmbed(tweet, user).Some?
    ensures TweetIds.ExtractTweetId(CreateTweetEmbed(tweet, user).value.author.url) == tweet.id
  {
    NoStatusInProfile(user.username, tweet.id.value);
    TweetIds.PermalinkId(ProfileBase + user.username, tweet.id.value);
  }

  /** The card of a tweet with zero counts whose attachments are the photos `media`, when there are any. */
  lemma PhotoTweetCard(t: TwitterClient.Tweet, user: TwitterClient.User, media: seq<Media.Item>)
    requires t.metrics == TwitterClient.NoMetrics
    requires t.attachments == if media == [] then None else Some(media)
    requires forall n :: 0 <= n < |media| ==> media[n].kind == Media.PhotoKind
    ensures var c := CreateTweetEmbed(t, user);
            && c.Some?
            && c.value.fields == [Field(StatsName, ZeroStats)]
            && (c.value.image.Some? <==> media != [])
            && (c.value.image.Some? ==> c.value.image.value == media[0].url)
            && (c.value.colour == MediaColour <==> media != [])
  {
    ZeroStatsLine();
  }

  /**
   A card for a fetched tweet is always built: it shows zero counts, and an
   image exactly when the entry's markup had a photo, namely the first one.
   A fetched retweet still gets the text or media colour.
   */
  lemma FetchedTweetCard(feed: Option<TwitterClient.Feed>, parseDate: TwitterClient.DateParser, i: nat, user: TwitterClient.User)
    requires i < |TwitterClient.GetRecentTweets(feed, parseDate)|
    ensures var t := TwitterClient.GetRecentTweets(feed, parseDate)[i];
            var media := Media.ExtractMedia(feed.value.entries[i].description);
            var c := CreateTweetEmbed(t, user);
            && c.Some?
            && c.value.fields == [Field(StatsName, ZeroStats)]
            && (c.value.image.Some? <==> media != [])
            && (c.value.image.Some? ==> c.value.image.value == media[0].url)
            && (c.value.colour == MediaColour <==> media != [])
  {
    var t := TwitterClient.GetRecentTweets(feed, parseDate)[i];
    var media := Media.ExtractMedia(feed.value.entries[i].description);
    TwitterClient.RecentTweetMedia(feed, parseDate, i);
    PhotoTweetCard(t, user, media);
  }
}
