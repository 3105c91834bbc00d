/**
 `Polling`: one pass of the `check_tweets` loop. For each tracked row it
 fetches the user and the latest tweets, orders them by numeric id, and
 either records the newest id (first sync), or sends the tweets newer than
 the stored cursor, oldest first, and moves the cursor to the newest one.
 Fetches, the channel lookup and the date parser are inputs.
 */
module Polling {
  import opened Wrappers
  import opened Text
  import TwitterClient
  import Embed
  import Database
  import Seqs

  type Tweet = TwitterClient.Tweet

  /** `int(t['id'])` succeeds. */
  predicate Keyed(t: Tweet) {
    t.id.Some? && ParseInt(t.id.value).Some?
  }

  /** The sort key `int(t['id'])`. */
  function Key(t: Tweet): nat
    requires Keyed(t)
  {
    ParseInt(t.id.value).value
  }

  predicate AllKeyed(ts: seq<Tweet>) {
    forall i :: 0 <= i < |ts| ==> Keyed(ts[i])
  }

  /** `int(t['id'])` where it succeeds, and 0 elsewhere (such lists are never sorted). */
  function KeyOf(t: Tweet): nat {
    if Keyed(t) then Key(t) else 0
  }

  predicate SortedBy<T>(ts: seq<T>, key: T -> nat) {
    forall i, j :: 0 <= i < j < |ts| ==> key(ts[i]) <= key(ts[j])
  }

  /** Place `t` before the first element whose key is at least its own. */
  function Insert<T>(t: T, s: seq<T>, key: T -> nat): (r: seq<T>)
    requires SortedBy(s, key)
    ensures |r| == |s| + 1
    ensures forall i :: 0 <= i < |r| ==> r[i] == t || r[i] in s
    ensures SortedBy(r, key)
  {
    if s == [] || key(t) <= key(s[0]) then
      [t] + s
    else
      var rest := Insert(t, s[1..], key);
      assert forall i :: 0 <= i < |rest| ==> key(s[0]) <= key(rest[i]) by {
        forall i | 0 <= i < |rest|
          ensures key(s[0]) <= key(rest[i])
        {
          if rest[i] != t {
            var k :| 0 <= k < |s[1..]| && s[1..][k] == rest[i];
            assert s[k + 1] == rest[i];
          }
        }
      }
      SortedCons(s[0], rest, key);
      assert forall i :: 1 <= i < |s| ==> s[i] in s;
      [s[0]] + rest
  }

  /** Inserting adds exactly one copy of `t`. */
  lemma {:induction false} InsertPerm<T>(t: T, s: seq<T>, key: T -> nat)
    requires SortedBy(s, key)
    ensures multiset(Insert(t, s, key)) == multiset(s) + multiset{t}
  {
    if s != [] && key(t) > key(s[0]) {
      var rest := Insert(t, s[1..], key);
      InsertPerm(t, s[1..], key);
      Seqs.PermCons(s, rest, t);
    }
  }

  /** Stable insertion sort by `key`, as `list.sort(key=...)` orders. */
  function SortBy<T>(s: seq<T>, key: T -> nat): (r: seq<T>)
    ensures |r| == |s|
    ensures SortedBy(r, key)
  {
    if s == [] then
      []
    else
      Insert(s[0], SortBy(s[1..], key), key)
  }

  /** Sorting is a permutation. */
  lemma {:induction false} SortPerm<T>(s: seq<T>, key: T -> nat)
    ensures multiset(SortBy(s, key)) == multiset(s)
  {
    if s != [] {
      var rest := SortBy(s[1..], key);
      SortPerm(s[1..], key);
      InsertPerm(s[0], rest, key);
      Seqs.PermStep(s, rest, SortBy(s, key));
    }
  }

  /** `[t for t in ts if key(t) > c]`. */
  function Newer<T>(ts: seq<T>, key: T -> nat, c: nat): (r: seq<T>)
    ensures |r| <= |ts|
    ensures forall i :: 0 <= i < |r| ==> key(r[i]) > c
    ensures forall i :: 0 <= i < |r| ==> r[i] in ts
    ensures forall i :: 0 <= i < |ts| && key(ts[i]) > c ==> ts[i] in r
  {
    if ts == [] then
      []
    else
      assert forall i :: 1 <= i < |ts| ==> ts[i] == ts[1..][i - 1];
      if key(ts[0]) > c then [ts[0]] + Newer(ts[1..], key, c) else Newer(ts[1..], key, c)
  }

  /** Filtering keeps every copy of a newer element and drops every copy of an older one. */
  lemma {:induction false} NewerCount<T>(ts: seq<T>, key: T -> nat, c: nat, x: T)
    ensures multiset(Newer(ts, key, c))[x] == if key(x) > c then multiset(ts)[x] else 0
  {
    if ts != [] {
      assert ts == [ts[0]] + ts[1..];
      NewerCount(ts[1..], key, c, x);
    }
  }

  /** Filtering commutes with reordering: a permutation filters to a permutation. */
  lemma NewerPermutation<T>(a: seq<T>, b: seq<T>, key: T -> nat, c: nat)
    requires multiset(a) == multiset(b)
    ensures multiset(Newer(a, key, c)) == multiset(Newer(b, key, c))
  {
    forall x
      ensures multiset(Newer(a, key, c))[x] == multiset(Newer(b, key, c))[x]
    {
      NewerCount(a, key, c, x);
      NewerCount(b, key, c, x);
    }
  }

  /** A filtered sorted list is still sorted. */
  lemma {:induction false} NewerSorted<T>(ts: seq<T>, key: T -> nat, c: nat)
    requires SortedBy(ts, key)
    ensures SortedBy(Newer(ts, key, c), key)
  {
    if ts != [] {
      var rest := Newer(ts[1..], key, c);
      NewerSorted(ts[1..], key, c);
      if key(ts[0]) > c {
        forall i | 0 <= i < |rest|
          ensures key(ts[0]) <= key(rest[i])
        {
          var k :| 0 <= k < |ts[1..]| && ts[1..][k] == rest[i];
          assert ts[k + 1] == rest[i];
        }
        SortedCons(ts[0], rest, key);
      }
    }
  }

  lemma SortedCons<T>(x: T, rest: seq<T>, key: T -> nat)
    requires SortedBy(rest, key)
    requires forall i :: 0 <= i < |rest| ==> key(x) <= key(rest[i])
    ensures SortedBy([x] + rest, key)
  {
    var s := [x] + rest;
    forall i, j | 0 <= i < j < |s|
      ensures key(s[i]) <= key(s[j])
    {
      assert s[j] == rest[j - 1];
      if i > 0 {
        assert s[i] == rest[i - 1];
      }
    }
  }

  /** The last element of a sorted list has the largest key. */
  lemma LastIsMax<T>(ts: seq<T>, key: T -> nat, t: T)
    requires SortedBy(ts, key) && t in ts
    ensures key(t) <= key(ts[|ts| - 1])
  {
    var k :| 0 <= k < |ts| && ts[k] == t;
  }

  /** Why a tracked row was passed over in this pass; nothing is sent or written for it. */
  datatype Skip =
    | NoUser       // the profile fetch found no user
    | NoTweets     // the tweet fetch returned nothing
    | BadTweetId   // some tweet id is missing or not a number, so the sort raised
    | NoChannel    // the Discord channel is not visible to the bot
    | BadCursor    // the stored cursor is not a number

  /**
   What one row's turn in the loop does. `FirstSync` records the newest id
   without sending; `Checked` lists the tweets newer than the cursor in send
   order, the cards built for them, and the cursor written afterwards, if any.
   */
  datatype Outcome =
    | Skipped(reason: Skip)
    | FirstSync(newest: string)
    | Checked(newer: seq<Tweet>, cards: seq<Embed.Card>, write: Option<string>)

  /** A stored cursor that Python treats as false: none, or the empty string. */
  predicate Falsy(cursor: Option<string>) {
    cursor.None? || cursor.value == []
  }

  /** The cards that are built and sent: a tweet whose card raises is passed over. */
  function Cards(ts: seq<Tweet>, user: TwitterClient.User): (r: seq<Embed.Card>)
    ensures |r| <= |ts|
    ensures (forall i :: 0 <= i < |ts| ==> ts[i].attachments != Some([])) ==>
              |r| == |ts| && forall i :: 0 <= i < |ts| ==> Embed.CreateTweetEmbed(ts[i], user) == Some(r[i])
  {
    if ts == [] then
      []
    else
      var rest := Cards(ts[1..], user);
      assert forall i :: 1 <= i < |ts| ==> ts[i] == ts[1..][i - 1];
      match Embed.CreateTweetEmbed(ts[0], user)
      case Some(card) => [card] + rest
      case None => rest
  }

  /** One tweet yields its card, or nothing when building the card raises. */
  lemma CardsOne(t: Tweet, user: TwitterClient.User)
    ensures var e := Embed.CreateTweetEmbed(t, user);
            Cards([t], user) == if e.Some? then [e.value] else []
  {
    assert [t][1..] == [];
  }

  /** The loop over a concatenation sends the cards of the first part, then those of the second. */
  lemma {:induction false} CardsAppend(a: seq<Tweet>, b: seq<Tweet>, user: TwitterClient.User)
    ensures Cards(a + b, user) == Cards(a, user) + Cards(b, user)
    decreases |a|
  {
    if a == [] {
      assert a + b == b;
    } else {
      var rest := a[1..];
      var e := Embed.CreateTweetEmbed(a[0], user);
      var h := if e.Some? then [e.value] else [];
      assert Cards(a + b, user) == h + Cards(rest + b, user) by {
        assert (a + b)[0] == a[0];
        assert (a + b)[1..] == rest + b;
      }
      assert Cards(a, user) == h + Cards(rest, user);
      CardsAppend(rest, b, user);
      Seqs.ConcatShift(Cards(a + b, user), Cards(a, user), h, Cards(rest + b, user), Cards(rest, user), Cards(b, user));
    }
  }

  /** The loop sends the first tweet's card, if it builds, then the cards of the rest. */
  lemma CardsHead(ts: seq<Tweet>, user: TwitterClient.User)
    requires ts != []
    ensures var e := Embed.CreateTweetEmbed(ts[0], user);
            Cards(ts, user) == (if e.Some? then [e.value] else []) + Cards(ts[1..], user)
  {
    CardsAppend([ts[0]], ts[1..], user);
    CardsOne(ts[0], user);
    assert [ts[0]] + ts[1..] == ts;
  }

  /** A card is sent exactly when some tweet of the list builds it. */
  lemma {:induction false} CardsMember(ts: seq<Tweet>, user: TwitterClient.User, c: Embed.Card)
    ensures c in Cards(ts, user) <==> exists i :: 0 <= i < |ts| && Embed.CreateTweetEmbed(ts[i], user) == Some(c)
    decreases |ts|
  {
    if ts != [] {
      CardsMember(ts[1..], user, c);
      CardsHead(ts, user);
      Seqs.MemberOptHead(Cards(ts, user), Embed.CreateTweetEmbed(ts[0], user), Cards(ts[1..], user), c);
      Seqs.ExistsMapsHead(ts, t => Embed.CreateTweetEmbed(t, user), Some(c));
    }
  }

  /**
   The body of the loop in `check_tweets` for one row, given the fetched
   user, the fetched tweets and whether the channel was found.
   */
  function CheckAccount(cursor: Option<string>, user: Option<TwitterClient.User>, tweets: seq<Tweet>, channelFound: bool): (r: Outcome)
    ensures r == Skipped(NoUser) <==> user.None?
    ensures r == Skipped(NoTweets) <==> user.Some? && tweets == []
    ensures r == Skipped(BadTweetId) <==> user.Some? && tweets != [] && !AllKeyed(tweets)
    ensures r == Skipped(NoChannel) <==> user.Some? && tweets != [] && AllKeyed(tweets) && !channelFound
    ensures r.FirstSync? <==> user.Some? && tweets != [] && AllKeyed(tweets) && channelFound && Falsy(cursor)
    ensures r == Skipped(BadCursor) <==> && user.Some? && tweets != [] && AllKeyed(tweets) && channelFound
                                         && !Falsy(cursor) && ParseInt(cursor.value).None?
    ensures r.Checked? <==> Checks(cursor, user, tweets, channelFound)
  {
    if user.None? then
      Skipped(NoUser)
    else if tweets == [] then
      Skipped(NoTweets)
    else if !AllKeyed(tweets) then
      Skipped(BadTweetId)
    else
      var sorted := SortBy(tweets, KeyOf);
      SortPerm(tweets, KeyOf);
      KeyedPermutation(tweets, sorted);
      if !channelFound then
        Skipped(NoChannel)
      else if Falsy(cursor) then
        FirstSync(Newest(sorted))
      else
        match ParseInt(cursor.value)
        case None => Skipped(BadCursor)
        case Some(c) =>
          var newer := Newer(sorted, KeyOf, c);
          Checked(newer, Cards(newer, user.value), if newer == [] then None else Some(Newest(newer)))
  }

  /** Every guard of the loop passes, so the row is checked against its numeric cursor. */
  predicate Checks(cursor: Option<string>, user: Option<TwitterClient.User>, tweets: seq<Tweet>, channelFound: bool) {
    && user.Some? && tweets != [] && AllKeyed(tweets) && channelFound
    && !Falsy(cursor) && ParseInt(cursor.value).Some?
  }

  /** `str(tweets[-1]['id'])`. */
  function Newest(ts: seq<Tweet>): string
    requires ts != [] && ts[|ts| - 1].id.Some?
  {
    ts[|ts| - 1].id.value
  }

  /** Reordering keeps every id parseable. */
  lemma KeyedPermutation(a: seq<Tweet>, b: seq<Tweet>)
    requires multiset(a) == multiset(b) && AllKeyed(a)
    ensures AllKeyed(b) && |b| == |a|
  {
    assert |multiset(a)| == |multiset(b)|;
    forall i | 0 <= i < |b|
      ensures Keyed(b[i])
    {
      assert b[i] in multiset(a);
      var k :| 0 <= k < |a| && a[k] == b[i];
    }
  }

  /** `m` is at least the key of every tweet. */
  ghost predicate Bounds(ts: seq<Tweet>, m: nat) {
    forall i :: 0 <= i < |ts| ==> KeyOf(ts[i]) <= m
  }

  /** A first sync records the id of a fetched tweet, and the largest one. */
  lemma FirstSyncRecordsNewest(cursor: Option<string>, user: Option<TwitterClient.User>, tweets: seq<Tweet>, channelFound: bool)
    requires CheckAccount(cursor, user, tweets, channelFound).FirstSync?
    ensures var w := CheckAccount(cursor, user, tweets, channelFound).newest;
            && ParseInt(w).Some?
            && (exists i :: 0 <= i < |tweets| && tweets[i].id == Some(w))
            && Bounds(tweets, ParseInt(w).value)
  {
    var sorted := SortBy(tweets, KeyOf);
    SortPerm(tweets, KeyOf);
    KeyedPermutation(tweets, sorted);
    var last := sorted[|sorted| - 1];
    assert last in multiset(tweets);
    forall i | 0 <= i < |tweets|
      ensures KeyOf(tweets[i]) <= Key(last)
    {
      assert tweets[i] in multiset(sorted);
      LastIsMax(sorted, KeyOf, tweets[i]);
    }
  }

  /** The tweets a check sends are the fetched tweets newer than the cursor, sorted by id. */
  function SortedNewer(tweets: seq<Tweet>, c: nat): seq<Tweet> {
    Newer(SortBy(tweets, KeyOf), KeyOf, c)
  }

  /** A check against a readable cursor `c` goes over `SortedNewer(tweets, c)`. */
  lemma CheckedShape(cursor: Option<string>, user: Option<TwitterClient.User>, tweets: seq<Tweet>, channelFound: bool)
    requires Checks(cursor, user, tweets, channelFound)
    ensures var r := CheckAccount(cursor, user, tweets, channelFound);
            var newer := SortedNewer(tweets, ParseInt(cursor.value).value);
            && r.newer == newer
            && r.write == if newer == [] then None else Some(Newest(newer))
  {
  }

  /**
   The tweets a check sends are exactly the fetched tweets whose id exceeds
   the cursor `c`, counted with multiplicity, in ascending id order.
   */
  lemma SortedNewerIsNewer(tweets: seq<Tweet>, c: nat)
    ensures multiset(SortedNewer(tweets, c)) == multiset(Newer(tweets, KeyOf, c))
    ensures SortedBy(SortedNewer(tweets, c), KeyOf)
  {
    var sorted := SortBy(tweets, KeyOf);
    SortPerm(tweets, KeyOf);
    NewerPermutation(sorted, tweets, KeyOf, c);
    NewerSorted(sorted, KeyOf, c);
  }

  /** After sorting and filtering, the last element has the largest key of all, above `c`. */
  lemma NewerLastIsMax<T>(ts: seq<T>, key: T -> nat, c: nat)
    requires Newer(SortBy(ts, key), key, c) != []
    ensures var newer := Newer(SortBy(ts, key), key, c);
            && newer[|newer| - 1] in ts
            && key(newer[|newer| - 1]) > c
            && forall i :: 0 <= i < |ts| ==> key(ts[i]) <= key(newer[|newer| - 1])
  {
    var sorted := SortBy(ts, key);
    SortPerm(ts, key);
    var newer := Newer(sorted, key, c);
    NewerSorted(sorted, key, c);
    var last := newer[|newer| - 1];
    assert last in multiset(sorted);
    forall i | 0 <= i < |ts|
      ensures key(ts[i]) <= key(last)
    {
      if key(ts[i]) > c {
        NewerKeepsSorted(ts, sorted, key, c, ts[i]);
        LastIsMax(newer, key, ts[i]);
      }
    }
  }

  /** A tweet of the batch above `c` survives sorting and filtering. */
  lemma NewerKeepsSorted<T>(ts: seq<T>, sorted: seq<T>, key: T -> nat, c: nat, x: T)
    requires multiset(sorted) == multiset(ts) && x in ts && key(x) > c
    ensures x in Newer(sorted, key, c)
  {
    assert x in multiset(sorted);
    var k :| 0 <= k < |sorted| && sorted[k] == x;
  }

  /** The newest of the sent tweets carries the largest id fetched, and it exceeds `c`. */
  lemma SortedNewerLastIsMax(tweets: seq<Tweet>, c: nat)
    requires AllKeyed(tweets) && SortedNewer(tweets, c) != []
    ensures var newer := SortedNewer(tweets, c);
            && Keyed(newer[|newer| - 1])
            && Key(newer[|newer| - 1]) > c
            && Bounds(tweets, Key(newer[|newer| - 1]))
  {
    NewerLastIsMax(tweets, KeyOf, c);
    var newer := SortedNewer(tweets, c);
    var k :| 0 <= k < |tweets| && tweets[k] == newer[|newer| - 1];
    assert Keyed(tweets[k]);
  }

  /** What a check against a readable cursor `c` sends and writes, in terms of the fetched tweets. */
  lemma SortedNewerFacts(tweets: seq<Tweet>, c: nat)
    requires AllKeyed(tweets)
    ensures var newer := SortedNewer(tweets, c);
            && multiset(newer) == multiset(Newer(tweets, KeyOf, c))
            && SortedBy(newer, KeyOf)
            && (newer != [] ==> && Keyed(newer[|newer| - 1])
                                && ParseInt(Newest(newer)).Some?
                                && ParseInt(Newest(newer)).value > c
                                && Bounds(tweets, ParseInt(Newest(newer)).value))
  {
    SortedNewerIsNewer(tweets, c);
    if SortedNewer(tweets, c) != [] {
      SortedNewerLastIsMax(tweets, c);
    }
  }

  /**
   After a check against cursor `c`: the tweets to send are exactly the
   fetched tweets whose id exceeds `c` (as a multiset), in ascending id
   order; a cursor is written exactly when there was one, and it is the
   largest fetched id, which exceeds `c`.
   */
  lemma CheckedSendsNewer(cursor: Option<string>, user: Option<TwitterClient.User>, tweets: seq<Tweet>, channelFound: bool)
    requires Checks(cursor, user, tweets, channelFound)
    ensures var r := CheckAccount(cursor, user, tweets, channelFound);
            var c := ParseInt(cursor.value).value;
            && multiset(r.newer) == multiset(Newer(tweets, KeyOf, c))
            && SortedBy(r.newer, KeyOf)
            && (r.write.None? <==> r.newer == [])
            && (r.write.Some? ==> && r.write == r.newer[|r.newer| - 1].id
                                  && ParseInt(r.write.value).Some?
                                  && ParseInt(r.write.value).value > c
                                  && Bounds(tweets, ParseInt(r.write.value).value))
  {
    CheckedShape(cursor, user, tweets, channelFound);
    SortedNewerFacts(tweets, ParseInt(cursor.value).value);
    CheckedWritesLast(cursor, user, tweets, channelFound);
  }

  /** The cursor a check writes is the id of the last tweet it sends. */
  lemma CheckedWritesLast(cursor: Option<string>, user: Option<TwitterClient.User>, tweets: seq<Tweet>, channelFound: bool)
    requires Checks(cursor, user, tweets, channelFound)
    ensures var r := CheckAccount(cursor, user, tweets, channelFound);
            r.Checked? && r.write.Some? ==> r.newer != [] && r.write == r.newer[|r.newer| - 1].id
  {
    CheckedShape(cursor, user, tweets, channelFound);
    var newer := SortedNewer(tweets, ParseInt(cursor.value).value);
    if newer != [] {
      SortedNewerLastIsMax(tweets, ParseInt(cursor.value).value);
      assert newer[|newer| - 1].id == Some(Newest(newer));
    }
  }

  /** No fetched tweet is newer than a bound on all their ids. */
  lemma NothingAboveBound(tweets: seq<Tweet>, m: nat)
    requires Bounds(tweets, m)
    ensures SortedNewer(tweets, m) == []
  {
    var sorted := SortBy(tweets, KeyOf);
    SortPerm(tweets, KeyOf);
    forall i | 0 <= i < |sorted|
      ensures KeyOf(sorted[i]) <= m
    {
      assert sorted[i] in multiset(tweets);
    }
    NoneNewer(sorted, KeyOf, m);
  }

  /** Nothing is newer than a bound on every key. */
  lemma {:induction false} NoneNewer<T>(ts: seq<T>, key: T -> nat, c: nat)
    requires forall i :: 0 <= i < |ts| ==> key(ts[i]) <= c
    ensures Newer(ts, key, c) == []
  {
    if ts != [] {
      NoneNewer(ts[1..], key, c);
    }
  }

  /** Polling again with the cursor just written, and the same fetch, sends nothing and writes nothing. */
  lemma NothingNewTwice(cursor: Option<string>, user: Option<TwitterClient.User>, tweets: seq<Tweet>, channelFound: bool, w: string)
    requires var r := CheckAccount(cursor, user, tweets, channelFound);
             r == FirstSync(w) || (r.Checked? && r.write == Some(w))
    ensures CheckAccount(Some(w), user, tweets, channelFound) == Checked([], [], None)
  {
    if CheckAccount(cursor, user, tweets, channelFound).FirstSync? {
      FirstSyncRecordsNewest(cursor, user, tweets, channelFound);
    } else {
      CheckedSendsNewer(cursor, user, tweets, channelFound);
    }
    NothingAboveBound(tweets, ParseInt(w).value);
    assert !Falsy(Some(w));
  }

  /** No two elements share a key. */
  predicate DistinctBy<T>(s: seq<T>, key: T -> nat) {
    forall i, j :: 0 <= i < j < |s| ==> key(s[i]) != key(s[j])
  }

  lemma {:induction false} InsertDistinct<T>(t: T, s: seq<T>, key: T -> nat)
    requires SortedBy(s, key) && DistinctBy(s, key)
    requires forall i :: 0 <= i < |s| ==> key(s[i]) != key(t)
    ensures DistinctBy(Insert(t, s, key), key)
  {
    if s != [] && key(t) > key(s[0]) {
      assert DistinctBy(s[1..], key) by {
        forall i, j | 0 <= i < j < |s[1..]|
          ensures key(s[1..][i]) != key(s[1..][j])
        {
          assert s[1..][i] == s[i + 1] && s[1..][j] == s[j + 1];
        }
      }
      InsertDistinct(t, s[1..], key);
      var rest := Insert(t, s[1..], key);
      forall i | 0 <= i < |rest|
        ensures key(s[0]) != key(rest[i])
      {
        if rest[i] != t {
          var k :| 0 <= k < |s[1..]| && s[1..][k] == rest[i];
          assert s[k + 1] == rest[i];
        }
      }
      DistinctCons(s[0], rest, key);
    } else {
      DistinctCons(t, s, key);
    }
  }

  lemma DistinctCons<T>(x: T, rest: seq<T>, key: T -> nat)
    requires DistinctBy(rest, key)
    requires forall i :: 0 <= i < |rest| ==> key(x) != key(rest[i])
    ensures DistinctBy([x] + rest, key)
  {
    var r := [x] + rest;
    forall i, j | 0 <= i < j < |r|
      ensures key(r[i]) != key(r[j])
    {
      assert r[j] == rest[j - 1];
      if i > 0 {
        assert r[i] == rest[i - 1];
      }
    }
  }

  /** Sorting keeps keys pairwise distinct. */
  lemma {:induction false} SortDistinct<T>(s: seq<T>, key: T -> nat)
    requires DistinctBy(s, key)
    ensures DistinctBy(SortBy(s, key), key)
  {
    if s != [] {
      var rest := SortBy(s[1..], key);
      SortPerm(s[1..], key);
      SortDistinct(s[1..], key);
      forall i | 0 <= i < |rest|
        ensures key(rest[i]) != key(s[0])
      {
        assert rest[i] in multiset(s[1..]);
        var k :| 0 <= k < |s[1..]| && s[1..][k] == rest[i];
        assert s[k + 1] == rest[i];
      }
      InsertDistinct(s[0], rest, key);
    }
  }

  /** Filtering keeps keys pairwise distinct. */
  lemma {:induction false} NewerDistinct<T>(s: seq<T>, key: T -> nat, c: nat)
    requires DistinctBy(s, key)
    ensures DistinctBy(Newer(s, key, c), key)
  {
    if s != [] {
      var rest := Newer(s[1..], key, c);
      NewerDistinct(s[1..], key, c);
      if key(s[0]) > c {
        forall i | 0 <= i < |rest|
          ensures key(rest[i]) != key(s[0])
        {
          var k :| 0 <= k < |s[1..]| && s[1..][k] == rest[i];
          assert s[k + 1] == rest[i];
        }
        DistinctCons(s[0], rest, key);
      }
    }
  }

  /** With pairwise distinct ids, tweets go out in strictly ascending id order. */
  lemma StrictlyAscending(cursor: Option<string>, user: Option<TwitterClient.User>, tweets: seq<Tweet>, channelFound: bool)
    requires Checks(cursor, user, tweets, channelFound)
    requires DistinctBy(tweets, KeyOf)
    ensures var newer := CheckAccount(cursor, user, tweets, channelFound).newer;
            forall i, j :: 0 <= i < j < |newer| ==> KeyOf(newer[i]) < KeyOf(newer[j])
  {
    CheckedShape(cursor, user, tweets, channelFound);
    var c := ParseInt(cursor.value).value;
    SortedNewerIsNewer(tweets, c);
    SortDistinct(tweets, KeyOf);
    NewerDistinct(SortBy(tweets, KeyOf), KeyOf, c);
  }

  /** A text-only tweet with the given id, for the worked example below. */
  function Plain(id: string): Tweet {
    TwitterClient.Tweet(Some(id), "", 0, TwitterClient.NoMetrics, false, None)
  }

  /** When every guard passes, the row is checked against its cursor. */
  lemma CheckedWhen(cursor: string, user: TwitterClient.User, tweets: seq<Tweet>, c: nat)
    requires tweets != [] && AllKeyed(tweets) && ParseInt(cursor) == Some(c)
    ensures var r := CheckAccount(Some(cursor), Some(user), tweets, true);
            && r.Checked?
            && r.newer == SortedNewer(tweets, c)
            && r.cards == Cards(r.newer, user)
  {
  }

  /**
   Worked example: cursor 200 and fetched ids 198, 205, 201 send 201 then
   205, build a card for each, and move the cursor to 205.
   */
  lemma CursorExample(user: TwitterClient.User)
    ensures var r := CheckAccount(Some("200"), Some(user), [Plain("198"), Plain("205"), Plain("201")], true);
            && r.Checked?
            && r.newer == [Plain("201"), Plain("205")]
            && r.write == Some("205")
            && |r.cards| == 2
  {
    var tweets := [Plain("198"), Plain("205"), Plain("201")];
    ExampleKeys();
    assert AllKeyed(tweets);
    CheckedWhen("200", user, tweets, 200);
    ExampleNewer();
    CheckedShape(Some("200"), Some(user), tweets, true);
    ExampleCards(user);
  }

  lemma ExampleCards(user: TwitterClient.User)
    ensures |Cards([Plain("201"), Plain("205")], user)| == 2
  {
  }

  lemma ExampleNewer()
    ensures SortedNewer([Plain("198"), Plain("205"), Plain("201")], 200) == [Plain("201"), Plain("205")]
  {
    ExampleSort();
    ExampleFilter();
  }

  lemma ExampleFilter()
    ensures Newer([Plain("198"), Plain("201"), Plain("205")], KeyOf, 200) == [Plain("201"), Plain("205")]
  {
    var a, b, c := Plain("198"), Plain("205"), Plain("201");
    ExampleKeys();
    assert [a, c, b][1..] == [c, b];
    assert [c, b][1..] == [b];
    assert [b][1..] == [];
  }

  lemma ExampleKeys()
    ensures ParseInt("200") == Some(200)
    ensures Keyed(Plain("198")) && Keyed(Plain("205")) && Keyed(Plain("201"))
    ensures KeyOf(Plain("198")) == 198 && KeyOf(Plain("205")) == 205 && KeyOf(Plain("201")) == 201
  {
    ThreeDigits('2', '0', '0');
    ThreeDigits('1', '9', '8');
    ThreeDigits('2', '0', '5');
    ThreeDigits('2', '0', '1');
  }

  lemma ExampleSort()
    ensures SortBy([Plain("198"), Plain("205"), Plain("201")], KeyOf) == [Plain("198"), Plain("201"), Plain("205")]
  {
    ExampleKeys();
    SortThree(Plain("198"), Plain("205"), Plain("201"), KeyOf);
  }

  /** Sorting three elements whose keys are in the order first, third, second. */
  lemma SortThree<T>(a: T, b: T, c: T, key: T -> nat)
    requires key(a) < key(c) < key(b)
    ensures SortBy([a, b, c], key) == [a, c, b]
  {
    assert [a, b, c][1..] == [b, c];
    assert [b, c][1..] == [c];
    assert SortBy([c], key) == [c];
    assert SortBy([b, c], key) == Insert(b, [c], key) == [c, b];
    assert Insert(a, [c, b], key) == [a, c, b];
  }

  lemma ThreeDigits(x: char, y: char, z: char)
    requires IsDigit(x) && IsDigit(y) && IsDigit(z)
    ensures ParseInt([x, y, z]) == Some(DigitValue(x) * 100 + DigitValue(y) * 10 + DigitValue(z))
  {
    assert [x, y, z][..2] == [x, y];
    assert [x, y][..1] == [x];
    assert [x][..0] == [];
    assert DigitsValue([x]) == DigitValue(x);
    assert DigitsValue([x, y]) == DigitValue(x) * 10 + DigitValue(y);
    assert DigitsValue([x, y, z]) == DigitsValue([x, y]) * 10 + DigitValue(z);
  }

  /** What the loop obtains for one row: the profile fetch, the timeline fetch, and the channel lookup. */
  datatype Fetch = Fetch(profile: Option<TwitterClient.Feed>, timeline: Option<TwitterClient.Feed>, channelFound: bool)

  /** One row's turn: fetch the user by handle, fetch the tweets, check against the row's cursor. */
  function Poll(a: Database.Account, f: Fetch, parseDate: TwitterClient.DateParser): Outcome {
    CheckAccount(
      a.lastTweetId,
      TwitterClient.GetUserByUsername(a.handle, f.profile),
      TwitterClient.GetRecentTweets(f.timeline, parseDate),
      f.channelFound)
  }

  /** The cursor a turn writes, if any. */
  function Written(o: Outcome): (w: Option<string>)
    ensures w.Some? <==> o.FirstSync? || (o.Checked? && o.write.Some?)
  {
    match o
    case FirstSync(newest) => Some(newest)
    case Checked(_, _, write) => write
    case Skipped(_) => None
  }

  /**
   A written cursor never moves back: it replaces an empty cursor or exceeds
   the old one, and no fetched tweet is newer than it.
   */
  lemma CursorAdvances(cursor: Option<string>, user: Option<TwitterClient.User>, tweets: seq<Tweet>, channelFound: bool)
    requires Written(CheckAccount(cursor, user, tweets, channelFound)).Some?
    ensures var w := Written(CheckAccount(cursor, user, tweets, channelFound)).value;
            && ParseInt(w).Some?
            && (Falsy(cursor) || (ParseInt(cursor.value).Some? && ParseInt(w).value > ParseInt(cursor.value).value))
            && Bounds(tweets, ParseInt(w).value)
  {
    var r := CheckAccount(cursor, user, tweets, channelFound);
    if r.FirstSync? {
      FirstSyncRecordsNewest(cursor, user, tweets, channelFound);
    } else {
      CheckedSendsNewer(cursor, user, tweets, channelFound);
    }
  }

  function RowKey(a: Database.Account): Database.Key {
    (a.handle, a.channel)
  }

  /** Store the cursor a turn wrote. */
  function Record(db: Database.Db, a: Database.Account, o: Outcome): Database.Db {
    match Written(o)
    case None => db
    case Some(w) => Database.UpdateLastTweetId(db, a.handle, a.channel, Some(w))
  }

  /**
   Store, row by row in order, the cursors the turns wrote. Every turn reads
   the cursor from the list taken at the start of the pass, so the turns do
   not depend on the stores before them.
   */
  function RecordAll(db: Database.Db, accounts: seq<Database.Account>, outcomes: seq<Outcome>): (r: Database.Db)
    requires |outcomes| == |accounts|
    ensures r.rows.Keys == db.rows.Keys && r.nextId == db.nextId
    ensures forall k :: k in db.rows ==> r.rows[k].id == db.rows[k].id
    ensures forall k :: k in db.rows && (forall i :: 0 <= i < |accounts| ==> RowKey(accounts[i]) != k) ==> r.rows[k] == db.rows[k]
    ensures Database.Valid(db) ==> Database.Valid(r)
    decreases |accounts|
  {
    if accounts == [] then
      db
    else
      assert forall i :: 1 <= i < |accounts| ==> accounts[i] == accounts[1..][i - 1];
      var next := Record(db, accounts[0], outcomes[0]);
      assert Database.SameExcept(db.rows, next.rows, RowKey(accounts[0]));
      RecordAll(next, accounts[1..], outcomes[1..])
  }

  /** The turns of one pass, one per row read at its start. */
  function Polls(accounts: seq<Database.Account>, fetches: seq<Fetch>, parseDate: TwitterClient.DateParser): (r: seq<Outcome>)
    requires |fetches| == |accounts|
    ensures |r| == |accounts|
  {
    seq(|accounts|, i requires 0 <= i < |accounts| => Poll(accounts[i], fetches[i], parseDate))
  }

  /**
   One pass of `check_tweets` over the rows read at its start, in order:
   every row gets its turn, only cursors change, and a row not in the list
   keeps its cursor.
   */
  function Cycle(db: Database.Db, accounts: seq<Database.Account>, fetches: seq<Fetch>, parseDate: TwitterClient.DateParser): (r: (Database.Db, seq<Outcome>))
    requires |fetches| == |accounts|
    ensures |r.1| == |accounts|
    ensures forall i :: 0 <= i < |accounts| ==> r.1[i] == Poll(accounts[i], fetches[i], parseDate)
    ensures r.0.rows.Keys == db.rows.Keys && r.0.nextId == db.nextId
    ensures forall k :: k in db.rows ==> r.0.rows[k].id == db.rows[k].id
    ensures forall k :: k in db.rows && (forall i :: 0 <= i < |accounts| ==> RowKey(accounts[i]) != k) ==> r.0.rows[k] == db.rows[k]
    ensures Database.Valid(db) ==> Database.Valid(r.0)
  {
    var outcomes := Polls(accounts, fetches, parseDate);
    (RecordAll(db, accounts, outcomes), outcomes)
  }

  /** No two rows in the list share a (handle, channel). */
  predicate DistinctRows(accounts: seq<Database.Account>) {
    forall i, j :: 0 <= i < j < |accounts| ==> RowKey(accounts[i]) != RowKey(accounts[j])
  }

  /** After storing the turns of distinct rows, each row's cursor is the one its turn wrote, or the old one. */
  lemma {:induction false} RecordAllCursor(db: Database.Db, accounts: seq<Database.Account>, outcomes: seq<Outcome>, i: nat)
    requires |outcomes| == |accounts| && DistinctRows(accounts)
    requires i < |accounts| && RowKey(accounts[i]) in db.rows
    ensures var k := RowKey(accounts[i]);
            RecordAll(db, accounts, outcomes).rows[k].lastTweetId
              == if Written(outcomes[i]).Some? then Written(outcomes[i]) else db.rows[k].lastTweetId
    decreases |accounts|
  {
    var db' := Record(db, accounts[0], outcomes[0]);
    var k := RowKey(accounts[i]);
    if i == 0 {
      forall j | 0 <= j < |accounts[1..]|
        ensures RowKey(accounts[1..][j]) != k
      {
        assert accounts[1..][j] == accounts[j + 1];
      }
    } else {
      assert accounts[1..][i - 1] == accounts[i];
      assert outcomes[1..][i - 1] == outcomes[i];
      assert RowKey(accounts[0]) != k;
      forall j, l | 0 <= j < l < |accounts[1..]|
        ensures RowKey(accounts[1..][j]) != RowKey(accounts[1..][l])
      {
        assert accounts[1..][j] == accounts[j + 1] && accounts[1..][l] == accounts[l + 1];
      }
      RecordAllCursor(db', accounts[1..], outcomes[1..], i - 1);
    }
  }

  /** `next` is `prev`, or a numeric cursor that replaces an empty one or exceeds it. */
  predicate NotBehind(prev: Option<string>, next: Option<string>) {
    || next == prev
    || (&& next.Some? && ParseInt(next.value).Some?
        && (Falsy(prev) || (ParseInt(prev.value).Some? && ParseInt(next.value).value > ParseInt(prev.value).value)))
  }

  /**
   Over a pass on distinct rows read from the table, no cursor moves back,
   so no tweet at or below a stored cursor is ever sent again.
   */
  lemma CycleNeverRewinds(db: Database.Db, accounts: seq<Database.Account>, fetches: seq<Fetch>, parseDate: TwitterClient.DateParser, i: nat)
    requires |fetches| == |accounts| && DistinctRows(accounts)
    requires i < |accounts| && accounts[i] in Database.GetTrackedAccounts(db)
    ensures RowKey(accounts[i]) in Cycle(db, accounts, fetches, parseDate).0.rows
    ensures NotBehind(db.rows[RowKey(accounts[i])].lastTweetId, Cycle(db, accounts, fetches, parseDate).0.rows[RowKey(accounts[i])].lastTweetId)
  {
    var a := accounts[i];
    var outcomes := Polls(accounts, fetches, parseDate);
    RecordAllCursor(db, accounts, outcomes, i);
    var user := TwitterClient.GetUserByUsername(a.handle, fetches[i].profile);
    var tweets := TwitterClient.GetRecentTweets(fetches[i].timeline, parseDate);
    assert outcomes[i] == CheckAccount(a.lastTweetId, user, tweets, fetches[i].channelFound);
    if Written(outcomes[i]).Some? {
      CursorAdvances(a.lastTweetId, user, tweets, fetches[i].channelFound);
    }
  }

  /** Tweets read from a feed never hold an empty media list, so every newer tweet gets its card. */
  lemma PollCardsEveryNewer(a: Database.Account, f: Fetch, parseDate: TwitterClient.DateParser)
    requires Poll(a, f, parseDate).Checked?
    ensures var r := Poll(a, f, parseDate);
            && |r.cards| == |r.newer|
            && forall n :: 0 <= n < |r.newer| ==>
                 Embed.CreateTweetEmbed(r.newer[n], TwitterClient.GetUserByUsername(a.handle, f.profile).value) == Some(r.cards[n])
  {
    var user := TwitterClient.GetUserByUsername(a.handle, f.profile);
    var tweets := TwitterClient.GetRecentTweets(f.timeline, parseDate);
    var r := CheckAccount(a.lastTweetId, user, tweets, f.channelFound);
    CheckedShape(a.lastTweetId, user, tweets, f.channelFound);
    var c := ParseInt(a.lastTweetId.value).value;
    SortedNewerIsNewer(tweets, c);
    forall n | 0 <= n < |r.newer|
      ensures r.newer[n].attachments != Some([])
    {
      assert r.newer[n] in multiset(Newer(tweets, KeyOf, c));
      TwitterClient.RecentTweetsShape(f.timeline, parseDate, r.newer[n]);
    }
  }
}
