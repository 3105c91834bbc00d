/**
 `Database`: the `tracked_accounts` table of the Discord bot. A row is keyed
 by (account handle, channel) and carries a serial id and the cursor
 `last_tweet_id` (the newest post id already relayed, kept as text).
 Postgres draws a fresh serial value for every `INSERT`, including one that
 ends in `ON CONFLICT ... DO UPDATE`, so `nextId` advances on every add.
 */
module Database {
  import opened Wrappers

  /** (twitter_handle, channel_id), the table's unique constraint. */
  type Key = (string, int)

  datatype Row = Row(id: nat, lastTweetId: Option<string>)

  /** One row as `get_tracked_accounts` returns it (the `created_at` column is not modelled). */
  datatype Account = Account(id: nat, handle: string, channel: int, lastTweetId: Option<string>)

  datatype Db = Db(rows: map<Key, Row>, nextId: nat)

  const EmptyDb: Db := Db(map[], 1)

  /** Every row id was drawn from the serial (which starts at 1) and no two rows share one. */
  ghost predicate Valid(db: Db) {
    && db.nextId >= 1
    && (forall k :: k in db.rows ==> 1 <= db.rows[k].id < db.nextId)
    && (forall k1, k2 :: k1 in db.rows && k2 in db.rows && k1 != k2 ==> db.rows[k1].id != db.rows[k2].id)
  }

  lemma EmptyValid()
    ensures Valid(EmptyDb)
  {
  }

  /** The rows other than `k` are the same in both tables. */
  ghost predicate SameExcept(a: map<Key, Row>, b: map<Key, Row>, k: Key) {
    forall k' :: k' != k ==> (k' in a <==> k' in b) && (k' in a ==> a[k'] == b[k'])
  }

  /**
   `add_twitter_account`: insert the row, or on a (handle, channel) conflict
   overwrite its cursor; `RETURNING id` always yields a row, so the id is
   never `None`. A conflicting row keeps its id; a new row takes the next
   serial value.
   */
  function AddTwitterAccount(db: Db, handle: string, channel: int, lastTweetId: Option<string>): (r: (Option<nat>, Db))
    ensures r.0.Some?
    ensures (handle, channel) in r.1.rows
    ensures r.1.rows[(handle, channel)] == Row(r.0.value, lastTweetId)
    ensures (handle, channel) in db.rows ==> r.0.value == db.rows[(handle, channel)].id
    ensures (handle, channel) !in db.rows ==> r.0.value == db.nextId
    ensures SameExcept(db.rows, r.1.rows, (handle, channel))
    ensures r.1.nextId == db.nextId + 1
    ensures Valid(db) ==> Valid(r.1)
  {
    var k := (handle, channel);
    var id := if k in db.rows then db.rows[k].id else db.nextId;
    (Some(id), Db(db.rows[k := Row(id, lastTweetId)], db.nextId + 1))
  }

  /** `remove_twitter_account`: delete the row; true exactly when there was one. */
  function RemoveTwitterAccount(db: Db, handle: string, channel: int): (r: (bool, Db))
    ensures r.0 <==> (handle, channel) in db.rows
    ensures (handle, channel) !in r.1.rows
    ensures SameExcept(db.rows, r.1.rows, (handle, channel))
    ensures r.1.nextId == db.nextId
    ensures Valid(db) ==> Valid(r.1)
  {
    var k := (handle, channel);
    (k in db.rows, Db(db.rows - {k}, db.nextId))
  }

  /** `update_last_tweet_id`: set the cursor of an existing row; no row, no change. */
  function UpdateLastTweetId(db: Db, handle: string, channel: int, tweetId: Option<string>): (r: Db)
    ensures r.rows.Keys == db.rows.Keys && r.nextId == db.nextId
    ensures forall k :: k in db.rows ==> r.rows[k].id == db.rows[k].id
    ensures (handle, channel) in db.rows ==> r.rows[(handle, channel)].lastTweetId == tweetId
    ensures SameExcept(db.rows, r.rows, (handle, channel))
    ensures (handle, channel) !in db.rows ==> r == db
    ensures Valid(db) ==> Valid(r)
  {
    var k := (handle, channel);
    if k in db.rows then Db(db.rows[k := Row(db.rows[k].id, tweetId)], db.nextId) else db
  }

  /** `get_tracked_accounts`: every row, in no particular order. */
  function GetTrackedAccounts(db: Db): (r: set<Account>)
    ensures forall a :: a in r ==>
              (a.handle, a.channel) in db.rows && db.rows[(a.handle, a.channel)] == Row(a.id, a.lastTweetId)
    ensures forall k :: k in db.rows ==> Account(db.rows[k].id, k.0, k.1, db.rows[k].lastTweetId) in r
  {
    set k | k in db.rows :: Account(db.rows[k].id, k.0, k.1, db.rows[k].lastTweetId)
  }

  /** `get_channel_accounts`: the handles tracked in one channel. */
  function GetChannelAccounts(db: Db, channel: int): (r: set<string>)
    ensures forall h :: h in r <==> (h, channel) in db.rows
  {
    set k | k in db.rows && k.1 == channel :: k.0
  }

  /** Adding a handle that was not tracked and removing it again restores the rows. */
  lemma AddThenRemove(db: Db, handle: string, channel: int, lastTweetId: Option<string>)
    requires (handle, channel) !in db.rows
    ensures var added := AddTwitterAccount(db, handle, channel, lastTweetId).1;
            var removed := RemoveTwitterAccount(added, handle, channel);
            removed.0 && removed.1.rows == db.rows
  {
    var added := AddTwitterAccount(db, handle, channel, lastTweetId).1;
    assert added.rows - {(handle, channel)} == db.rows;
  }

  /** After an add the handle is listed for its channel; after a remove it is not. */
  lemma ChannelListingFollowsCommands(db: Db, handle: string, channel: int, lastTweetId: Option<string>)
    ensures handle in GetChannelAccounts(AddTwitterAccount(db, handle, channel, lastTweetId).1, channel)
    ensures handle !in GetChannelAccounts(RemoveTwitterAccount(db, handle, channel).1, channel)
  {
  }

  /** Two rows of the listing with the same (handle, channel) are the same row. */
  lemma TrackedAccountsUniqueKey(db: Db, a: Account, b: Account)
    requires a in GetTrackedAccounts(db) && b in GetTrackedAccounts(db)
    requires a.handle == b.handle && a.channel == b.channel
    ensures a == b
  {
  }
}
