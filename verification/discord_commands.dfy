/**
 `DiscordCommands`: the `/track`, `/untrack` and `/list` slash commands of
 the Discord bot, as their effect on the table and the final reply. The
 provisional "working on it" message each command sends first is not
 modelled.
 */
module DiscordCommands {
  import opened Wrappers
  import opened Text
  import Database

  datatype Reply =
    | InvalidUsername
    | StartedTracking(handle: string)
    | AlreadyTracked(handle: string)
    | StoppedTracking(handle: string)
    | NotTracked(handle: string)
    | NoneTracked
    | TrackedList(handles: set<string>)

  /**
   `/track`: `username.strip().lstrip('@')`. The handle is the trimmed input
   minus its leading run of '@'; whitespace after that run is kept.
   */
  function TrackHandle(raw: string): (h: string)
    ensures var t := StripSpace(raw);
            && |h| <= |t| && h == t[|t| - |h|..]
            && forall j :: 0 <= j < |t| - |h| ==> t[j] == '@'
    ensures h == [] || (h[0] != '@' && !IsSpace(h[|h| - 1]))
    ensures StripSpace(raw) == [] ==> h == []
  {
    LStripChar(StripSpace(raw), '@')
  }

  /** A clean handle typed with surrounding whitespace and any number of leading '@' is read back exactly. */
  lemma TrackHandleDecorated(w1: string, p: string, v: string, w2: string)
    requires forall j :: 0 <= j < |w1| ==> IsSpace(w1[j])
    requires forall j :: 0 <= j < |w2| ==> IsSpace(w2[j])
    requires forall j :: 0 <= j < |p| ==> p[j] == '@'
    requires v == [] || (v[0] != '@' && !IsSpace(v[0]) && !IsSpace(v[|v| - 1]))
    ensures TrackHandle(w1 + p + v + w2) == v
  {
    var m := p + v;
    assert w1 + p + v + w2 == w1 + m + w2;
    StripSpaceOf(w1, m, w2);
    LStripCharOf(p, v, '@');
  }

  /** Whitespace between the '@' and the name survives: `"@ bob"` becomes `" bob"`. */
  lemma TrackHandleInnerSpace()
    ensures TrackHandle("@ bob") == " bob"
  {
    StripSpaceOf([], "@ bob", []);
    assert [] + "@ bob" + [] == "@ bob";
    LStripCharOf("@", " bob", '@');
    assert "@" + " bob" == "@ bob";
  }

  /**
   `/track` in a channel: an empty handle is refused and nothing changes;
   otherwise the row is added, or its cursor reset, with no cursor, and the
   reply depends on whether an id came back.
   */
  function Track(db: Database.Db, channel: int, raw: string): (r: (Reply, Database.Db))
    ensures TrackHandle(raw) == [] <==> r.0 == InvalidUsername
    ensures r.0 == InvalidUsername ==> r.1 == db
    ensures r.0 != InvalidUsername ==>
              && (TrackHandle(raw), channel) in r.1.rows
              && r.1.rows[(TrackHandle(raw), channel)].lastTweetId == None
              && Database.SameExcept(db.rows, r.1.rows, (TrackHandle(raw), channel))
    ensures Database.Valid(db) ==> Database.Valid(r.1)
  {
    var h := TrackHandle(raw);
    if h == [] then
      (InvalidUsername, db)
    else
      var (id, db') := Database.AddTwitterAccount(db, h, channel, None);
      (if id.Some? && id.value != 0 then StartedTracking(h) else AlreadyTracked(h), db')
  }

  /**
   The "already tracked" reply is unreachable: the upsert always returns the
   row id, and serial ids start at 1.
   */
  lemma TrackNeverAlreadyTracked(db: Database.Db, channel: int, raw: string)
    requires Database.Valid(db)
    ensures Track(db, channel, raw).0 == InvalidUsername || Track(db, channel, raw).0 == StartedTracking(TrackHandle(raw))
  {
  }

  /** Tracking an already tracked handle keeps its row id but forgets its cursor. */
  lemma RetrackResetsCursor(db: Database.Db, channel: int, raw: string)
    requires (TrackHandle(raw), channel) in db.rows && TrackHandle(raw) != []
    ensures var db' := Track(db, channel, raw).1;
            && db'.rows[(TrackHandle(raw), channel)].id == db.rows[(TrackHandle(raw), channel)].id
            && db'.rows[(TrackHandle(raw), channel)].lastTweetId == None
  {
  }

  /** `/untrack`: `username.lstrip('@')` only; surrounding whitespace is kept. */
  function UntrackHandle(raw: string): (h: string)
    ensures |h| <= |raw| && h == raw[|raw| - |h|..]
    ensures forall j :: 0 <= j < |raw| - |h| ==> raw[j] == '@'
    ensures h == [] || h[0] != '@'
  {
    LStripChar(raw, '@')
  }

  /** A handle typed after any number of '@' is read back exactly. */
  lemma UntrackHandleDecorated(p: string, v: string)
    requires forall j :: 0 <= j < |p| ==> p[j] == '@'
    requires v == [] || v[0] != '@'
    ensures UntrackHandle(p + v) == v
  {
    LStripCharOf(p, v, '@');
  }

  /** `/untrack` in a channel: delete the row; the reply says whether there was one. */
  function Untrack(db: Database.Db, channel: int, raw: string): (r: (Reply, Database.Db))
    ensures r.0 == StoppedTracking(UntrackHandle(raw)) <==> (UntrackHandle(raw), channel) in db.rows
    ensures r.0 == NotTracked(UntrackHandle(raw)) <==> (UntrackHandle(raw), channel) !in db.rows
    ensures (UntrackHandle(raw), channel) !in r.1.rows
    ensures Database.SameExcept(db.rows, r.1.rows, (UntrackHandle(raw), channel))
  {
    var h := UntrackHandle(raw);
    var (removed, db') := Database.RemoveTwitterAccount(db, h, channel);
    (if removed then StoppedTracking(h) else NotTracked(h), db')
  }

  /** `/list` in a channel: the handles tracked there, or a notice that there are none. */
  function ListTracked(db: Database.Db, channel: int): (r: Reply)
    ensures r == NoneTracked <==> forall h :: (h, channel) !in db.rows
    ensures r.TrackedList? ==> forall h :: h in r.handles <==> (h, channel) in db.rows
  {
    var hs := Database.GetChannelAccounts(db, channel);
    if hs == {} then NoneTracked
    else TrackedList(hs)
  }

  /**
   `/track name` followed by `/untrack name` (a plain handle, no '@', no
   surrounding whitespace) leaves the channel's rows as they were, when the
   handle was not tracked before.
   */
  lemma TrackThenUntrack(db: Database.Db, channel: int, name: string)
    requires name != [] && name[0] != '@' && !IsSpace(name[0]) && !IsSpace(name[|name| - 1])
    requires (name, channel) !in db.rows
    ensures var (r1, db1) := Track(db, channel, name);
            var (r2, db2) := Untrack(db1, channel, name);
            && r2 == StoppedTracking(name)
            && db2.rows == db.rows
  {
    assert LStripSpace(name) == name;
    assert RStripSpace(name) == name;
    assert TrackHandle(name) == name;
    assert UntrackHandle(name) == name;
    Database.AddThenRemove(db, name, channel, None);
  }

  /** A tracked handle is listed in its channel. */
  lemma TrackThenList(db: Database.Db, channel: int, raw: string)
    requires TrackHandle(raw) != []
    ensures var r := ListTracked(Track(db, channel, raw).1, channel);
            r.TrackedList? && TrackHandle(raw) in r.handles
  {
    var h := TrackHandle(raw);
    var db1 := Track(db, channel, raw).1;
    assert (h, channel) in db1.rows;
    var r := ListTracked(db1, channel);
    assert r != NoneTracked;
  }

  /**
   `/untrack` does not trim whitespace, unlike `/track`: `" " + name` does not
   remove the row that `/track " " + name` created for `name`, here `raw[1..]`.
   */
  lemma UntrackKeepsSpaces(db: Database.Db, channel: int, raw: string)
    requires SpacedInput(raw) && raw[0] == ' '
    requires (raw, channel) !in db.rows
    ensures var db1 := Track(db, channel, raw).1;
            var (r2, db2) := Untrack(db1, channel, raw);
            && (raw[1..], channel) in db1.rows
            && r2 == NotTracked(raw)
            && (raw[1..], channel) in db2.rows
  {
    assert TrackHandle(raw) == raw[1..] by {
      SpacedTrackHandle(raw);
    }
    assert UntrackHandle(raw) == raw by {
      assert [] + raw == raw;
      UntrackHandleDecorated([], raw);
    }
    assert |raw[1..]| < |raw|;
    TrackUntrackDiffer(db, channel, raw);
  }

  /** One leading space, then a name with no '@' in front and no whitespace at either end. */
  predicate SpacedInput(raw: string) {
    && |raw| > 1 && IsSpace(raw[0])
    && raw[1] != '@' && !IsSpace(raw[1]) && !IsSpace(raw[|raw| - 1])
  }

  /** `/track` of one leading space and a clean name reads the name. */
  lemma SpacedTrackHandle(raw: string)
    requires SpacedInput(raw)
    ensures TrackHandle(raw) == raw[1..]
  {
    assert [raw[0]] + [] + raw[1..] + [] == raw;
    TrackHandleDecorated([raw[0]], [], raw[1..], []);
  }

  /**
   When `/untrack` reads the input differently from `/track`, and finds no row
   under its reading, the tracked row survives the `/untrack`.
   */
  lemma TrackUntrackDiffer(db: Database.Db, channel: int, raw: string)
    requires TrackHandle(raw) != [] && UntrackHandle(raw) != TrackHandle(raw)
    requires (UntrackHandle(raw), channel) !in db.rows
    ensures var db1 := Track(db, channel, raw).1;
            var (r2, db2) := Untrack(db1, channel, raw);
            && (TrackHandle(raw), channel) in db1.rows
            && r2 == NotTracked(UntrackHandle(raw))
            && (TrackHandle(raw), channel) in db2.rows
  {
    var db1 := Track(db, channel, raw).1;
    assert (UntrackHandle(raw), channel) !in db1.rows;
  }
}
