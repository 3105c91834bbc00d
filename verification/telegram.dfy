/**
 `TelegramBot`: the `/track`, `/untrack` and `/list` commands of the
 Telegram bot over its own `tracked_accounts` table of (chat, username)
 pairs. A handle is normalised with `strip('@')` and `lower()`.
 */
module TelegramBot {
  import opened Text
  import Seqs

  datatype Row = Row(chat: int, username: string)

  datatype Reply =
    | MissingUsername
    | NowTracking(username: string)
    | AlreadyTracking(username: string)
    | StoppedTracking(username: string)
    | NotTracking(username: string)
    | NothingTracked
    | TrackedList(usernames: seq<string>)

  predicate Distinct<T(==)>(s: seq<T>) {
    forall i, j :: 0 <= i < j < |s| ==> s[i] != s[j]
  }

  /** `s[a..b]` is `s` with its leading and trailing runs of `c` removed. */
  predicate StrippedAt(s: string, a: nat, b: nat, c: char) {
    && a <= b <= |s|
    && (forall j :: 0 <= j < a ==> s[j] == c)
    && (forall j :: b <= j < |s| ==> s[j] == c)
    && (a < b ==> s[a] != c && s[b - 1] != c)
  }

  /** `context.args[0].strip('@').lower()`. */
  function Normalise(arg: string): (u: string)
    ensures u == [] || (u[0] != '@' && u[|u| - 1] != '@')
    ensures forall i :: 0 <= i < |u| ==> !('A' <= u[i] <= 'Z')
  {
    LowerKeepsEnds(StripChar(arg, '@'), '@');
    Lower(StripChar(arg, '@'))
  }

  /** The username is the argument minus its runs of '@' at both ends, lower-cased. */
  lemma NormaliseFrame(arg: string)
    ensures exists a: nat, b: nat :: StrippedAt(arg, a, b, '@') && Normalise(arg) == Lower(arg[a..b])
  {
    StripFrame(arg, '@');
  }

  /** What `strip(c)` keeps is the slice between the two runs of `c`. */
  lemma StripFrame(s: string, c: char)
    ensures exists a: nat, b: nat :: StrippedAt(s, a, b, c) && StripChar(s, c) == s[a..b]
  {
    var t := StripChar(s, c);
    var a: nat :| CharFramed(s, a, t, c);
    FramedStripped(s, a, t, c);
  }

  /** A slice framed by runs of `c`, with no `c` at its ends, lies between those runs. */
  lemma FramedStripped(s: string, a: nat, t: string, c: char)
    requires CharFramed(s, a, t, c)
    requires t == [] || (t[0] != c && t[|t| - 1] != c)
    ensures StrippedAt(s, a, a + |t|, c) && t == s[a..a + |t|]
  {
    var b := a + |t|;
    assert a < b ==> s[a] == t[0] && s[b - 1] == t[|t| - 1];
  }

  /** A name typed between any runs of '@' is read back lower-cased. */
  lemma NormaliseDecorated(p: string, v: string, q: string)
    requires forall j :: 0 <= j < |p| ==> p[j] == '@'
    requires forall j :: 0 <= j < |q| ==> q[j] == '@'
    requires v == [] || (v[0] != '@' && v[|v| - 1] != '@')
    ensures Normalise(p + v + q) == Lower(v)
  {
    StripCharOf(p, v, q, '@');
  }

  /** A normalised name normalises to itself. */
  lemma NormaliseIdempotent(arg: string)
    ensures Normalise(Normalise(arg)) == Normalise(arg)
  {
    NormalisedFixed(Normalise(arg));
  }

  /** A name with no '@' at either end and no capitals is its own normal form. */
  lemma NormalisedFixed(u: string)
    requires u == [] || (u[0] != '@' && u[|u| - 1] != '@')
    requires forall i :: 0 <= i < |u| ==> !('A' <= u[i] <= 'Z')
    ensures Normalise(u) == u
  {
    StripNoAt(u);
    LowerFixed(u);
  }

  /** A name with no '@' at either end loses nothing to `strip('@')`. */
  lemma StripNoAt(u: string)
    requires u == [] || (u[0] != '@' && u[|u| - 1] != '@')
    ensures StripChar(u, '@') == u
  {
    StripCharOf([], u, [], '@');
    assert [] + u + [] == u;
  }

  /** Text without capitals is unchanged by lower-casing. */
  lemma LowerFixed(u: string)
    requires forall i :: 0 <= i < |u| ==> !('A' <= u[i] <= 'Z')
    ensures Lower(u) == u
  {
    var l := Lower(u);
    assert forall i :: 0 <= i < |u| ==> l[i] == u[i];
  }

  /** Lower-casing keeps a non-letter `c` away from both ends and leaves no capitals. */
  lemma LowerKeepsEnds(t: string, c: char)
    requires !('A' <= c <= 'Z') && !('a' <= c <= 'z')
    requires t == [] || (t[0] != c && t[|t| - 1] != c)
    ensures var u := Lower(t); u == [] || (u[0] != c && u[|u| - 1] != c)
    ensures var u := Lower(t); forall i :: 0 <= i < |u| ==> !('A' <= u[i] <= 'Z')
  {
  }

  /** `/track`: insert the (chat, username) pair unless it is already there. */
  function Track(table: seq<Row>, chat: int, args: seq<string>): (r: (Reply, seq<Row>))
    ensures args == [] <==> r.0 == MissingUsername
    ensures args == [] ==> r.1 == table
    ensures args != [] ==>
              var row := Row(chat, Normalise(args[0]));
              && (r.0 == AlreadyTracking(row.username) <==> row in table)
              && (r.0 == NowTracking(row.username) <==> row !in table)
              && (forall x :: x in r.1 <==> x in table || x == row)
    ensures Distinct(table) ==> Distinct(r.1)
  {
    if args == [] then
      (MissingUsername, table)
    else
      var row := Row(chat, Normalise(args[0]));
      if row in table then (AlreadyTracking(row.username), table)
      else (NowTracking(row.username), table + [row])
  }

  /** The table without `x`. */
  function Without(table: seq<Row>, x: Row): (r: seq<Row>)
    ensures forall y :: y in r <==> y in table && y != x
    ensures Distinct(table) ==> Distinct(r)
  {
    if table == [] then
      []
    else
      var rest := Without(table[1..], x);
      assert forall y :: y in table <==> y == table[0] || y in table[1..];
      if table[0] == x then
        rest
      else
        assert Distinct(table) ==> table[0] !in table[1..];
        [table[0]] + rest
  }

  /** `/untrack`: delete the (chat, username) pair; the reply says whether it was there. */
  function Untrack(table: seq<Row>, chat: int, args: seq<string>): (r: (Reply, seq<Row>))
    ensures args == [] <==> r.0 == MissingUsername
    ensures args == [] ==> r.1 == table
    ensures args != [] ==>
              var row := Row(chat, Normalise(args[0]));
              && (r.0 == StoppedTracking(row.username) <==> row in table)
              && (r.0 == NotTracking(row.username) <==> row !in table)
              && (forall x :: x in r.1 <==> x in table && x != row)
    ensures Distinct(table) ==> Distinct(r.1)
  {
    if args == [] then
      (MissingUsername, table)
    else
      var row := Row(chat, Normalise(args[0]));
      if row in table then (StoppedTracking(row.username), Without(table, row))
      else (NotTracking(row.username), table)
  }

  /** `ORDER BY twitter_username` under code-point order: `a` is a prefix of `b` or smaller at the first difference. */
  predicate LexLe(a: string, b: string)
    decreases |a|
  {
    a == [] || (b != [] && (a[0] < b[0] || (a[0] == b[0] && LexLe(a[1..], b[1..]))))
  }

  lemma {:induction false} LexLeTotal(a: string, b: string)
    ensures LexLe(a, b) || LexLe(b, a)
    decreases |a|
  {
    if a != [] && b != [] && a[0] == b[0] {
      LexLeTotal(a[1..], b[1..]);
    }
  }

  lemma {:induction false} LexLeAntisymmetric(a: string, b: string)
    requires LexLe(a, b) && LexLe(b, a)
    ensures a == b
    decreases |a|
  {
    if a != [] && b != [] {
      LexLeAntisymmetric(a[1..], b[1..]);
      assert a == [a[0]] + a[1..];
      assert b == [b[0]] + b[1..];
    }
  }

  lemma {:induction false} LexLeTransitive(a: string, b: string, c: string)
    requires LexLe(a, b) && LexLe(b, c)
    ensures LexLe(a, c)
    decreases |a|
  {
    if a != [] && b != [] && c != [] && a[0] == b[0] && b[0] == c[0] {
      LexLeTransitive(a[1..], b[1..], c[1..]);
    }
  }

  predicate SortedLex(s: seq<string>) {
    forall i, j :: 0 <= i < j < |s| ==> LexLe(s[i], s[j])
  }

  /** Insert `x` before the first name not below it. */
  function InsertName(x: string, s: seq<string>): (r: seq<string>)
    requires SortedLex(s)
    ensures |r| == |s| + 1
    ensures forall i :: 0 <= i < |r| ==> r[i] == x || r[i] in s
    ensures SortedLex(r)
  {
    if s == [] || LexLe(x, s[0]) then
      forall j | 0 <= j < |s|
        ensures LexLe(x, s[j])
      {
        if j > 0 {
          LexLeTransitive(x, s[0], s[j]);
        }
      }
      LexCons(x, s);
      [x] + s
    else
      LexLeTotal(x, s[0]);
      var rest := InsertName(x, s[1..]);
      forall i | 0 <= i < |rest|
        ensures LexLe(s[0], rest[i])
      {
        if rest[i] != x {
          var k :| 0 <= k < |s[1..]| && s[1..][k] == rest[i];
          assert s[k + 1] == rest[i];
        }
      }
      LexCons(s[0], rest);
      assert forall i :: 1 <= i < |s| ==> s[i] in s;
      [s[0]] + rest
  }

  lemma LexCons(x: string, rest: seq<string>)
    requires SortedLex(rest)
    requires forall i :: 0 <= i < |rest| ==> LexLe(x, rest[i])
    ensures SortedLex([x] + rest)
  {
    var s := [x] + rest;
    forall i, j | 0 <= i < j < |s|
      ensures LexLe(s[i], s[j])
    {
      assert s[j] == rest[j - 1];
      if i > 0 {
        assert s[i] == rest[i - 1];
      }
    }
  }

  /** Inserting adds exactly one copy of `x`. */
  lemma {:induction false} InsertNamePerm(x: string, s: seq<string>)
    requires SortedLex(s)
    ensures multiset(InsertName(x, s)) == multiset(s) + multiset{x}
  {
    if s != [] && !LexLe(x, s[0]) {
      var rest := InsertName(x, s[1..]);
      InsertNamePerm(x, s[1..]);
      Seqs.PermCons(s, rest, x);
    }
  }

  /** `ORDER BY twitter_username`, as an insertion sort. */
  function SortNames(s: seq<string>): (r: seq<string>)
    ensures |r| == |s|
    ensures SortedLex(r)
  {
    if s == [] then
      []
    else
      InsertName(s[0], SortNames(s[1..]))
  }

  /** Sorting is a permutation. */
  lemma {:induction false} SortNamesPerm(s: seq<string>)
    ensures multiset(SortNames(s)) == multiset(s)
  {
    if s != [] {
      var rest := SortNames(s[1..]);
      SortNamesPerm(s[1..]);
      InsertNamePerm(s[0], rest);
      Seqs.PermStep(s, rest, SortNames(s));
    }
  }

  /** The usernames tracked in `chat`, in table order. */
  function NamesIn(table: seq<Row>, chat: int): (r: seq<string>)
    ensures forall u :: u in r <==> Row(chat, u) in table
    ensures Distinct(table) ==> Distinct(r)
  {
    if table == [] then
      []
    else
      var rest := NamesIn(table[1..], chat);
      assert forall y :: y in table <==> y == table[0] || y in table[1..];
      if table[0].chat == chat then
        assert Distinct(table) ==> table[0] !in table[1..];
        [table[0].username] + rest
      else
        rest
  }

  /**
   `/list`: the chat's usernames in ascending order, or a notice that there
   are none.
   */
  function ListTracked(table: seq<Row>, chat: int): (r: Reply)
    ensures r == NothingTracked <==> forall u :: Row(chat, u) !in table
    ensures r.TrackedList? ==> && (forall u :: u in r.usernames <==> Row(chat, u) in table)
                               && SortedLex(r.usernames)
  {
    var found := NamesIn(table, chat);
    var names := SortNames(found);
    SortNamesPerm(found);
    assert forall u :: u in names <==> u in found by {
      forall u
        ensures u in names <==> u in found
      {
        assert (u in names) == (u in multiset(names));
        assert (u in found) == (u in multiset(found));
      }
    }
    if names == [] then
      NothingTracked
    else
      assert names[0] in names;
      TrackedList(names)
  }

  lemma {:induction false} CountAtMostOne<T>(a: seq<T>, x: T)
    requires Distinct(a)
    ensures multiset(a)[x] <= 1
  {
    if a != [] {
      assert a == [a[0]] + a[1..];
      CountAtMostOne(a[1..], x);
      if x == a[0] {
        assert x !in a[1..];
      }
    }
  }

  lemma TwoOccurrences<T>(b: seq<T>, i: nat, j: nat)
    requires i < j < |b| && b[i] == b[j]
    ensures multiset(b)[b[i]] >= 2
  {
    assert b == b[..j] + b[j..];
    assert b[i] in b[..j];
    assert b[j] == b[j..][0];
  }

  /** Reordering keeps elements pairwise distinct. */
  lemma DistinctPermutation<T>(a: seq<T>, b: seq<T>)
    requires multiset(a) == multiset(b) && Distinct(a)
    ensures Distinct(b)
  {
    forall i, j | 0 <= i < j < |b|
      ensures b[i] != b[j]
    {
      CountAtMostOne(a, b[i]);
      if b[i] == b[j] {
        TwoOccurrences(b, i, j);
      }
    }
  }

  /** In a table without duplicate rows, `/list` names each username once, in strictly ascending order. */
  lemma ListStrictlyAscending(table: seq<Row>, chat: int)
    requires Distinct(table)
    requires ListTracked(table, chat).TrackedList?
    ensures var names := ListTracked(table, chat).usernames;
            forall i, j :: 0 <= i < j < |names| ==> LexLe(names[i], names[j]) && names[i] != names[j]
  {
    var found := NamesIn(table, chat);
    SortNamesPerm(found);
    DistinctPermutation(found, SortNames(found));
  }

  lemma {:induction false} WithoutAppend(table: seq<Row>, x: Row)
    requires x !in table
    ensures Without(table + [x], x) == table
  {
    if table == [] {
      assert [x][1..] == [];
    } else {
      assert (table + [x])[1..] == table[1..] + [x];
      WithoutAppend(table[1..], x);
    }
  }

  /** `/track u` then `/untrack u` in a chat that did not track `u` restores the table exactly. */
  lemma TrackThenUntrack(table: seq<Row>, chat: int, args: seq<string>)
    requires args != [] && Row(chat, Normalise(args[0])) !in table
    ensures Untrack(Track(table, chat, args).1, chat, args) == (StoppedTracking(Normalise(args[0])), table)
  {
    var row := Row(chat, Normalise(args[0]));
    WithoutAppend(table, row);
    assert row in table + [row];
  }

  /** A second `/track` of the same name reports it as tracked and changes nothing. */
  lemma TrackTwice(table: seq<Row>, chat: int, args: seq<string>)
    requires args != []
    ensures var t1 := Track(table, chat, args).1;
            Track(t1, chat, args) == (AlreadyTracking(Normalise(args[0])), t1)
  {
  }

  /** After `/track`, `/list` in the same chat shows the normalised name. */
  lemma TrackThenList(table: seq<Row>, chat: int, args: seq<string>)
    requires args != []
    ensures var r := ListTracked(Track(table, chat, args).1, chat);
            r.TrackedList? && Normalise(args[0]) in r.usernames
  {
  }

  /** Leading and trailing '@' and upper-case ASCII letters do not matter: "@Ab@" and "ab" name the same row. */
  lemma NormaliseExample()
    ensures Normalise("@Ab@") == Normalise("ab") == "ab"
  {
    assert Normalise("@" + "Ab" + "@") == Lower("Ab") by {
      NormaliseDecorated("@", "Ab", "@");
    }
    assert "@" + "Ab" + "@" == "@Ab@";
    assert Lower("Ab") == "ab";
    assert Normalise("ab") == "ab" by {
      NormalisedFixed("ab");
    }
  }

  /** A bare "@" normalises to the empty name, which `/track` accepts and stores. */
  lemma BareAtIsTracked(table: seq<Row>, chat: int)
    requires Row(chat, "") !in table
    ensures Track(table, chat, ["@"]) == (NowTracking(""), table + [Row(chat, "")])
  {
    assert LStripChar("@", '@') == "" by {
      assert "@"[1..] == "";
    }
  }
}
