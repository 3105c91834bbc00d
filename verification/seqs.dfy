/**
 `Seqs`: small facts about sequences and their multisets, kept apart so that
 each is proved in a context of its own.
 */
module Seqs {
  import opened Wrappers

  lemma HeadTail<T>(s: seq<T>)
    requires s != []
    ensures [s[0]] + s[1..] == s
  {
  }

  /** Dropping the head of a three-part concatenation drops the head of its first part. */
  lemma TailAppend3<T>(a: seq<T>, b: seq<T>, c: seq<T>)
    requires a != []
    ensures (a + b + c)[1..] == a[1..] + b + c
  {
  }

  /** An optional head in front of `rest` holds `c` exactly when the head is `c` or `rest` holds it. */
  lemma MemberOptHead<T>(cs: seq<T>, h: Option<T>, rest: seq<T>, c: T)
    requires cs == (if h.Some? then [h.value] else []) + rest
    ensures c in cs <==> h == Some(c) || c in rest
  {
  }

  /** Some element maps to `v` exactly when the head does or some element of the tail does. */
  lemma ExistsMapsHead<T, U>(ts: seq<T>, f: T -> U, v: U)
    requires ts != []
    ensures (exists i :: 0 <= i < |ts| && f(ts[i]) == v) <==> f(ts[0]) == v || exists i :: 0 <= i < |ts[1..]| && f(ts[1..][i]) == v
  {
    if exists i :: 0 <= i < |ts| && f(ts[i]) == v {
      var i :| 0 <= i < |ts| && f(ts[i]) == v;
      if i > 0 {
        assert f(ts[1..][i - 1]) == v;
      }
    }
    if exists i :: 0 <= i < |ts[1..]| && f(ts[1..][i]) == v {
      var i :| 0 <= i < |ts[1..]| && f(ts[1..][i]) == v;
      assert f(ts[i + 1]) == v;
    }
  }

  /** A sequence is the concatenation of its three slices around `[i..j]`. */
  lemma SliceAround<T>(s: seq<T>, i: nat, j: nat)
    requires i <= j <= |s|
    ensures s[..i] + s[i..j] + s[j..] == s
  {
  }

  /** Appending to a non-empty sequence keeps its head in front. */
  lemma ConsAppend<T>(a: seq<T>, b: seq<T>)
    requires a != []
    ensures a + b == [a[0]] + (a[1..] + b)
  {
  }

  /** If `whole` and `part` share a prefix `h` and the rest of `whole` is the rest of `part` plus `z`, then `whole` is `part` plus `z`. */
  lemma ConcatShift<T>(whole: seq<T>, part: seq<T>, h: seq<T>, x: seq<T>, y: seq<T>, z: seq<T>)
    requires whole == h + x && part == h + y && x == y + z
    ensures whole == part + z
  {
  }

  /** Splitting the second half of a concatenation splits the whole. */
  lemma ConcatSplit<T>(whole: seq<T>, p: seq<T>, x: seq<T>, y: seq<T>, z: seq<T>)
    requires whole == p + x && x == y + z
    ensures whole == p + y + z
  {
  }

  /** Putting the head back in front of a tail that gained `t` gives the whole plus `t`. */
  lemma PermCons<T>(s: seq<T>, rest: seq<T>, t: T)
    requires s != [] && multiset(rest) == multiset(s[1..]) + multiset{t}
    ensures multiset([s[0]] + rest) == multiset(s) + multiset{t}
  {
    assert s == [s[0]] + s[1..];
  }

  /** A permutation of the tail, with the head inserted, is a permutation of the whole. */
  lemma PermStep<T>(s: seq<T>, rest: seq<T>, r: seq<T>)
    requires s != [] && multiset(rest) == multiset(s[1..])
    requires multiset(r) == multiset(rest) + multiset{s[0]}
    ensures multiset(r) == multiset(s)
  {
    assert s == [s[0]] + s[1..];
  }
}
