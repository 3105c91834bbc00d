/**
 Character classes and small string operations shared by the scanners:
 whitespace as Python's `str.isspace` and the regex class `\s` see it,
 ASCII digits, decimal parsing and printing, and the `strip` family.
 */
module Text {
  import opened Wrappers

  /** CPython's whitespace set (`str.isspace`, `str.strip()` and `\s` on str patterns). */
  predicate IsSpace(c: char) {
    || c == ' '
    || ('\t' <= c <= '\r')
    || ('\U{1C}' <= c <= '\U{1F}')
    || c == '\U{85}' || c == '\U{A0}' || c == '\U{1680}'
    || ('\U{2000}' <= c <= '\U{200A}')
    || c == '\U{2028}' || c == '\U{2029}' || c == '\U{202F}' || c == '\U{205F}' || c == '\U{3000}'
  }

  predicate IsDigit(c: char) {
    '0' <= c <= '9'
  }

  predicate AllDigits(s: string) {
    forall i :: 0 <= i < |s| ==> IsDigit(s[i])
  }

  /** True when `p` occurs in `s` starting at index `i`. */
  predicate StartsAt(s: string, i: nat, p: string) {
    i + |p| <= |s| && s[i..i + |p|] == p
  }

  /** Python's `p in s` for strings. */
  predicate Contains(s: string, p: string) {
    exists i :: 0 <= i <= |s| && StartsAt(s, i, p)
  }

  /** Python's `s.startswith(p)`. */
  predicate StartsWith(s: string, p: string) {
    StartsAt(s, 0, p)
  }

  function DigitValue(c: char): nat
    requires IsDigit(c)
  {
    c as int - '0' as int
  }

  function DigitChar(d: nat): (c: char)
    requires d < 10
    ensures IsDigit(c) && DigitValue(c) == d
  {
    ('0' as int + d) as char
  }

  /** The number a string of decimal digits denotes (most significant first). */
  function DigitsValue(s: string): nat
    requires AllDigits(s)
  {
    if s == [] then 0 else DigitsValue(s[..|s| - 1]) * 10 + DigitValue(s[|s| - 1])
  }

  /**
   `int(s)` restricted to what the relay ever feeds it: a non-empty run of
   ASCII digits parses, anything else raises (here: `None`).
   */
  function ParseInt(s: string): (r: Option<nat>)
    ensures r.Some? <==> |s| > 0 && AllDigits(s)
  {
    if |s| > 0 && AllDigits(s) then Some(DigitsValue(s)) else None
  }

  /** `str(n)` for a natural number: shortest decimal spelling. */
  function NatToString(n: nat): (s: string)
    ensures |s| > 0 && AllDigits(s)
    ensures |s| > 1 ==> s[0] != '0'
  {
    if n < 10 then [DigitChar(n)] else NatToString(n / 10) + [DigitChar(n % 10)]
  }

  /** Printing and parsing are inverse: `int(str(n)) == n`. */
  lemma {:induction false} ParsePrinted(n: nat)
    ensures ParseInt(NatToString(n)) == Some(n)
  {
    var s := NatToString(n);
    if n >= 10 {
      ParsePrinted(n / 10);
      assert s[..|s| - 1] == NatToString(n / 10);
      assert DigitsValue(s) == DigitsValue(NatToString(n / 10)) * 10 + n % 10;
    }
  }

  /** Python's `s.lstrip()`: drop leading whitespace. */
  function LStripSpace(s: string): (r: string)
    ensures |r| <= |s| && r == s[|s| - |r|..]
    ensures forall i :: 0 <= i < |s| - |r| ==> IsSpace(s[i])
    ensures r == [] || !IsSpace(r[0])
  {
    if s != [] && IsSpace(s[0]) then LStripSpace(s[1..]) else s
  }

  /** Python's `s.rstrip()`: drop trailing whitespace. */
  function RStripSpace(s: string): (r: string)
    ensures |r| <= |s| && r == s[..|r|]
    ensures forall i :: |r| <= i < |s| ==> IsSpace(s[i])
    ensures r == [] || !IsSpace(r[|r| - 1])
  {
    if s != [] && IsSpace(s[|s| - 1]) then RStripSpace(s[..|s| - 1]) else s
  }

  /** `s` is `r` with only whitespace before index `a` and only whitespace after `r`. */
  predicate SpaceFramed(s: string, a: nat, r: string) {
    && a + |r| <= |s| && r == s[a..a + |r|]
    && (forall j :: 0 <= j < a ==> IsSpace(s[j]))
    && (forall j :: a + |r| <= j < |s| ==> IsSpace(s[j]))
  }

  /**
   Python's `s.strip()`: `s` is the result framed by a whitespace prefix and
   a whitespace suffix, and the result neither starts nor ends with whitespace.
   */
  function StripSpace(s: string): (r: string)
    ensures exists a :: SpaceFramed(s, a, r)
    ensures r == [] || (!IsSpace(r[0]) && !IsSpace(r[|r| - 1]))
  {
    var l := LStripSpace(s);
    var r := RStripSpace(l);
    SpaceFramedOf(s, l, r);
    r
  }

  /** A prefix of a suffix left after dropping leading whitespace, with only whitespace after it, is framed by whitespace. */
  lemma SpaceFramedOf(s: string, l: string, r: string)
    requires |l| <= |s| && l == s[|s| - |l|..] && forall i :: 0 <= i < |s| - |l| ==> IsSpace(s[i])
    requires l == [] || !IsSpace(l[0])
    requires |r| <= |l| && r == l[..|r|] && forall i :: |r| <= i < |l| ==> IsSpace(l[i])
    requires r == [] || !IsSpace(r[|r| - 1])
    ensures exists a :: SpaceFramed(s, a, r)
    ensures r == [] || (!IsSpace(r[0]) && !IsSpace(r[|r| - 1]))
  {
    var a := |s| - |l|;
    assert r == s[a..a + |r|];
    assert SpaceFramed(s, a, r);
    assert r != [] ==> r[0] == l[0];
  }

  /** Text that starts and ends with non-whitespace, framed by whitespace, is what `strip()` returns. */
  lemma StripSpaceOf(w1: string, m: string, w2: string)
    requires forall j :: 0 <= j < |w1| ==> IsSpace(w1[j])
    requires forall j :: 0 <= j < |w2| ==> IsSpace(w2[j])
    requires m == [] || (!IsSpace(m[0]) && !IsSpace(m[|m| - 1]))
    ensures StripSpace(w1 + m + w2) == m
  {
    if m == [] {
      var blank := w1 + w2;
      assert w1 + m + w2 == blank + [];
      LStripSpaceOf(blank, []);
    } else {
      var x := m + w2;
      assert w1 + m + w2 == w1 + x;
      LStripSpaceOf(w1, x);
      RStripSpaceOf(m, w2);
    }
  }

  /** Leading whitespace in front of text that starts with none is exactly what `lstrip()` removes. */
  lemma {:induction false} LStripSpaceOf(w: string, v: string)
    requires forall j :: 0 <= j < |w| ==> IsSpace(w[j])
    requires v == [] || !IsSpace(v[0])
    ensures LStripSpace(w + v) == v
  {
    if w == [] {
      assert w + v == v;
    } else {
      assert (w + v)[1..] == w[1..] + v;
      LStripSpaceOf(w[1..], v);
    }
  }

  /** Trailing whitespace after text that ends with none is exactly what `rstrip()` removes. */
  lemma {:induction false} RStripSpaceOf(v: string, w: string)
    requires forall j :: 0 <= j < |w| ==> IsSpace(w[j])
    requires v == [] || !IsSpace(v[|v| - 1])
    ensures RStripSpace(v + w) == v
  {
    if w == [] {
      assert v + w == v;
    } else {
      var w' := w[..|w| - 1];
      assert (v + w)[..|v + w| - 1] == v + w';
      RStripSpaceOf(v, w');
    }
  }

  /** Python's `s.lstrip(c)` for a single character `c`. */
  function LStripChar(s: string, c: char): (r: string)
    ensures |r| <= |s| && r == s[|s| - |r|..]
    ensures forall i :: 0 <= i < |s| - |r| ==> s[i] == c
    ensures r == [] || r[0] != c
  {
    if s != [] && s[0] == c then LStripChar(s[1..], c) else s
  }

  /** Python's `s.rstrip(c)` for a single character `c`. */
  function RStripChar(s: string, c: char): (r: string)
    ensures |r| <= |s| && r == s[..|r|]
    ensures forall i :: |r| <= i < |s| ==> s[i] == c
    ensures r == [] || r[|r| - 1] != c
  {
    if s != [] && s[|s| - 1] == c then RStripChar(s[..|s| - 1], c) else s
  }

  /** `s` is `r` with only `c` before index `a` and only `c` after `r`. */
  predicate CharFramed(s: string, a: nat, r: string, c: char) {
    && a + |r| <= |s| && r == s[a..a + |r|]
    && (forall j :: 0 <= j < a ==> s[j] == c)
    && (forall j :: a + |r| <= j < |s| ==> s[j] == c)
  }

  /**
   Python's `s.strip(c)` for a single character `c`: `s` is the result framed
   by runs of `c`, and the result neither starts nor ends with `c`.
   */
  function StripChar(s: string, c: char): (r: string)
    ensures exists a :: CharFramed(s, a, r, c)
    ensures r == [] || (r[0] != c && r[|r| - 1] != c)
  {
    var l := LStripChar(s, c);
    var r := RStripChar(l, c);
    CharFramedOf(s, l, r, c);
    r
  }

  /** A prefix of a suffix left after dropping leading `c`, with only `c` after it, is framed by runs of `c`. */
  lemma CharFramedOf(s: string, l: string, r: string, c: char)
    requires |l| <= |s| && l == s[|s| - |l|..] && forall i :: 0 <= i < |s| - |l| ==> s[i] == c
    requires l == [] || l[0] != c
    requires |r| <= |l| && r == l[..|r|] && forall i :: |r| <= i < |l| ==> l[i] == c
    requires r == [] || r[|r| - 1] != c
    ensures exists a :: CharFramed(s, a, r, c)
    ensures r == [] || (r[0] != c && r[|r| - 1] != c)
  {
    var a := |s| - |l|;
    assert r == s[a..a + |r|];
    assert CharFramed(s, a, r, c);
    assert r != [] ==> r[0] == l[0];
  }

  /** Text that neither starts nor ends with `c`, framed by runs of `c`, is what `strip(c)` returns. */
  lemma StripCharOf(p: string, m: string, q: string, c: char)
    requires forall j :: 0 <= j < |p| ==> p[j] == c
    requires forall j :: 0 <= j < |q| ==> q[j] == c
    requires m == [] || (m[0] != c && m[|m| - 1] != c)
    ensures StripChar(p + m + q, c) == m
  {
    if m == [] {
      var run := p + q;
      assert p + m + q == run + [];
      LStripCharOf(run, [], c);
    } else {
      var x := m + q;
      assert p + m + q == p + x;
      LStripCharOf(p, x, c);
      RStripCharOf(m, q, c);
    }
  }

  /** A run of `c` in front of text that does not start with `c` is exactly what `lstrip(c)` removes. */
  lemma {:induction false} LStripCharOf(w: string, v: string, c: char)
    requires forall j :: 0 <= j < |w| ==> w[j] == c
    requires v == [] || v[0] != c
    ensures LStripChar(w + v, c) == v
  {
    if w == [] {
      assert w + v == v;
    } else {
      assert (w + v)[1..] == w[1..] + v;
      LStripCharOf(w[1..], v, c);
    }
  }

  /** A run of `c` after text that does not end with `c` is exactly what `rstrip(c)` removes. */
  lemma {:induction false} RStripCharOf(v: string, w: string, c: char)
    requires forall j :: 0 <= j < |w| ==> w[j] == c
    requires v == [] || v[|v| - 1] != c
    ensures RStripChar(v + w, c) == v
  {
    if w == [] {
      assert v + w == v;
    } else {
      var w' := w[..|w| - 1];
      assert (v + w)[..|v + w| - 1] == v + w';
      RStripCharOf(v, w', c);
    }
  }

  function LowerChar(c: char): char {
    if 'A' <= c <= 'Z' then (c as int + 32) as char else c
  }

  /** Python's `s.lower()` on ASCII letters. */
  function Lower(s: string): (r: string)
    ensures |r| == |s|
    ensures forall i :: 0 <= i < |s| ==> r[i] == LowerChar(s[i])
  {
    if s == [] then [] else [LowerChar(s[0])] + Lower(s[1..])
  }
}
