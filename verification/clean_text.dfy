/**
 `TwitterClient._clean_text`: remove every match of `<[^>]+>`, replace every
 run of `\s+` by one space, then `strip()`.
 */
module CleanText {
  import opened Text
  import Seqs

  /** Index of the first '>' at or after `i`, or `|s|` when there is none. */
  function FindGt(s: string, i: nat): (g: nat)
    requires i <= |s|
    ensures i <= g <= |s|
    ensures forall j :: i <= j < g ==> s[j] != '>'
    ensures g < |s| ==> s[g] == '>'
    decreases |s| - i
  {
    if i == |s| || s[i] == '>' then i else FindGt(s, i + 1)
  }

  /** The pattern `<[^>]+>` matches at index `i`: a '<', at least one non-'>' character, then a '>'. */
  predicate OpensTag(s: string, i: nat) {
    && i + 1 < |s| && s[i] == '<' && s[i + 1] != '>'
    && exists g :: i + 1 < g < |s| && s[g] == '>'
  }

  /** Nothing in `s` is a tag that `<[^>]+>` would remove. */
  predicate NoTags(s: string) {
    forall i :: 0 <= i < |s| ==> !OpensTag(s, i)
  }

  /** `re.sub(r'<[^>]+>', '', s)`: scanning left to right, drop each '<' up to the next '>'. */
  function StripTags(s: string): (r: string)
    ensures |r| <= |s|
    ensures '>' in r ==> '>' in s
    ensures s != [] && s[0] != '<' ==> r != [] && r[0] == s[0]
    ensures NoTags(r)
    decreases |s|
  {
    if s == [] then
      []
    else if OpensTag(s, 0) then
      StripTags(s[FindGt(s, 1) + 1..])
    else
      var rest := StripTags(s[1..]);
      assert s[0] == '<' ==> rest == [] || rest[0] == '>' || '>' !in rest by {
        if s[0] == '<' && |s| > 1 && s[1] != '>' {
          assert '>' !in s[1..];
        }
      }
      NoTagsCons(s[0], rest);
      [s[0]] + rest
  }

  /** Prepending a character keeps a tag-free string tag-free unless it opens a tag. */
  lemma NoTagsCons(c: char, t: string)
    requires NoTags(t)
    requires c == '<' ==> t == [] || t[0] == '>' || '>' !in t
    ensures NoTags([c] + t)
  {
    var r := [c] + t;
    forall i | 0 <= i < |r|
      ensures !OpensTag(r, i)
    {
      if i > 0 {
        assert !OpensTag(t, i - 1);
      }
    }
  }

  /** Any slice of a tag-free string is tag-free. */
  lemma NoTagsSlice(s: string, a: nat, b: nat)
    requires a <= b <= |s|
    requires NoTags(s)
    ensures NoTags(s[a..b])
  {
    var t := s[a..b];
    forall i | 0 <= i < |t|
      ensures !OpensTag(t, i)
    {
      if OpensTag(t, i) {
        var g :| i + 1 < g < |t| && t[g] == '>';
        assert s[a + g] == '>';
        assert OpensTag(s, a + i);
      }
    }
  }

  /** Tag removal leaves a tag-free string alone, so it is idempotent. */
  lemma {:induction false} StripTagsFixed(s: string)
    requires NoTags(s)
    ensures StripTags(s) == s
    decreases |s|
  {
    if s != [] {
      assert !OpensTag(s, 0);
      NoTagsSlice(s, 1, |s|);
      assert s[1..|s|] == s[1..];
      StripTagsFixed(s[1..]);
    }
  }

  /** A character other than '<' is kept and the removal goes on after it. */
  lemma StripTagsCons(c: char, t: string)
    requires c != '<'
    ensures StripTags([c] + t) == [c] + StripTags(t)
  {
    assert ([c] + t)[1..] == t;
  }

  /** Text before the first '<' is kept as it is, and the removal goes on after it. */
  lemma {:induction false} StripTagsPlainPrefix(a: string, b: string)
    requires '<' !in a
    ensures StripTags(a + b) == a + StripTags(b)
    decreases |a|
  {
    if a == [] {
      assert a + b == b;
    } else {
      var rest := a[1..];
      assert a + b == [a[0]] + (rest + b);
      assert a == [a[0]] + rest;
      assert '<' !in rest;
      StripTagsCons(a[0], rest + b);
      StripTagsPlainPrefix(rest, b);
    }
  }

  /** A complete tag `<t>` is removed and the removal goes on after its '>'. */
  lemma StripTagsDropsTag(t: string, b: string)
    requires t != [] && '>' !in t
    ensures StripTags("<" + t + ">" + b) == StripTags(b)
  {
    var s := "<" + t + ">" + b;
    var g := |t| + 1;
    assert s[g] == '>' && s[1] == t[0];
    assert OpensTag(s, 0);
    assert forall j :: 1 <= j < g ==> s[j] == t[j - 1];
    assert FindGt(s, 1) == g;
    assert s[g + 1..] == b;
  }

  /** The non-whitespace characters of `s`, in order. */
  function Squeeze(s: string): string {
    if s == [] then [] else (if IsSpace(s[0]) then [] else [s[0]]) + Squeeze(s[1..])
  }

  lemma {:induction false} SqueezeAppend(a: string, b: string)
    ensures Squeeze(a + b) == Squeeze(a) + Squeeze(b)
  {
    if a != [] {
      var head := if IsSpace(a[0]) then [] else [a[0]];
      assert (a + b)[0] == a[0];
      assert (a + b)[1..] == a[1..] + b;
      SqueezeAppend(a[1..], b);
      calc {
        Squeeze(a + b);
        head + Squeeze(a[1..] + b);
        head + (Squeeze(a[1..]) + Squeeze(b));
        (head + Squeeze(a[1..])) + Squeeze(b);
      }
    } else {
      assert a + b == b;
    }
  }

  lemma {:induction false} SqueezeBlank(s: string)
    requires forall i :: 0 <= i < |s| ==> IsSpace(s[i])
    ensures Squeeze(s) == []
  {
    if s != [] {
      SqueezeBlank(s[1..]);
    }
  }

  /** Removing leading whitespace keeps the non-whitespace content. */
  lemma SqueezeLStrip(s: string)
    ensures Squeeze(LStripSpace(s)) == Squeeze(s)
  {
    var l := LStripSpace(s);
    var k := |s| - |l|;
    assert s == s[..k] + l;
    SqueezeAppend(s[..k], l);
    SqueezeBlank(s[..k]);
  }

  /** Removing trailing whitespace keeps the non-whitespace content. */
  lemma SqueezeRStrip(s: string)
    ensures Squeeze(RStripSpace(s)) == Squeeze(s)
  {
    var r := RStripSpace(s);
    assert s == r + s[|r|..];
    SqueezeAppend(r, s[|r|..]);
    SqueezeBlank(s[|r|..]);
  }

  /** Every whitespace character is a plain space and no two are adjacent. */
  predicate SingleSpaced(s: string) {
    && (forall i :: 0 <= i < |s| && IsSpace(s[i]) ==> s[i] == ' ')
    && (forall i :: 0 <= i < |s| - 1 ==> !(IsSpace(s[i]) && IsSpace(s[i + 1])))
  }

  lemma SingleSpacedSlice(s: string, a: nat, b: nat)
    requires a <= b <= |s|
    requires SingleSpaced(s)
    ensures SingleSpaced(s[a..b])
  {
    var t := s[a..b];
    forall i | 0 <= i < |t| - 1
      ensures !(IsSpace(t[i]) && IsSpace(t[i + 1]))
    {
      assert t[i] == s[a + i] && t[i + 1] == s[a + i + 1];
    }
  }

  /** `re.sub(r'\s+', ' ', s)`: every maximal run of whitespace becomes one space. */
  function Collapse(s: string): (r: string)
    ensures s != [] ==> r != [] && r[0] == (if IsSpace(s[0]) then ' ' else s[0])
    ensures SingleSpaced(r)
    ensures forall i :: 0 <= i < |r| && !IsSpace(r[i]) ==> r[i] in s
    decreases |s|
  {
    if s == [] then
      []
    else if IsSpace(s[0]) then
      var rest := LStripSpace(s);
      var tail := Collapse(rest);
      SpacedCons(' ', tail);
      assert forall c :: c in rest ==> c in s;
      " " + tail
    else
      var tail := Collapse(s[1..]);
      SpacedCons(s[0], tail);
      assert forall c :: c in s[1..] ==> c in s;
      [s[0]] + tail
  }

  /** Prefixing a non-space, or a plain space before a non-space, keeps a string single-spaced. */
  lemma SpacedCons(c: char, t: string)
    requires SingleSpaced(t)
    requires IsSpace(c) ==> c == ' ' && (t == [] || !IsSpace(t[0]))
    ensures SingleSpaced([c] + t)
  {
    var r := [c] + t;
    forall i | 1 <= i < |r|
      ensures r[i] == t[i - 1]
    {
    }
  }

  /** A whitespace run followed by text that starts with none collapses to one space. */
  lemma CollapseRun(w: string, b: string)
    requires w != [] && forall j :: 0 <= j < |w| ==> IsSpace(w[j])
    requires b == [] || !IsSpace(b[0])
    ensures Collapse(w + b) == " " + Collapse(b)
  {
    assert (w + b)[0] == w[0];
    LStripSpaceOf(w, b);
  }

  /** Dropping leading whitespace from text that ends in non-whitespace leaves such text. */
  lemma LStripAppend(a: string, b: string)
    requires a != [] && !IsSpace(a[|a| - 1])
    ensures LStripSpace(a) != [] && !IsSpace(LStripSpace(a)[|LStripSpace(a)| - 1])
    ensures LStripSpace(a + b) == LStripSpace(a) + b
  {
    var l := LStripSpace(a);
    var k := |a| - |l|;
    assert l[|l| - 1] == a[|a| - 1];
    assert a + b == a[..k] + (l + b);
    LStripSpaceOf(a[..k], l + b);
  }

  /** A non-whitespace character is kept and the collapse goes on after it. */
  lemma CollapseCons(c: char, t: string)
    requires !IsSpace(c)
    ensures Collapse([c] + t) == [c] + Collapse(t)
  {
    assert ([c] + t)[1..] == t;
  }

  /** Inductive step of `CollapseAppend` for text that starts with whitespace. */
  lemma CollapseAppendSpace(a: string, b: string)
    requires a != [] && IsSpace(a[0]) && !IsSpace(a[|a| - 1])
    requires Collapse(LStripSpace(a) + b) == Collapse(LStripSpace(a)) + Collapse(b)
    ensures Collapse(a + b) == Collapse(a) + Collapse(b)
  {
    var l := LStripSpace(a);
    assert Collapse(a + b) == " " + Collapse(l + b) by {
      LStripAppend(a, b);
      assert (a + b)[0] == a[0];
    }
    Seqs.ConcatShift(Collapse(a + b), Collapse(a), " ", Collapse(l + b), Collapse(l), Collapse(b));
  }

  /** Inductive step of `CollapseAppend` for text that starts with a non-whitespace character. */
  lemma CollapseAppendCons(a: string, b: string)
    requires a != [] && !IsSpace(a[0])
    requires Collapse(a[1..] + b) == Collapse(a[1..]) + Collapse(b)
    ensures Collapse(a + b) == Collapse(a) + Collapse(b)
  {
    var rest := a[1..];
    assert Collapse(a + b) == [a[0]] + Collapse(rest + b) by {
      Seqs.ConsAppend(a, b);
      CollapseCons(a[0], rest + b);
    }
    assert Collapse(a) == [a[0]] + Collapse(rest) by {
      Seqs.HeadTail(a);
      CollapseCons(a[0], rest);
    }
    Seqs.ConcatShift(Collapse(a + b), Collapse(a), [a[0]], Collapse(rest + b), Collapse(rest), Collapse(b));
  }

  /** Text ending in non-whitespace collapses on its own: the collapse splits there. */
  lemma {:induction false} CollapseAppend(a: string, b: string)
    requires a == [] || !IsSpace(a[|a| - 1])
    ensures Collapse(a + b) == Collapse(a) + Collapse(b)
    decreases |a|
  {
    if a == [] {
      assert a + b == b;
    } else if IsSpace(a[0]) {
      LStripAppend(a, b);
      CollapseAppend(LStripSpace(a), b);
      CollapseAppendSpace(a, b);
    } else {
      CollapseAppend(a[1..], b);
      CollapseAppendCons(a, b);
    }
  }

  /** Every maximal whitespace run between two words becomes exactly one space. */
  lemma CollapseBetween(a: string, w: string, b: string)
    requires a == [] || !IsSpace(a[|a| - 1])
    requires w != [] && forall j :: 0 <= j < |w| ==> IsSpace(w[j])
    requires b == [] || !IsSpace(b[0])
    ensures Collapse(a + w + b) == Collapse(a) + " " + Collapse(b)
  {
    var x := w + b;
    assert a + w + b == a + x;
    assert Collapse(a + x) == Collapse(a) + Collapse(x) by { CollapseAppend(a, x); }
    assert Collapse(x) == " " + Collapse(b) by { CollapseRun(w, b); }
    Seqs.ConcatSplit(Collapse(a + w + b), Collapse(a), Collapse(x), " ", Collapse(b));
  }

  /** Collapsing whitespace keeps the non-whitespace content. */
  lemma {:induction false} CollapseSqueeze(s: string)
    ensures Squeeze(Collapse(s)) == Squeeze(s)
    decreases |s|
  {
    if s != [] {
      if IsSpace(s[0]) {
        var rest := LStripSpace(s);
        SqueezeLStrip(s);
        CollapseSqueeze(rest);
        var tail := Collapse(rest);
        assert (" " + tail)[1..] == tail;
      } else {
        CollapseSqueeze(s[1..]);
        var tail := Collapse(s[1..]);
        assert ([s[0]] + tail)[1..] == tail;
      }
    }
  }

  /** Collapsing whitespace cannot create a tag. */
  lemma {:induction false} CollapseNoTags(s: string)
    requires NoTags(s)
    ensures NoTags(Collapse(s))
    decreases |s|
  {
    if s != [] {
      if IsSpace(s[0]) {
        var rest := LStripSpace(s);
        NoTagsSlice(s, |s| - |rest|, |s|);
        assert s[|s| - |rest|..|s|] == rest;
        CollapseNoTags(rest);
        NoTagsCons(' ', Collapse(rest));
      } else {
        NoTagsSlice(s, 1, |s|);
        assert s[1..|s|] == s[1..];
        CollapseNoTags(s[1..]);
        var tail := Collapse(s[1..]);
        if s[0] == '<' && tail != [] && tail[0] != '>' {
          assert s[1] != '>';
          assert !OpensTag(s, 0);
          assert '>' !in s[1..];
          assert '>' !in tail;
        }
        NoTagsCons(s[0], tail);
      }
    }
  }

  /** A single-spaced string is its own collapse. */
  lemma {:induction false} CollapseFixed(s: string)
    requires SingleSpaced(s)
    ensures Collapse(s) == s
    decreases |s|
  {
    if s != [] {
      var tail := s[1..];
      SingleSpacedSlice(s, 1, |s|);
      assert s[1..|s|] == tail;
      CollapseFixed(tail);
      if IsSpace(s[0]) {
        assert tail == [] || !IsSpace(tail[0]);
        assert LStripSpace(s) == tail;
      }
      Seqs.HeadTail(s);
    }
  }

  /**
   `_clean_text(html)`: the result is tag-free, single-spaced, has no
   whitespace at either end, and keeps every non-whitespace character of
   the tag-stripped input in order.
   */
  function Clean(html: string): (r: string)
    ensures r == [] || (!IsSpace(r[0]) && !IsSpace(r[|r| - 1]))
    ensures SingleSpaced(r)
    ensures NoTags(r)
    ensures Squeeze(r) == Squeeze(StripTags(html))
  {
    var t := StripTags(html);
    CollapseNoTags(t);
    CollapseSqueeze(t);
    StripKeeps(Collapse(t));
    StripSpace(Collapse(t))
  }

  /** Trimming both ends keeps tag-freedom, single spacing and the non-whitespace content. */
  lemma StripKeeps(c: string)
    requires NoTags(c) && SingleSpaced(c)
    ensures NoTags(StripSpace(c)) && SingleSpaced(StripSpace(c))
    ensures Squeeze(StripSpace(c)) == Squeeze(c)
  {
    var l := LStripSpace(c);
    LStripKeeps(c);
    RStripKeeps(l);
  }

  lemma LStripKeeps(c: string)
    requires NoTags(c) && SingleSpaced(c)
    ensures NoTags(LStripSpace(c)) && SingleSpaced(LStripSpace(c))
    ensures Squeeze(LStripSpace(c)) == Squeeze(c)
  {
    var l := LStripSpace(c);
    NoTagsSlice(c, |c| - |l|, |c|);
    SingleSpacedSlice(c, |c| - |l|, |c|);
    assert c[|c| - |l|..|c|] == l;
    SqueezeLStrip(c);
  }

  lemma RStripKeeps(c: string)
    requires NoTags(c) && SingleSpaced(c)
    ensures NoTags(RStripSpace(c)) && SingleSpaced(RStripSpace(c))
    ensures Squeeze(RStripSpace(c)) == Squeeze(c)
  {
    var r := RStripSpace(c);
    NoTagsSlice(c, 0, |r|);
    SingleSpacedSlice(c, 0, |r|);
    assert c[0..|r|] == r;
    SqueezeRStrip(c);
  }

  /** Cleaning already-clean text changes nothing. */
  lemma CleanIdempotent(html: string)
    ensures Clean(Clean(html)) == Clean(html)
  {
    var r := Clean(html);
    StripTagsFixed(r);
    CollapseFixed(r);
  }

  /** Plain text with single spaces and no markup passes through unchanged. */
  lemma CleanPlainText(s: string)
    requires '<' !in s
    requires SingleSpaced(s)
    requires s == [] || (!IsSpace(s[0]) && !IsSpace(s[|s| - 1]))
    ensures Clean(s) == s
  {
    StripTagsFixed(s);
    CollapseFixed(s);
  }
}
