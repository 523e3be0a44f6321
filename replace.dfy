/** `String.prototype.replace(pattern, replacement)` with a string pattern, as
    ECMAScript defines it: only the FIRST occurrence of the pattern is replaced,
    and the replacement text is expanded by the GetSubstitution operation, in
    which `$$`, `$&`, `` $` `` and `$'` are special. */
module StringReplace {
  import opened Wrappers

  // ---------------------------------------------------------------------------
  // Occurrences
  // ---------------------------------------------------------------------------

  predicate OccursAt(s: string, pat: string, p: nat) {
    p + |pat| <= |s| && s[p..p + |pat|] == pat
  }

  /** `s` does not contain `pat` anywhere. */
  ghost predicate Free(s: string, pat: string) {
    forall p: nat :: !OccursAt(s, pat, p)
  }

  /** The first occurrence of `pat` at or after `from`. */
  function IndexFrom(s: string, pat: string, from: nat): (r: Option<nat>)
    ensures r.Some? ==> from <= r.value && OccursAt(s, pat, r.value)
    ensures r.Some? ==> forall q: nat :: from <= q < r.value ==> !OccursAt(s, pat, q)
    ensures r.None? ==> forall q: nat :: from <= q ==> !OccursAt(s, pat, q)
    decreases |s| - from
  {
    if from + |pat| > |s| then None
    else if OccursAt(s, pat, from) then Some(from)
    else IndexFrom(s, pat, from + 1)
  }

  /** `s.indexOf(pat)`, with None for -1. */
  function IndexOf(s: string, pat: string): (r: Option<nat>)
    ensures r.Some? ==> OccursAt(s, pat, r.value)
    ensures r.Some? ==> forall q: nat :: q < r.value ==> !OccursAt(s, pat, q)
    ensures r.None? <==> Free(s, pat)
  {
    IndexFrom(s, pat, 0)
  }

  // ---------------------------------------------------------------------------
  // GetSubstitution and replace
  // ---------------------------------------------------------------------------

  /** The expansion of a replacement template when the pattern is a string (no
      capture groups): `$$` gives `$`, `$&` the matched text, `` $` `` the text
      before the match and `$'` the text after it; every other character,
      including a `$` before anything else, stands for itself. */
  function GetSubstitution(matched: string, before: string, after: string, template: string): string
    decreases |template|
  {
    if |template| >= 2 && template[0] == '$' && template[1] == '$' then
      "$" + GetSubstitution(matched, before, after, template[2..])
    else if |template| >= 2 && template[0] == '$' && template[1] == '&' then
      matched + GetSubstitution(matched, before, after, template[2..])
    else if |template| >= 2 && template[0] == '$' && template[1] == '`' then
      before + GetSubstitution(matched, before, after, template[2..])
    else if |template| >= 2 && template[0] == '$' && template[1] == '\'' then
      after + GetSubstitution(matched, before, after, template[2..])
    else if template == [] then []
    else [template[0]] + GetSubstitution(matched, before, after, template[1..])
  }

  /** `s.replace(pat, replacement)`. */
  function ReplaceFirst(s: string, pat: string, replacement: string): string
  {
    match IndexOf(s, pat)
    case None => s
    case Some(p) =>
      s[..p] + GetSubstitution(pat, s[..p], s[p + |pat|..], replacement) + s[p + |pat|..]
  }

  /** Without a `$`, the template is inserted as it is. */
  lemma {:induction false} SubstitutionOfLiteral(matched: string, before: string, after: string, t: string)
    requires '$' !in t
    ensures GetSubstitution(matched, before, after, t) == t
    decreases |t|
  {
    if t != [] {
      assert '$' !in t[1..];
      SubstitutionOfLiteral(matched, before, after, t[1..]);
      assert t == [t[0]] + t[1..];
    }
  }

  /** A template starts with a two-character `$` pattern. */
  predicate StartsWithPattern(t: string) {
    |t| >= 2 && t[0] == '$' && t[1] in "$&`'"
  }

  /** What a two-character `$` pattern expands to. */
  function Expansion(c: char, matched: string, before: string, after: string): string {
    if c == '$' then "$" else if c == '&' then matched else if c == '`' then before else after
  }

  /** The first step of the expansion: a pattern, or one plain character. */
  lemma SubstitutionHead(matched: string, before: string, after: string, t: string)
    requires t != []
    ensures StartsWithPattern(t) ==>
      GetSubstitution(matched, before, after, t) == Expansion(t[1], matched, before, after)
                                                    + GetSubstitution(matched, before, after, t[2..])
    ensures !StartsWithPattern(t) ==>
      GetSubstitution(matched, before, after, t) == [t[0]] + GetSubstitution(matched, before, after, t[1..])
  {
  }

  /** A template that does not end in `$` expands independently of what follows it. */
  lemma {:induction false} SubstitutionOfConcat(matched: string, before: string, after: string, x: string, y: string)
    requires x == [] || x[|x| - 1] != '$'
    ensures GetSubstitution(matched, before, after, x + y)
         == GetSubstitution(matched, before, after, x) + GetSubstitution(matched, before, after, y)
    decreases |x|, 1
  {
    if x == [] {
      assert x + y == y;
    } else if StartsWithPattern(x) {
      ConcatAfterPattern(matched, before, after, x, y);
    } else {
      ConcatAfterChar(matched, before, after, x, y);
    }
  }

  lemma {:induction false} ConcatAfterPattern(matched: string, before: string, after: string, x: string, y: string)
    requires StartsWithPattern(x) && x[|x| - 1] != '$'
    ensures GetSubstitution(matched, before, after, x + y)
         == GetSubstitution(matched, before, after, x) + GetSubstitution(matched, before, after, y)
    decreases |x|, 0
  {
    var t, rest := x + y, x[2..];
    var e := Expansion(x[1], matched, before, after);
    var gx, gy := GetSubstitution(matched, before, after, rest), GetSubstitution(matched, before, after, y);
    assert GetSubstitution(matched, before, after, t) == e + GetSubstitution(matched, before, after, rest + y) by {
      assert t[0] == x[0] && t[1] == x[1];
      assert t[2..] == rest + y;
      SubstitutionHead(matched, before, after, t);
    }
    assert GetSubstitution(matched, before, after, rest + y) == gx + gy by {
      assert rest == [] || rest[|rest| - 1] != '$';
      SubstitutionOfConcat(matched, before, after, rest, y);
    }
    assert GetSubstitution(matched, before, after, x) == e + gx by {
      SubstitutionHead(matched, before, after, x);
    }
    assert e + (gx + gy) == e + gx + gy;
  }

  lemma {:induction false} ConcatAfterChar(matched: string, before: string, after: string, x: string, y: string)
    requires x != [] && !StartsWithPattern(x) && x[|x| - 1] != '$'
    ensures GetSubstitution(matched, before, after, x + y)
         == GetSubstitution(matched, before, after, x) + GetSubstitution(matched, before, after, y)
    decreases |x|, 0
  {
    var t := x + y;
    SubstitutionHead(matched, before, after, x);
    SubstitutionHead(matched, before, after, t);
    assert !StartsWithPattern(t) by {
      if |x| == 1 {
        assert t[0] == x[0];
      } else {
        assert t[0] == x[0] && t[1] == x[1];
      }
    }
    assert t[1..] == x[1..] + y;
    SubstitutionOfConcat(matched, before, after, x[1..], y);
  }

  /** A `$` followed by a character that is not special stands for itself. */
  lemma SubstitutionOfPlainDollar(matched: string, before: string, after: string, t: string)
    requires |t| >= 2 && t[0] == '$' && t[1] !in "$&`'"
    ensures GetSubstitution(matched, before, after, t)
         == "$" + GetSubstitution(matched, before, after, t[1..])
  {
  }

  // ---------------------------------------------------------------------------
  // Where the first occurrence is
  // ---------------------------------------------------------------------------

  lemma FreeWithoutChar(s: string, pat: string, c: char)
    requires c in pat && c !in s
    ensures Free(s, pat)
  {
    var j :| 0 <= j < |pat| && pat[j] == c;
    forall p: nat | p + |pat| <= |s|
      ensures !OccursAt(s, pat, p)
    {
      assert s[p..p + |pat|][j] == s[p + j];
    }
  }

  /** A text free of a fragment is free of every pattern that contains the fragment. */
  lemma FreeOfFragment(s: string, frag: string, pat: string, off: nat)
    requires off + |frag| <= |pat| && pat[off..off + |frag|] == frag
    requires Free(s, frag)
    ensures Free(s, pat)
  {
    forall p: nat | p + |pat| <= |s|
      ensures !OccursAt(s, pat, p)
    {
      assert !OccursAt(s, frag, p + off);
      var w := s[p..p + |pat|];
      assert s[p + off..p + off + |frag|] == w[off..off + |frag|] by {
        forall k | p + off <= k < p + off + |frag|
          ensures s[k] == w[k - p]
        {
        }
      }
    }
  }

  /** At the seam of x and y stands a character the pattern does not contain,
      so no occurrence can straddle it. */
  predicate Separated(x: string, y: string, pat: string) {
    x == [] || y == [] || x[|x| - 1] !in pat || y[0] !in pat
  }

  lemma FreeConcat(x: string, y: string, pat: string)
    requires Free(x, pat) && Free(y, pat) && Separated(x, y, pat)
    ensures Free(x + y, pat)
  {
    var s := x + y;
    forall p: nat | p + |pat| <= |s|
      ensures !OccursAt(s, pat, p)
    {
      if p + |pat| <= |x| {
        assert !OccursAt(x, pat, p);
        assert s[p..p + |pat|] == x[p..p + |pat|];
      } else if p >= |x| {
        assert !OccursAt(y, pat, p - |x|);
        assert s[p..p + |pat|] == y[p - |x|..p - |x| + |pat|];
      } else {
        assert s[p..p + |pat|][|x| - 1 - p] == x[|x| - 1];
        assert s[p..p + |pat|][|x| - p] == y[0];
      }
    }
  }

  /** When the text before an occurrence of the pattern neither contains it
      nor ends in one of its characters, that occurrence is the first. */
  lemma FirstOccurrence(a: string, pat: string, b: string)
    requires Free(a, pat)
    requires a == [] || a[|a| - 1] !in pat
    ensures IndexOf(a + pat + b, pat) == Some(|a|)
  {
    var s := a + pat + b;
    assert s[|a|..|a| + |pat|] == pat;
    assert OccursAt(s, pat, |a|);
    forall q: nat | q < |a| && q + |pat| <= |s|
      ensures !OccursAt(s, pat, q)
    {
      if q + |pat| <= |a| {
        assert !OccursAt(a, pat, q);
        assert s[q..q + |pat|] == a[q..q + |pat|];
      } else {
        assert s[q..q + |pat|][|a| - 1 - q] == a[|a| - 1];
      }
    }
    var r := IndexOf(s, pat);
    assert r.Some?;
    assert r.value <= |a|;
  }

  /** The expanded replacement lands exactly where the pattern stood. */
  lemma ReplaceFirstAt(a: string, pat: string, b: string, replacement: string)
    requires Free(a, pat)
    requires a == [] || a[|a| - 1] !in pat
    ensures ReplaceFirst(a + pat + b, pat, replacement) == a + GetSubstitution(pat, a, b, replacement) + b
  {
    FirstOccurrence(a, pat, b);
    var s := a + pat + b;
    assert s[..|a|] == a;
    assert s[|a| + |pat|..] == b;
  }
}
