/** The JavaScript string operations the bunfig builder relies on, other than
    `replace`: `split(/\r|\n/)`, `Array.prototype.join`, `String(n)` for a
    non-negative integer, and lower-casing (ASCII only). */
module Strings {

  // ---------------------------------------------------------------------------
  // split(/\r|\n/)
  // ---------------------------------------------------------------------------

  predicate IsLineBreak(c: char) {
    c == '\r' || c == '\n'
  }

  predicate NoLineBreak(s: string) {
    forall i :: 0 <= i < |s| ==> !IsLineBreak(s[i])
  }

  /** `s.split(/\r|\n/)`: every single CR or LF ends one element, so "\r\n"
      yields an empty element between the two breaks, and "" yields [""]. */
  function Split(s: string): (lines: seq<string>)
    ensures |lines| > 0
    decreases |s|
  {
    if s == [] then [""]
    else
      var rest := Split(s[1..]);
      if IsLineBreak(s[0]) then [""] + rest
      else [[s[0]] + rest[0]] + rest[1..]
  }

  /** The break characters of `s`, in order: the separators `Split` consumed. */
  function LineBreaks(s: string): (seps: string)
    ensures forall i :: 0 <= i < |seps| ==> IsLineBreak(seps[i])
    decreases |s|
  {
    if s == [] then []
    else (if IsLineBreak(s[0]) then [s[0]] else []) + LineBreaks(s[1..])
  }

  /** Puts the separators back between the lines: the inverse of `Split`. */
  function Interleave(lines: seq<string>, seps: string): string
    requires |lines| == |seps| + 1
    decreases |seps|
  {
    if |seps| == 0 then lines[0]
    else lines[0] + [seps[0]] + Interleave(lines[1..], seps[1..])
  }

  lemma {:induction false} SplitCountsBreaks(s: string)
    ensures |Split(s)| == |LineBreaks(s)| + 1
    decreases |s|
  {
    if s != [] {
      SplitCountsBreaks(s[1..]);
    }
  }

  lemma {:induction false} SplitLinesHaveNoBreak(s: string)
    ensures forall k :: 0 <= k < |Split(s)| ==> NoLineBreak(Split(s)[k])
    decreases |s|
  {
    if s != [] {
      SplitLinesHaveNoBreak(s[1..]);
      var rest := Split(s[1..]);
      if !IsLineBreak(s[0]) {
        var first := [s[0]] + rest[0];
        assert NoLineBreak(rest[0]);
        assert NoLineBreak(first) by {
          forall i | 0 <= i < |first| ensures !IsLineBreak(first[i]) {
            if i > 0 { assert first[i] == rest[0][i - 1]; }
          }
        }
        assert Split(s) == [first] + rest[1..];
      }
    }
  }

  /** Joining the elements with the separators that were split off rebuilds the input. */
  lemma {:induction false} SplitRoundTrip(s: string)
    ensures |Split(s)| == |LineBreaks(s)| + 1
    ensures Interleave(Split(s), LineBreaks(s)) == s
    decreases |s|
  {
    SplitCountsBreaks(s);
    if s != [] {
      SplitRoundTrip(s[1..]);
      var rest, seps := Split(s[1..]), LineBreaks(s[1..]);
      if IsLineBreak(s[0]) {
        assert Split(s) == [""] + rest;
        assert LineBreaks(s) == [s[0]] + seps;
        InterleaveAfterBreak(s[0], rest, seps);
      } else {
        assert Split(s) == [[s[0]] + rest[0]] + rest[1..];
        assert LineBreaks(s) == seps;
        InterleaveAfterChar(s[0], rest, seps);
      }
      assert s == [s[0]] + s[1..];
    }
  }

  /** A break in front: an empty element, then the break. */
  lemma InterleaveAfterBreak(c: char, rest: seq<string>, seps: string)
    requires |rest| == |seps| + 1
    ensures Interleave([""] + rest, [c] + seps) == [c] + Interleave(rest, seps)
  {
    assert ([""] + rest)[1..] == rest;
    assert ([c] + seps)[1..] == seps;
  }

  /** A plain character in front: it joins the first element. */
  lemma InterleaveAfterChar(c: char, rest: seq<string>, seps: string)
    requires |rest| == |seps| + 1
    ensures Interleave([[c] + rest[0]] + rest[1..], seps) == [c] + Interleave(rest, seps)
  {
    var lines := [[c] + rest[0]] + rest[1..];
    if |seps| > 0 {
      assert lines[1..] == rest[1..];
    }
  }

  /** A break-free prefix merges into the first element of what follows it. */
  lemma {:induction false} SplitOfUnbrokenPrefix(x: string, tail: string)
    requires NoLineBreak(x)
    ensures Split(x + tail) == [x + Split(tail)[0]] + Split(tail)[1..]
    decreases |x|
  {
    if x == [] {
      assert x + tail == tail;
      assert x + Split(tail)[0] == Split(tail)[0];
      assert [Split(tail)[0]] + Split(tail)[1..] == Split(tail);
    } else {
      var t, r := Split(tail), Split(x[1..] + tail);
      assert Split(x + tail) == [[x[0]] + r[0]] + r[1..] by {
        assert (x + tail)[1..] == x[1..] + tail;
        assert !IsLineBreak(x[0]);
      }
      assert r == [x[1..] + t[0]] + t[1..] by {
        SplitOfUnbrokenPrefix(x[1..], tail);
      }
      assert [x[0]] + (x[1..] + t[0]) == x + t[0];
    }
  }

  /** Splitting break-free lines joined by breaks gives the lines back. */
  lemma {:induction false} SplitInterleave(lines: seq<string>, seps: string)
    requires |lines| == |seps| + 1
    requires forall k :: 0 <= k < |lines| ==> NoLineBreak(lines[k])
    requires forall i :: 0 <= i < |seps| ==> IsLineBreak(seps[i])
    ensures Split(Interleave(lines, seps)) == lines
    decreases |seps|
  {
    if |seps| == 0 {
      SplitOfUnbrokenPrefix(lines[0], []);
      assert lines[0] + [] == lines[0];
      assert lines == [lines[0]];
    } else {
      var tail := [seps[0]] + Interleave(lines[1..], seps[1..]);
      SplitInterleave(lines[1..], seps[1..]);
      assert tail[1..] == Interleave(lines[1..], seps[1..]);
      assert Split(tail) == [""] + lines[1..];
      SplitOfUnbrokenPrefix(lines[0], tail);
      assert Interleave(lines, seps) == lines[0] + tail;
      assert lines[0] + "" == lines[0];
      assert lines == [lines[0]] + lines[1..];
    }
  }

  /** "a\r\nb" has two breaks, hence three elements, the middle one empty. */
  lemma CrLfGivesEmptyElement()
    ensures Split("a\r\nb") == ["a", "", "b"]
  {
    assert "b"[1..] == "";
    assert Split("") == [""];
    assert ['b'] + "" == "b";
    assert Split("b") == ["b"];
    assert "\nb"[1..] == "b";
    assert Split("\nb") == ["", "b"];
    assert "\r\nb"[1..] == "\nb";
    assert Split("\r\nb") == ["", "", "b"];
    assert "a\r\nb"[1..] == "\r\nb";
    assert ['a'] + "" == "a";
    assert ["", "", "b"][1..] == ["", "b"];
  }

  // ---------------------------------------------------------------------------
  // Array.prototype.join
  // ---------------------------------------------------------------------------

  /** `cells.join(sep)`: the empty list joins to "". */
  function Join(cells: seq<string>, sep: string): string
    decreases |cells|
  {
    if |cells| == 0 then ""
    else if |cells| == 1 then cells[0]
    else cells[0] + sep + Join(cells[1..], sep)
  }

  /** Joining two lists is joining each, with one separator between them
      when both are non-empty. */
  lemma {:induction false} JoinAppend(xs: seq<string>, ys: seq<string>, sep: string)
    ensures Join(xs + ys, sep) == Join(xs, sep) + (if xs != [] && ys != [] then sep else "") + Join(ys, sep)
    decreases |xs|
  {
    if xs == [] {
      assert xs + ys == ys;
    } else if ys == [] {
      assert xs + ys == xs;
    } else if |xs| == 1 {
      assert xs + ys == [xs[0]] + ys;
      assert ([xs[0]] + ys)[1..] == ys;
    } else {
      JoinAppend(xs[1..], ys, sep);
      assert (xs + ys)[1..] == xs[1..] + ys;
      assert (xs + ys)[0] == xs[0];
    }
  }

  /** The cell at position k sits between the join of the cells before it and
      the join of the cells after it, with a separator on each side that has a
      neighbour. */
  lemma JoinAround(cells: seq<string>, k: nat, sep: string)
    requires k < |cells|
    ensures Join(cells, sep) ==
      Join(cells[..k], sep) + (if k > 0 then sep else "") + cells[k]
      + (if k + 1 < |cells| then sep else "") + Join(cells[k + 1..], sep)
  {
    var before, after := cells[..k], cells[k + 1..];
    assert cells == before + ([cells[k]] + after);
    JoinAppend(before, [cells[k]] + after, sep);
    JoinAppend([cells[k]], after, sep);
  }

  // ---------------------------------------------------------------------------
  // String(n) for a natural number
  // ---------------------------------------------------------------------------

  predicate IsDigit(c: char) {
    '0' <= c <= '9'
  }

  function DigitChar(d: nat): (c: char)
    requires d < 10
    ensures IsDigit(c)
  {
    (('0' as int) + d) as char
  }

  function DigitValue(c: char): nat
    requires IsDigit(c)
  {
    c as int - '0' as int
  }

  /** The decimal rendering of n, as a template literal `${n}` writes it. */
  function NatToString(n: nat): (s: string)
    ensures |s| > 0
    ensures forall i :: 0 <= i < |s| ==> IsDigit(s[i])
    decreases n
  {
    if n < 10 then [DigitChar(n)] else NatToString(n / 10) + [DigitChar(n % 10)]
  }

  /** The value of a string of decimal digits: the partner of `NatToString`. */
  function DecimalValue(s: string): nat
    requires forall i :: 0 <= i < |s| ==> IsDigit(s[i])
    decreases |s|
  {
    if s == [] then 0
    else DecimalValue(s[..|s| - 1]) * 10 + DigitValue(s[|s| - 1])
  }

  lemma {:induction false} DecimalRoundTrip(n: nat)
    ensures DecimalValue(NatToString(n)) == n
    decreases n
  {
    if n >= 10 {
      DecimalRoundTrip(n / 10);
      var s := NatToString(n);
      assert s[..|s| - 1] == NatToString(n / 10);
    }
  }

  lemma NatToStringInjective(m: nat, n: nat)
    requires NatToString(m) == NatToString(n)
    ensures m == n
  {
    DecimalRoundTrip(m);
    DecimalRoundTrip(n);
  }

  // ---------------------------------------------------------------------------
  // Lower-casing
  // ---------------------------------------------------------------------------

  predicate IsUpper(c: char) {
    'A' <= c <= 'Z'
  }

  function LowerChar(c: char): (l: char)
    ensures !IsUpper(l)
  {
    if IsUpper(c) then (c as int + 32) as char else c
  }

  /** Lower-cases every ASCII capital letter and leaves every other character alone. */
  function Lower(s: string): (l: string)
    ensures |l| == |s|
    ensures forall i :: 0 <= i < |s| ==> l[i] == LowerChar(s[i])
  {
    seq(|s|, i requires 0 <= i < |s| => LowerChar(s[i]))
  }

  predicate IsLowerCase(s: string) {
    forall i :: 0 <= i < |s| ==> !IsUpper(s[i])
  }

  lemma LowerIsIdempotent(s: string)
    ensures IsLowerCase(Lower(s))
    ensures Lower(Lower(s)) == Lower(s)
  {
  }
}
