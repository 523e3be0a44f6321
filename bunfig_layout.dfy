/** What the two-pass construction produces when nothing interferes with the
    markers: the fragment written out directly, each entry's line in its own
    slot, in index order, with no marker left behind. */
module BunfigLayout {
  import opened Wrappers
  import opened Strings
  import opened StringReplace
  import opened Bunfig

  // ---------------------------------------------------------------------------
  // The direct rendering
  // ---------------------------------------------------------------------------

  /** `os.EOL`: LF on POSIX systems, CR LF on Windows. */
  predicate IsEol(eol: string) {
    eol == "\n" || eol == "\r\n"
  }

  /** The two `[install]` header rules: as written ("") and as intended. */
  predicate IsInstallHeader(h: string, eol: string) {
    h == "" || h == "[install]" + eol
  }

  function Href(e: Entry, parseUrl: string -> Option<string>): string {
    match parseUrl(e.registryUrl)
    case Some(href) => href
    case None => ""
  }

  /** One cell per entry: its `registry = ...` line if it is unscoped, else "". */
  function UnscopedLines(entries: seq<Entry>, parseUrl: string -> Option<string>): (cells: seq<string>)
    ensures |cells| == |entries|
  {
    seq(|entries|, i requires 0 <= i < |entries| =>
      if IsUnscoped(entries[i]) then UnscopedLine(Href(entries[i], parseUrl)) else "")
  }

  /** One cell per entry: its owner line if it is scoped, else "". */
  function ScopedLines(entries: seq<Entry>, parseUrl: string -> Option<string>): (cells: seq<string>)
    ensures |cells| == |entries|
  {
    seq(|entries|, i requires 0 <= i < |entries| =>
      if IsScoped(entries[i])
      then ScopedLine(NormaliseScope(entries[i].scope), entries[i].tokenEnabled, i, Href(entries[i], parseUrl))
      else "")
  }

  /** The fragment with every line written straight into its slot. */
  function Render(entries: seq<Entry>, parseUrl: string -> Option<string>, eol: string, installHeader: string): string {
    Layout(installHeader, UnscopedLines(entries, parseUrl), ScopesHeader(entries, eol),
           ScopedLines(entries, parseUrl), eol)
  }

  /** Lines for the indices below k, markers for the others. */
  function Mix(markers: seq<string>, lines: seq<string>, k: nat): (cells: seq<string>)
    requires |markers| == |lines|
    ensures |cells| == |markers|
  {
    seq(|markers|, i requires 0 <= i < |markers| => if i < k then lines[i] else markers[i])
  }

  /** The text after the first k iterations when every replacement hits its own marker. */
  function Stage(entries: seq<Entry>, parseUrl: string -> Option<string>, eol: string,
                 installHeader: string, k: nat): string
  {
    Layout(installHeader,
           Mix(UnscopedMarkers(entries), UnscopedLines(entries, parseUrl), k),
           ScopesHeader(entries, eol),
           Mix(ScopedMarkers(entries), ScopedLines(entries, parseUrl), k), eol)
  }

  ghost predicate UrlsParse(entries: seq<Entry>, parseUrl: string -> Option<string>) {
    forall i :: 0 <= i < |entries| && entries[i].registryUrl != "" ==> parseUrl(entries[i].registryUrl).Some?
  }

  /** Text inserted verbatim: it holds no marker text and no `$`. */
  ghost predicate Verbatim(t: string) {
    Free(t, "scoped_") && '$' !in t
  }

  /** The conditions under which no replacement can hit a foreign marker: at
      most ten entries (so "scoped_1" cannot match inside "unscoped_10"), and
      no owner key or href that contains marker text or a `$`. */
  ghost predicate Unambiguous(entries: seq<Entry>, parseUrl: string -> Option<string>) {
    && |entries| <= 10
    && forall i :: 0 <= i < |entries| && entries[i].registryUrl != "" ==>
         Verbatim(Href(entries[i], parseUrl)) && Verbatim(NormaliseScope(entries[i].scope))
  }

  /** No href or owner key of a tuple with a registry holds marker text. */
  ghost predicate NoMarkerText(entries: seq<Entry>, parseUrl: string -> Option<string>) {
    forall i :: 0 <= i < |entries| && entries[i].registryUrl != "" ==>
      Free(Href(entries[i], parseUrl), "scoped_") && Free(NormaliseScope(entries[i].scope), "scoped_")
  }

  lemma UnambiguousHasNoMarkerText(entries: seq<Entry>, parseUrl: string -> Option<string>)
    requires Unambiguous(entries, parseUrl)
    ensures NoMarkerText(entries, parseUrl)
  {
  }

  // ---------------------------------------------------------------------------
  // Markers and fixed text
  // ---------------------------------------------------------------------------

  predicate EndsInBreak(s: string) {
    |s| > 0 && IsLineBreak(s[|s| - 1])
  }

  predicate AllBreaks(s: string) {
    |s| > 0 && forall i :: 0 <= i < |s| ==> IsLineBreak(s[i])
  }

  /** What the proof needs of a marker: it contains 'd', which no fixed text of
      the fragment does, and none of the characters that close a line. */
  ghost predicate MarkerLike(pat: string) {
    && 'd' in pat
    && '\n' !in pat && '\r' !in pat && '"' !in pat && '}' !in pat
  }

  lemma MarkersAreMarkerLike(index: nat)
    ensures MarkerLike(UnscopedMarker(index)) && MarkerLike(ScopedMarker(index))
    ensures MarkerLike("scoped_")
    ensures UnscopedMarker(index)[2..9] == "scoped_" && ScopedMarker(index)[..7] == "scoped_"
  {
    var digits := NatToString(index);
    assert UnscopedMarker(index) == "unscoped_" + digits;
    assert UnscopedMarker(index)[7] == 'd';
    assert ScopedMarker(index)[5] == 'd';
    forall c | c in digits
      ensures c != '\n' && c != '\r' && c != '"' && c != '}'
    {
      var i :| 0 <= i < |digits| && digits[i] == c;
      assert IsDigit(digits[i]);
    }
  }

  /** Two different indices below ten: an unscoped marker never contains the
      other index's scoped marker. */
  lemma DistinctMarkersFree(i: nat, k: nat)
    requires i < 10 && k < 10 && i != k
    ensures Free(UnscopedMarker(i), ScopedMarker(k))
  {
    var s, pat := UnscopedMarker(i), ScopedMarker(k);
    assert s == "unscoped_" + [DigitChar(i)];
    assert pat == "scoped_" + [DigitChar(k)];
    assert DigitChar(i) != DigitChar(k);
    forall p: nat | p + |pat| <= |s|
      ensures !OccursAt(s, pat, p)
    {
      if p == 0 {
        assert s[p..p + |pat|][0] == 'u';
      } else if p == 1 {
        assert s[p..p + |pat|][0] == 'n';
      } else {
        assert s[p..p + |pat|][7] == DigitChar(i);
      }
    }
  }

  lemma FixedTextFree(t: string, pat: string)
    requires MarkerLike(pat) && 'd' !in t
    ensures Free(t, pat)
  {
    FreeWithoutChar(t, pat, 'd');
  }

  lemma BreaksFree(s: string, pat: string)
    requires MarkerLike(pat) && forall i :: 0 <= i < |s| ==> IsLineBreak(s[i])
    ensures Free(s, pat)
  {
    assert 'd' !in s;
    FixedTextFree(s, pat);
  }

  lemma EolFacts(eol: string)
    requires IsEol(eol)
    ensures AllBreaks(eol) && EndsInBreak(eol) && 'd' !in eol && '$' !in eol
  {
  }

  /** Concatenation keeps freeness when a line break stands at the seam. */
  lemma AppendFree(x: string, y: string, pat: string)
    requires MarkerLike(pat) && Free(x, pat) && Free(y, pat)
    requires x == [] || EndsInBreak(x) || (y != [] && IsLineBreak(y[0]))
    ensures Free(x + y, pat)
  {
    FreeConcat(x, y, pat);
  }

  lemma JoinFree(cells: seq<string>, sep: string, pat: string)
    requires AllBreaks(sep) && MarkerLike(pat)
    requires forall i :: 0 <= i < |cells| ==> Free(cells[i], pat)
    ensures Free(Join(cells, sep), pat)
    decreases |cells|
  {
    if |cells| == 0 {
      FixedTextFree("", pat);
    } else if |cells| >= 2 {
      JoinFree(cells[1..], sep, pat);
      BreaksFree(sep, pat);
      AppendFree(cells[0], sep, pat);
      AppendFree(cells[0] + sep, Join(cells[1..], sep), pat);
    }
  }

  lemma UnscopedLineFree(href: string, pat: string)
    requires MarkerLike(pat) && Free(href, pat)
    ensures Free(UnscopedLine(href), pat)
  {
    var head := "registry = \"";
    FixedTextFree(head, pat);
    FixedTextFree("\"", pat);
    FreeConcat(head, href, pat);
    FreeConcat(head + href, "\"", pat);
  }

  lemma MiddleFacts(tokenEnabled: bool, index: nat)
    ensures 'd' !in ScopedLineMiddle(tokenEnabled, index)
    ensures |ScopedLineMiddle(tokenEnabled, index)| > 0
    ensures ScopedLineMiddle(tokenEnabled, index)[0] == '"'
    ensures ScopedLineMiddle(tokenEnabled, index)[|ScopedLineMiddle(tokenEnabled, index)| - 1] == '"'
  {
    var digits := NatToString(index);
    assert 'd' !in digits by {
      forall i | 0 <= i < |digits| ensures digits[i] != 'd' {
        assert IsDigit(digits[i]);
      }
    }
    assert 'd' !in TokenRef(index);
    assert 'd' !in TokenField(tokenEnabled, index);
  }

  lemma ScopedLineFree(owner: string, tokenEnabled: bool, index: nat, href: string, pat: string)
    requires MarkerLike(pat) && Free(owner, pat) && Free(href, pat)
    ensures Free(ScopedLine(owner, tokenEnabled, index, href), pat)
  {
    var middle := ScopedLineMiddle(tokenEnabled, index);
    MiddleFacts(tokenEnabled, index);
    FixedTextFree("\"", pat);
    FixedTextFree(middle, pat);
    FixedTextFree("\" }", pat);
    FreeConcat("\"", owner, pat);
    FreeConcat("\"" + owner, middle, pat);
    var x := "\"" + owner + middle;
    assert x[|x| - 1] == '"';
    FreeConcat(x, href, pat);
    FreeConcat(x + href, "\" }", pat);
  }

  // ---------------------------------------------------------------------------
  // Lines are inserted verbatim by replace
  // ---------------------------------------------------------------------------

  lemma UnscopedLineInert(matched: string, before: string, after: string, href: string)
    requires '$' !in href
    ensures GetSubstitution(matched, before, after, UnscopedLine(href)) == UnscopedLine(href)
  {
    assert '$' !in UnscopedLine(href);
    SubstitutionOfLiteral(matched, before, after, UnscopedLine(href));
  }

  lemma TokenRefInert(matched: string, before: string, after: string, index: nat)
    ensures GetSubstitution(matched, before, after, TokenRef(index)) == TokenRef(index)
  {
    var t := TokenRef(index);
    var digits := NatToString(index);
    assert '$' !in digits by {
      forall i | 0 <= i < |digits| ensures digits[i] != '$' {
        assert IsDigit(digits[i]);
      }
    }
    assert t[1..] == "BUN_AUTH_TOKEN" + (if index > 0 then "_" + digits else "");
    assert '$' !in t[1..];
    SubstitutionOfPlainDollar(matched, before, after, t);
    SubstitutionOfLiteral(matched, before, after, t[1..]);
    assert t == [t[0]] + t[1..];
  }

  lemma TokenFieldInert(matched: string, before: string, after: string, index: nat)
    ensures GetSubstitution(matched, before, after, TokenField(true, index)) == TokenField(true, index)
  {
    var ref := TokenRef(index);
    TokenRefInert(matched, before, after, index);
    assert ref[|ref| - 1] != '$' by {
      if index > 0 {
        var digits := NatToString(index);
        assert ref[|ref| - 1] == digits[|digits| - 1];
        assert IsDigit(digits[|digits| - 1]);
      }
    }
    SubstitutionOfLiteral(matched, before, after, "token = \"");
    SubstitutionOfLiteral(matched, before, after, "\", ");
    SubstitutionOfConcat(matched, before, after, "token = \"", ref);
    SubstitutionOfConcat(matched, before, after, "token = \"" + ref, "\", ");
  }

  lemma MiddleInert(matched: string, before: string, after: string, tokenEnabled: bool, index: nat)
    ensures GetSubstitution(matched, before, after, ScopedLineMiddle(tokenEnabled, index))
         == ScopedLineMiddle(tokenEnabled, index)
  {
    var field := TokenField(tokenEnabled, index);
    if tokenEnabled {
      TokenFieldInert(matched, before, after, index);
    } else {
      SubstitutionOfLiteral(matched, before, after, field);
    }
    SubstitutionOfLiteral(matched, before, after, "\" = { ");
    SubstitutionOfLiteral(matched, before, after, "url = \"");
    SubstitutionOfConcat(matched, before, after, "\" = { ", field);
    var x := "\" = { " + field;
    assert x[|x| - 1] == ' ';
    SubstitutionOfConcat(matched, before, after, x, "url = \"");
  }

  lemma ScopedLineInert(matched: string, before: string, after: string,
                        owner: string, tokenEnabled: bool, index: nat, href: string)
    requires '$' !in owner && '$' !in href
    ensures GetSubstitution(matched, before, after, ScopedLine(owner, tokenEnabled, index, href))
         == ScopedLine(owner, tokenEnabled, index, href)
  {
    var middle := ScopedLineMiddle(tokenEnabled, index);
    MiddleFacts(tokenEnabled, index);
    MiddleInert(matched, before, after, tokenEnabled, index);
    var x1 := "\"" + owner;
    assert '$' !in x1;
    SubstitutionOfLiteral(matched, before, after, x1);
    SubstitutionOfLiteral(matched, before, after, href);
    SubstitutionOfLiteral(matched, before, after, "\" }");
    SubstitutionOfConcat(matched, before, after, x1, middle);
    var x2 := x1 + middle;
    assert x2[|x2| - 1] == '"';
    SubstitutionOfConcat(matched, before, after, x2, href);
    var x3 := x2 + href;
    assert x3[|x3| - 1] != '$' by {
      if |href| > 0 { assert x3[|x3| - 1] == href[|href| - 1]; }
    }
    SubstitutionOfConcat(matched, before, after, x3, "\" }");
  }

  // ---------------------------------------------------------------------------
  // One iteration
  // ---------------------------------------------------------------------------

  /** Every cell that can stand before slot k in a stage is free of the marker at k. */
  lemma LinesFree(entries: seq<Entry>, parseUrl: string -> Option<string>, pat: string, off: nat, i: nat)
    requires i < |entries| && NoMarkerText(entries, parseUrl)
    requires MarkerLike(pat) && off + 7 <= |pat| && pat[off..off + 7] == "scoped_"
    ensures Free(UnscopedLines(entries, parseUrl)[i], pat)
    ensures Free(ScopedLines(entries, parseUrl)[i], pat)
  {
    FixedTextFree("", pat);
    var e := entries[i];
    if e.registryUrl != "" {
      FreeOfFragment(Href(e, parseUrl), "scoped_", pat, off);
      FreeOfFragment(NormaliseScope(e.scope), "scoped_", pat, off);
      UnscopedLineFree(Href(e, parseUrl), pat);
      ScopedLineFree(NormaliseScope(e.scope), e.tokenEnabled, i, Href(e, parseUrl), pat);
    }
  }

  lemma HeaderFacts(entries: seq<Entry>, eol: string, h1: string)
    requires IsEol(eol) && IsInstallHeader(h1, eol)
    ensures 'd' !in h1 && (h1 == "" || EndsInBreak(h1))
    ensures 'd' !in ScopesHeader(entries, eol)
    ensures ScopesHeader(entries, eol) == "" || EndsInBreak(ScopesHeader(entries, eol))
  {
    EolFacts(eol);
  }

  /** Slot k is the only cell that changes in iteration k. */
  lemma MixStep(markers: seq<string>, lines: seq<string>, k: nat)
    requires k < |markers| == |lines|
    ensures Mix(markers, lines, k)[..k] == Mix(markers, lines, k + 1)[..k]
    ensures Mix(markers, lines, k)[k + 1..] == Mix(markers, lines, k + 1)[k + 1..]
    ensures Mix(markers, lines, k)[k] == markers[k] && Mix(markers, lines, k + 1)[k] == lines[k]
  {
  }

  /** Before the loop every slot holds its marker; after it, its line. */
  lemma MixEnds(markers: seq<string>, lines: seq<string>)
    requires |markers| == |lines|
    ensures Mix(markers, lines, 0) == markers
    ensures Mix(markers, lines, |markers|) == lines
  {
  }

  /** A slot whose marker and line are both empty does not change. */
  lemma MixSame(markers: seq<string>, lines: seq<string>, k: nat)
    requires k < |markers| == |lines| && markers[k] == lines[k]
    ensures Mix(markers, lines, k + 1) == Mix(markers, lines, k)
  {
  }

  /** Two lists of cells that differ only at k join to the same text around slot k. */
  lemma SlotSplit(cells: seq<string>, cells': seq<string>, k: nat, sep: string) returns (x: string, y: string)
    requires k < |cells| == |cells'|
    requires cells[..k] == cells'[..k] && cells[k + 1..] == cells'[k + 1..]
    ensures x == Join(cells[..k], sep) + (if k > 0 then sep else "")
    ensures Join(cells, sep) == x + cells[k] + y
    ensures Join(cells', sep) == x + cells'[k] + y
  {
    JoinAround(cells, k, sep);
    JoinAround(cells', k, sep);
    x := Join(cells[..k], sep) + (if k > 0 then sep else "");
    y := (if k + 1 < |cells| then sep else "") + Join(cells[k + 1..], sep);
  }

  /** The text in front of slot k holds no occurrence of the marker, and its
      last character, if any, is a line break. */
  lemma PrefixFree(h: string, cells: seq<string>, k: nat, eol: string, pat: string)
    requires k <= |cells| && IsEol(eol) && MarkerLike(pat)
    requires Free(h, pat) && (h == [] || EndsInBreak(h))
    requires forall i :: 0 <= i < k ==> Free(cells[i], pat)
    ensures Free(h + Join(cells[..k], eol) + (if k > 0 then eol else ""), pat)
    ensures var a := h + Join(cells[..k], eol) + (if k > 0 then eol else "");
            a == [] || a[|a| - 1] !in pat
  {
    EolFacts(eol);
    if k == 0 {
      assert h + Join(cells[..k], eol) + "" == h;
    } else {
      var front := cells[..k];
      assert forall i :: 0 <= i < |front| ==> Free(front[i], pat);
      JoinFree(front, eol, pat);
      AppendFree(h, Join(front, eol), pat);
      BreaksFree(eol, pat);
      AppendFree(h + Join(front, eol), eol, pat);
      var a := h + Join(front, eol) + eol;
      assert a[|a| - 1] == eol[|eol| - 1];
    }
  }

  /** Regrouping lemmas: each states one reassociation of a concatenation, so
      that the proofs that use it need not search for it among many terms. */
  lemma Associate(x: string, y: string, z: string)
    ensures x + y + z == x + (y + z)
  {
  }

  lemma Regroup(p: string, x: string, m: string, y: string, q: string)
    ensures p + (x + m + y) + q == (p + x) + m + (y + q)
  {
  }

  lemma LayoutTail(h1: string, unscoped: seq<string>, h2: string, scoped: seq<string>, eol: string)
    ensures Layout(h1, unscoped, h2, scoped, eol) == h1 + Join(unscoped, eol) + ("\n" + h2 + Join(scoped, eol) + "\n")
  {
  }

  /** Splits a layout around slot k of the unscoped section. */
  lemma UnscopedSlot(h1: string, cells: seq<string>, cells': seq<string>, h2: string, scoped: seq<string>,
                     eol: string, k: nat) returns (a: string, b: string)
    requires k < |cells| == |cells'|
    requires cells[..k] == cells'[..k] && cells[k + 1..] == cells'[k + 1..]
    ensures a == h1 + Join(cells[..k], eol) + (if k > 0 then eol else "")
    ensures Layout(h1, cells, h2, scoped, eol) == a + cells[k] + b
    ensures Layout(h1, cells', h2, scoped, eol) == a + cells'[k] + b
  {
    var x, y := SlotSplit(cells, cells', k, eol);
    var tail := "\n" + h2 + Join(scoped, eol) + "\n";
    a, b := h1 + x, y + tail;
    LayoutTail(h1, cells, h2, scoped, eol);
    LayoutTail(h1, cells', h2, scoped, eol);
    Regroup(h1, x, cells[k], y, tail);
    Regroup(h1, x, cells'[k], y, tail);
  }

  /** Splits a layout around slot k of the scoped section. */
  lemma ScopedSlot(h1: string, unscoped: seq<string>, h2: string, cells: seq<string>, cells': seq<string>,
                   eol: string, k: nat) returns (a: string, b: string)
    requires k < |cells| == |cells'|
    requires cells[..k] == cells'[..k] && cells[k + 1..] == cells'[k + 1..]
    ensures a == h1 + Join(unscoped, eol) + "\n" + h2 + Join(cells[..k], eol) + (if k > 0 then eol else "")
    ensures Layout(h1, unscoped, h2, cells, eol) == a + cells[k] + b
    ensures Layout(h1, unscoped, h2, cells', eol) == a + cells'[k] + b
  {
    var x, y := SlotSplit(cells, cells', k, eol);
    var top := h1 + Join(unscoped, eol) + "\n" + h2;
    a, b := top + x, y + "\n";
    Regroup(top, x, cells[k], y, "\n");
    Regroup(top, x, cells'[k], y, "\n");
  }

  lemma UnscopedStep(entries: seq<Entry>, parseUrl: string -> Option<string>, eol: string, h1: string, k: nat)
    requires k < |entries| && IsUnscoped(entries[k])
    requires IsEol(eol) && IsInstallHeader(h1, eol)
    requires UrlsParse(entries, parseUrl) && Unambiguous(entries, parseUrl)
    ensures Step(Stage(entries, parseUrl, eol, h1, k), entries[k], k, parseUrl)
         == Success(Stage(entries, parseUrl, eol, h1, k + 1))
  {
    var markers, lines := UnscopedMarkers(entries), UnscopedLines(entries, parseUrl);
    var cells := Mix(markers, lines, k);
    MixStep(markers, lines, k);
    MixSame(ScopedMarkers(entries), ScopedLines(entries, parseUrl), k);
    var a, b := UnscopedSlot(h1, cells, Mix(markers, lines, k + 1), ScopesHeader(entries, eol),
                             Mix(ScopedMarkers(entries), ScopedLines(entries, parseUrl), k), eol, k);
    var pat, line := UnscopedMarker(k), UnscopedLine(Href(entries[k], parseUrl));
    MarkersAreMarkerLike(k);
    HeaderFacts(entries, eol, h1);
    FixedTextFree(h1, pat);
    UnambiguousHasNoMarkerText(entries, parseUrl);
    forall i | 0 <= i < k
      ensures Free(cells[i], pat)
    {
      LinesFree(entries, parseUrl, pat, 2, i);
    }
    PrefixFree(h1, cells, k, eol, pat);
    UnscopedLineInert(pat, a, b, Href(entries[k], parseUrl));
    ReplaceFirstAt(a, pat, b, line);
  }

  /** A section with a header, cells joined by line breaks, and a closing text
      that starts with a line break, all free of the marker. */
  lemma SectionFree(h: string, cells: seq<string>, eol: string, close: string, pat: string)
    requires MarkerLike(pat) && IsEol(eol)
    requires Free(h, pat) && (h == "" || EndsInBreak(h))
    requires forall i :: 0 <= i < |cells| ==> Free(cells[i], pat)
    requires 'd' !in close && |close| > 0 && IsLineBreak(close[0])
    ensures Free(h + Join(cells, eol) + close, pat)
  {
    EolFacts(eol);
    JoinFree(cells, eol, pat);
    FixedTextFree(close, pat);
    AppendFree(h, Join(cells, eol), pat);
    AppendFree(h + Join(cells, eol), close, pat);
  }

  /** While slot k of the scoped section is filled, no unscoped cell holds the
      scoped marker at k: the lines are verbatim and the unscoped markers carry
      other indices below ten. */
  lemma UnscopedCellsFree(entries: seq<Entry>, parseUrl: string -> Option<string>, k: nat)
    requires k < |entries| && IsScoped(entries[k])
    requires Unambiguous(entries, parseUrl)
    ensures forall i :: 0 <= i < |entries| ==>
      Free(Mix(UnscopedMarkers(entries), UnscopedLines(entries, parseUrl), k)[i], ScopedMarker(k))
  {
    var pat := ScopedMarker(k);
    var markers, lines := UnscopedMarkers(entries), UnscopedLines(entries, parseUrl);
    MarkersAreMarkerLike(k);
    UnambiguousHasNoMarkerText(entries, parseUrl);
    UnscopedLinesFree(entries, parseUrl, k, pat);
    UnscopedMarkersAboveFree(entries, k);
    MixFree(markers, lines, k, pat);
  }

  /** The unscoped lines below k are free of the scoped marker at k. */
  lemma UnscopedLinesFree(entries: seq<Entry>, parseUrl: string -> Option<string>, k: nat, pat: string)
    requires k < |entries| && NoMarkerText(entries, parseUrl)
    requires pat == ScopedMarker(k) && MarkerLike(pat) && pat[..7] == "scoped_"
    ensures forall i :: 0 <= i < k ==> Free(UnscopedLines(entries, parseUrl)[i], pat)
  {
    forall i | 0 <= i < k
      ensures Free(UnscopedLines(entries, parseUrl)[i], pat)
    {
      LinesFree(entries, parseUrl, pat, 0, i);
    }
  }

  /** The unscoped markers at or above k are free of the scoped marker at k. */
  lemma UnscopedMarkersAboveFree(entries: seq<Entry>, k: nat)
    requires k < |entries| <= 10 && IsScoped(entries[k])
    ensures forall i :: k <= i < |entries| ==> Free(UnscopedMarkers(entries)[i], ScopedMarker(k))
  {
    var pat := ScopedMarker(k);
    MarkersAreMarkerLike(k);
    forall i | k <= i < |entries|
      ensures Free(UnscopedMarkers(entries)[i], pat)
    {
      if IsUnscoped(entries[i]) {
        DistinctMarkersFree(i, k);
      } else {
        FixedTextFree("", pat);
      }
    }
  }

  /** Mixing cells free of a pattern gives cells free of it. */
  lemma MixFree(markers: seq<string>, lines: seq<string>, k: nat, pat: string)
    requires |markers| == |lines|
    requires forall i :: 0 <= i < k && i < |lines| ==> Free(lines[i], pat)
    requires forall i :: k <= i < |markers| ==> Free(markers[i], pat)
    ensures forall i :: 0 <= i < |markers| ==> Free(Mix(markers, lines, k)[i], pat)
  {
  }

  /** Everything in front of the scoped section is free of the scoped marker at k. */
  lemma UnscopedSectionFree(entries: seq<Entry>, parseUrl: string -> Option<string>, eol: string, h1: string, k: nat)
    requires k < |entries| && IsScoped(entries[k])
    requires IsEol(eol) && IsInstallHeader(h1, eol)
    requires Unambiguous(entries, parseUrl)
    ensures var top := h1 + Join(Mix(UnscopedMarkers(entries), UnscopedLines(entries, parseUrl), k), eol)
                       + "\n" + ScopesHeader(entries, eol);
            Free(top, ScopedMarker(k)) && EndsInBreak(top)
  {
    var pat := ScopedMarker(k);
    var unscoped := Mix(UnscopedMarkers(entries), UnscopedLines(entries, parseUrl), k);
    var h2 := ScopesHeader(entries, eol);
    var close := "\n" + h2;
    HeaderFacts(entries, eol, h1);
    assert h2 != "";
    assert Free(h1 + Join(unscoped, eol) + close, pat) by {
      MarkersAreMarkerLike(k);
      UnscopedCellsFree(entries, parseUrl, k);
      assert 'd' !in close;
      FixedTextFree(h1, pat);
      SectionFree(h1, unscoped, eol, close, pat);
    }
    Associate(h1 + Join(unscoped, eol), "\n", h2);
  }

  /** The owner lines already in the scoped section are free of the scoped marker at k. */
  lemma ScopedCellsFree(entries: seq<Entry>, parseUrl: string -> Option<string>, k: nat)
    requires k < |entries| && Unambiguous(entries, parseUrl)
    ensures var cells := Mix(ScopedMarkers(entries), ScopedLines(entries, parseUrl), k);
            forall i :: 0 <= i < k ==> Free(cells[i], ScopedMarker(k))
  {
    var cells := Mix(ScopedMarkers(entries), ScopedLines(entries, parseUrl), k);
    var pat := ScopedMarker(k);
    MarkersAreMarkerLike(k);
    UnambiguousHasNoMarkerText(entries, parseUrl);
    forall i | 0 <= i < k
      ensures Free(cells[i], pat)
    {
      LinesFree(entries, parseUrl, pat, 0, i);
    }
  }

  /** The text in front of the scoped marker at k is free of it. */
  lemma ScopedPrefixFree(entries: seq<Entry>, parseUrl: string -> Option<string>, eol: string, h1: string, k: nat)
    requires k < |entries| && IsScoped(entries[k])
    requires IsEol(eol) && IsInstallHeader(h1, eol)
    requires Unambiguous(entries, parseUrl)
    ensures var cells := Mix(ScopedMarkers(entries), ScopedLines(entries, parseUrl), k);
            var a := h1 + Join(Mix(UnscopedMarkers(entries), UnscopedLines(entries, parseUrl), k), eol)
                     + "\n" + ScopesHeader(entries, eol) + Join(cells[..k], eol) + (if k > 0 then eol else "");
            Free(a, ScopedMarker(k)) && (a == [] || a[|a| - 1] !in ScopedMarker(k))
  {
    var cells := Mix(ScopedMarkers(entries), ScopedLines(entries, parseUrl), k);
    MarkersAreMarkerLike(k);
    UnscopedSectionFree(entries, parseUrl, eol, h1, k);
    ScopedCellsFree(entries, parseUrl, k);
    var top := h1 + Join(Mix(UnscopedMarkers(entries), UnscopedLines(entries, parseUrl), k), eol)
               + "\n" + ScopesHeader(entries, eol);
    PrefixFree(top, cells, k, eol, ScopedMarker(k));
  }

  lemma ScopedStep(entries: seq<Entry>, parseUrl: string -> Option<string>, eol: string, h1: string, k: nat)
    requires k < |entries| && IsScoped(entries[k])
    requires IsEol(eol) && IsInstallHeader(h1, eol)
    requires UrlsParse(entries, parseUrl) && Unambiguous(entries, parseUrl)
    ensures Step(Stage(entries, parseUrl, eol, h1, k), entries[k], k, parseUrl)
         == Success(Stage(entries, parseUrl, eol, h1, k + 1))
  {
    var markers, lines := ScopedMarkers(entries), ScopedLines(entries, parseUrl);
    var cells := Mix(markers, lines, k);
    var unscoped := Mix(UnscopedMarkers(entries), UnscopedLines(entries, parseUrl), k);
    MixStep(markers, lines, k);
    MixSame(UnscopedMarkers(entries), UnscopedLines(entries, parseUrl), k);
    var h2 := ScopesHeader(entries, eol);
    var a, b := ScopedSlot(h1, unscoped, h2, cells, Mix(markers, lines, k + 1), eol, k);
    var e := entries[k];
    var pat := ScopedMarker(k);
    var line := ScopedLine(NormaliseScope(e.scope), e.tokenEnabled, k, Href(e, parseUrl));
    ScopedPrefixFree(entries, parseUrl, eol, h1, k);
    ScopedLineInert(pat, a, b, NormaliseScope(e.scope), e.tokenEnabled, k, Href(e, parseUrl));
    ReplaceFirstAt(a, pat, b, line);
  }

  lemma StepFillsSlot(entries: seq<Entry>, parseUrl: string -> Option<string>, eol: string, h1: string, k: nat)
    requires k < |entries|
    requires IsEol(eol) && IsInstallHeader(h1, eol)
    requires UrlsParse(entries, parseUrl) && Unambiguous(entries, parseUrl)
    ensures Step(Stage(entries, parseUrl, eol, h1, k), entries[k], k, parseUrl)
         == Success(Stage(entries, parseUrl, eol, h1, k + 1))
  {
    if IsUnscoped(entries[k]) {
      UnscopedStep(entries, parseUrl, eol, h1, k);
    } else if IsScoped(entries[k]) {
      ScopedStep(entries, parseUrl, eol, h1, k);
    } else {
      MixSame(UnscopedMarkers(entries), UnscopedLines(entries, parseUrl), k);
      MixSame(ScopedMarkers(entries), ScopedLines(entries, parseUrl), k);
    }
  }

  // ---------------------------------------------------------------------------
  // The whole loop
  // ---------------------------------------------------------------------------

  /** After k iterations every slot below k holds its own line and every other
      slot still holds its marker. */
  lemma {:induction false} SubstitutionFillsSlots(entries: seq<Entry>, parseUrl: string -> Option<string>,
                                                  eol: string, h1: string, k: nat)
    requires k <= |entries|
    requires IsEol(eol) && IsInstallHeader(h1, eol)
    requires UrlsParse(entries, parseUrl) && Unambiguous(entries, parseUrl)
    ensures SubstituteUpTo(entries, parseUrl, Skeleton(entries, eol, h1), k)
         == Success(Stage(entries, parseUrl, eol, h1, k))
    decreases k
  {
    var skeleton := Skeleton(entries, eol, h1);
    if k == 0 {
      assert SubstituteUpTo(entries, parseUrl, skeleton, 0) == Success(Stage(entries, parseUrl, eol, h1, 0)) by {
        StageZero(entries, parseUrl, eol, h1);
      }
    } else {
      assert SubstituteUpTo(entries, parseUrl, skeleton, k - 1) == Success(Stage(entries, parseUrl, eol, h1, k - 1)) by {
        SubstitutionFillsSlots(entries, parseUrl, eol, h1, k - 1);
      }
      SubstitutionStep(entries, parseUrl, eol, h1, k);
    }
  }

  /** Before the loop, the text is the skeleton. */
  lemma StageZero(entries: seq<Entry>, parseUrl: string -> Option<string>, eol: string, h1: string)
    ensures Stage(entries, parseUrl, eol, h1, 0) == Skeleton(entries, eol, h1)
  {
    MixEnds(UnscopedMarkers(entries), UnscopedLines(entries, parseUrl));
    MixEnds(ScopedMarkers(entries), ScopedLines(entries, parseUrl));
  }

  /** One more iteration fills one more slot. */
  lemma SubstitutionStep(entries: seq<Entry>, parseUrl: string -> Option<string>,
                         eol: string, h1: string, k: nat)
    requires 0 < k <= |entries|
    requires IsEol(eol) && IsInstallHeader(h1, eol)
    requires UrlsParse(entries, parseUrl) && Unambiguous(entries, parseUrl)
    requires SubstituteUpTo(entries, parseUrl, Skeleton(entries, eol, h1), k - 1)
          == Success(Stage(entries, parseUrl, eol, h1, k - 1))
    ensures SubstituteUpTo(entries, parseUrl, Skeleton(entries, eol, h1), k)
         == Success(Stage(entries, parseUrl, eol, h1, k))
  {
    var j := k - 1;
    var prev := Stage(entries, parseUrl, eol, h1, j);
    SubstituteNext(entries, parseUrl, Skeleton(entries, eol, h1), k, prev);
    assert Step(prev, entries[j], j, parseUrl) == Success(Stage(entries, parseUrl, eol, h1, j + 1)) by {
      StepFillsSlot(entries, parseUrl, eol, h1, j);
    }
  }

  /** The two-pass construction equals the direct rendering. */
  lemma BuildIsRender(entries: seq<Entry>, parseUrl: string -> Option<string>, eol: string, h1: string)
    requires |entries| > 0
    requires IsEol(eol) && IsInstallHeader(h1, eol)
    requires UrlsParse(entries, parseUrl) && Unambiguous(entries, parseUrl)
    ensures Build(entries, parseUrl, eol, h1) == Success(Some(Render(entries, parseUrl, eol, h1)))
  {
    var n := |entries|;
    SubstitutionFillsSlots(entries, parseUrl, eol, h1, n);
    MixEnds(UnscopedMarkers(entries), UnscopedLines(entries, parseUrl));
    MixEnds(ScopedMarkers(entries), ScopedLines(entries, parseUrl));
  }

  /** The entries `parseRegistryScopeTuple` yields, or none when it throws. */
  function ParsedEntries(options: BunfigOptions): seq<Entry> {
    match ParseTuples(options.registryUrls, options.scopes, options.token)
    case Success(entries) => entries
    case Failure(_) => []
  }

  /** For inputs that parse, every URL valid and nothing ambiguous, `createBunfig`
      returns the direct rendering: no `[install]` header (as written), the
      `registry = ...` lines of the unscoped entries in index order, then, if
      some entry is scoped, `[install.scopes]` and the owner lines in index
      order. With the intended guard the `[install]` header is back. */
  lemma BunfigIsRender(options: BunfigOptions, parseUrl: string -> Option<string>, eol: string)
    requires IsEol(eol)
    requires options.registryUrls != ""
    requires |Lines(options.registryUrls)| == |Lines(options.scopes)|
    requires UrlsParse(ParsedEntries(options), parseUrl) && Unambiguous(ParsedEntries(options), parseUrl)
    ensures Fragment(options, parseUrl, eol) == Success(Some(Render(ParsedEntries(options), parseUrl, eol, "")))
    ensures IntendedFragment(options, parseUrl, eol)
         == Success(Some(Render(ParsedEntries(options), parseUrl, eol,
                                IntendedInstallHeader(ParsedEntries(options), eol))))
  {
    var entries := ParsedEntries(options);
    InstallHeaderNeverEmitted(entries, eol);
    BuildIsRender(entries, parseUrl, eol, "");
    BuildIsRender(entries, parseUrl, eol, IntendedInstallHeader(entries, eol));
  }

  /** When no href or owner key holds marker text, the direct rendering holds
      none at all, so no `unscoped_<i>` or `scoped_<i>` survives in it, for any
      number of tuples and whatever `$` the hrefs hold. */
  lemma RenderLeavesNoMarker(entries: seq<Entry>, parseUrl: string -> Option<string>, eol: string, h1: string)
    requires IsEol(eol) && IsInstallHeader(h1, eol)
    requires NoMarkerText(entries, parseUrl)
    ensures Free(Render(entries, parseUrl, eol, h1), "scoped_")
    ensures forall i: nat :: Free(Render(entries, parseUrl, eol, h1), UnscopedMarker(i))
    ensures forall i: nat :: Free(Render(entries, parseUrl, eol, h1), ScopedMarker(i))
  {
    RenderFree(entries, parseUrl, eol, h1);
    NoMarkerIn(Render(entries, parseUrl, eol, h1));
  }

  /** The direct rendering writes every tuple's line verbatim, whatever its
      href and owner key hold, `$` included. */
  lemma RenderHoldsEveryLine(entries: seq<Entry>, parseUrl: string -> Option<string>, eol: string,
                             h1: string, i: nat)
    requires i < |entries|
    ensures IsUnscoped(entries[i]) ==>
      exists p: nat :: OccursAt(Render(entries, parseUrl, eol, h1), UnscopedLine(Href(entries[i], parseUrl)), p)
    ensures IsScoped(entries[i]) ==>
      exists p: nat :: OccursAt(Render(entries, parseUrl, eol, h1),
                                ScopedLine(NormaliseScope(entries[i].scope), entries[i].tokenEnabled, i,
                                           Href(entries[i], parseUrl)), p)
  {
    var us, ss := UnscopedLines(entries, parseUrl), ScopedLines(entries, parseUrl);
    var p, q := LayoutHoldsCells(h1, us, ScopesHeader(entries, eol), ss, eol, i);
    assert OccursAt(Render(entries, parseUrl, eol, h1), us[i], p);
    assert OccursAt(Render(entries, parseUrl, eol, h1), ss[i], q);
  }

  /** Cell k of either list occurs in the layout. */
  lemma LayoutHoldsCells(h1: string, us: seq<string>, h2: string, ss: seq<string>, eol: string, k: nat)
    returns (p: nat, q: nat)
    requires k < |us| && k < |ss|
    ensures OccursAt(Layout(h1, us, h2, ss, eol), us[k], p)
    ensures OccursAt(Layout(h1, us, h2, ss, eol), ss[k], q)
  {
    var j1, j2 := Join(us, eol), Join(ss, eol);
    var s := Layout(h1, us, h2, ss, eol);
    var p1 := OccursInJoin(us, k, eol);
    var q1 := OccursInJoin(ss, k, eol);
    assert s == h1 + j1 + ("\n" + h2 + j2 + "\n");
    OccursWithin(h1, j1, "\n" + h2 + j2 + "\n", us[k], p1);
    assert s == (h1 + j1 + "\n" + h2) + j2 + "\n";
    OccursWithin(h1 + j1 + "\n" + h2, j2, "\n", ss[k], q1);
    p, q := |h1| + p1, |h1 + j1 + "\n" + h2| + q1;
  }

  /** Every cell occurs in the join of its list. */
  lemma OccursInJoin(cells: seq<string>, k: nat, sep: string) returns (p: nat)
    requires k < |cells|
    ensures OccursAt(Join(cells, sep), cells[k], p)
  {
    JoinAround(cells, k, sep);
    var x := Join(cells[..k], sep) + (if k > 0 then sep else "");
    var z := (if k + 1 < |cells| then sep else "") + Join(cells[k + 1..], sep);
    assert Join(cells, sep) == x + cells[k] + z;
    OccursWithin(x, cells[k], z, cells[k], 0);
    p := |x|;
  }

  lemma OccursWithin(x: string, y: string, z: string, pat: string, p: nat)
    requires OccursAt(y, pat, p)
    ensures OccursAt(x + y + z, pat, |x| + p)
  {
    var s := x + y + z;
    assert s[|x| + p..|x| + p + |pat|] == y[p..p + |pat|];
  }

  /** A text without "scoped_" holds no marker of either kind. */
  lemma NoMarkerIn(t: string)
    requires Free(t, "scoped_")
    ensures forall i: nat :: Free(t, UnscopedMarker(i)) && Free(t, ScopedMarker(i))
  {
    forall i: nat
      ensures Free(t, UnscopedMarker(i)) && Free(t, ScopedMarker(i))
    {
      MarkersAreMarkerLike(i);
      FreeOfFragment(t, "scoped_", UnscopedMarker(i), 2);
      FreeOfFragment(t, "scoped_", ScopedMarker(i), 0);
    }
  }

  lemma RenderFree(entries: seq<Entry>, parseUrl: string -> Option<string>, eol: string, h1: string)
    requires IsEol(eol) && IsInstallHeader(h1, eol)
    requires NoMarkerText(entries, parseUrl)
    ensures Free(Render(entries, parseUrl, eol, h1), "scoped_")
  {
    var pat := "scoped_";
    var us, ss := UnscopedLines(entries, parseUrl), ScopedLines(entries, parseUrl);
    MarkersAreMarkerLike(0);
    forall i | 0 <= i < |entries|
      ensures Free(us[i], pat) && Free(ss[i], pat)
    {
      LinesFree(entries, parseUrl, pat, 0, i);
    }
    HeaderFacts(entries, eol, h1);
    LayoutFree(h1, us, ScopesHeader(entries, eol), ss, eol, pat);
  }

  /** A layout whose headers and cells are free of a marker-like pattern is free of it. */
  lemma LayoutFree(h1: string, us: seq<string>, h2: string, ss: seq<string>, eol: string, pat: string)
    requires MarkerLike(pat) && IsEol(eol)
    requires 'd' !in h1 && (h1 == "" || EndsInBreak(h1))
    requires 'd' !in h2 && (h2 == "" || EndsInBreak(h2))
    requires forall i :: 0 <= i < |us| ==> Free(us[i], pat)
    requires forall i :: 0 <= i < |ss| ==> Free(ss[i], pat)
    ensures Free(Layout(h1, us, h2, ss, eol), pat)
  {
    var close := "\n" + h2;
    var top := h1 + Join(us, eol) + close;
    assert Free(top, pat) && EndsInBreak(top) by {
      assert 'd' !in close;
      FixedTextFree(h1, pat);
      SectionFree(h1, us, eol, close, pat);
      assert top[|top| - 1] == close[|close| - 1];
    }
    SectionFree(top, ss, eol, "\n", pat);
    Associate(h1 + Join(us, eol), "\n", h2);
  }
}
