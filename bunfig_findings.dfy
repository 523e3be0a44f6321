/** Inputs on which the two-pass construction of `createBunfig` departs from
    the fragment it evidently means to write. The intended fragment is
    `BunfigLayout.Render`; the construction equals it whenever
    `BunfigLayout.Unambiguous` holds (`BunfigLayout.BuildIsRender`). */
module BunfigFindings {
  import opened Wrappers
  import opened Strings
  import opened StringReplace
  import opened Bunfig
  import opened BunfigLayout

  // ---------------------------------------------------------------------------
  // A `$&` in an href is expanded by `replace`
  // ---------------------------------------------------------------------------

  /** `$&` in a replacement text stands for the matched pattern. */
  lemma AmpersandExpands(matched: string, before: string, after: string, head: string, tail: string)
    requires '$' !in head && '$' !in tail
    ensures GetSubstitution(matched, before, after, head + "$&" + tail) == head + matched + tail
  {
    var t := "$&" + tail;
    assert GetSubstitution(matched, before, after, t) == matched + tail by {
      SubstitutionHead(matched, before, after, t);
      assert t[2..] == tail;
      SubstitutionOfLiteral(matched, before, after, tail);
    }
    assert GetSubstitution(matched, before, after, head + t)
        == head + GetSubstitution(matched, before, after, t) by {
      SubstitutionOfLiteral(matched, before, after, head);
      assert head == [] || head[|head| - 1] != '$';
      SubstitutionOfConcat(matched, before, after, head, t);
    }
    assert head + "$&" + tail == head + t;
  }

  /** A single unscoped entry: the skeleton is its marker and two line ends,
      whatever the line end. */
  lemma OneUnscopedEntry(e: Entry, parseUrl: string -> Option<string>, eol: string)
    requires IsUnscoped(e)
    ensures Skeleton([e], eol, "") == UnscopedMarker(0) + "\n\n"
    ensures Render([e], parseUrl, eol, "") == UnscopedLine(Href(e, parseUrl)) + "\n\n"
  {
    var entries := [e];
    assert UnscopedMarkers(entries) == [UnscopedMarker(0)];
    assert ScopedMarkers(entries) == [""];
    assert UnscopedLines(entries, parseUrl) == [UnscopedLine(Href(e, parseUrl))];
    assert ScopedLines(entries, parseUrl) == [""];
    assert !IsScoped(entries[0]);
    assert ScopesHeader(entries, eol) == "";
  }

  /** With one entry, the loop is one call of `replace`. */
  lemma OneEntryBuild(e: Entry, parseUrl: string -> Option<string>, eol: string, href: string)
    requires IsUnscoped(e) && parseUrl(e.registryUrl) == Some(href)
    ensures Build([e], parseUrl, eol, "")
         == Success(Some(ReplaceFirst(Skeleton([e], eol, ""), UnscopedMarker(0), UnscopedLine(href))))
  {
    var skeleton := Skeleton([e], eol, "");
    assert SubstituteUpTo([e], parseUrl, skeleton, 1) == Step(skeleton, e, 0, parseUrl) by {
      assert SubstituteUpTo([e], parseUrl, skeleton, 0) == Success(skeleton);
    }
  }

  /** `replace` of a pattern the text starts with. */
  lemma ReplaceAtStart(pat: string, b: string, replacement: string)
    requires pat != ""
    ensures ReplaceFirst(pat + b, pat, replacement) == GetSubstitution(pat, "", b, replacement) + b
  {
    var g := GetSubstitution(pat, "", b, replacement);
    assert ReplaceFirst("" + pat + b, pat, replacement) == "" + g + b by {
      assert Free("", pat) by {
        forall p: nat
          ensures !OccursAt("", pat, p)
        {
        }
      }
      ReplaceFirstAt("", pat, b, replacement);
    }
    assert "" + pat + b == pat + b;
    assert "" + g + b == g + b;
  }

  /** `replace` of the marker by a registry line whose href holds `$&`
      writes the marker back in place of the `$&`. */
  lemma AmpersandLineReplaced(marker: string, p: string, q: string, after: string)
    requires marker != "" && '$' !in p && '$' !in q
    ensures ReplaceFirst(marker + after, marker, UnscopedLine(p + "$&" + q))
         == UnscopedLine(p + marker + q) + after
  {
    var open, close := "registry = \"", "\"";
    var head, tail := open + p, q + close;
    var line := UnscopedLine(p + "$&" + q);
    assert line == head + "$&" + tail by {
      Regroup(open, p, "$&", q, close);
    }
    ReplaceAtStart(marker, after, line);
    AmpersandExpands(marker, "", after, head, tail);
    Regroup(open, p, marker, q, close);
  }

  /** An href that holds `$&` (legal in a URL path): the registry line written
      has the marker `unscoped_0` in place of the `$&`. */
  lemma DollarPatternExpands(parseUrl: string -> Option<string>, url: string, p: string, q: string, eol: string)
    requires url != "" && parseUrl(url) == Some(p + "$&" + q)
    requires '$' !in p && '$' !in q
    ensures Build([Entry(url, "", false)], parseUrl, eol, "")
         == Success(Some(UnscopedLine(p + UnscopedMarker(0) + q) + "\n\n"))
    ensures Render([Entry(url, "", false)], parseUrl, eol, "") == UnscopedLine(p + "$&" + q) + "\n\n"
    ensures Build([Entry(url, "", false)], parseUrl, eol, "")
         != Success(Some(Render([Entry(url, "", false)], parseUrl, eol, "")))
  {
    var e := Entry(url, "", false);
    var marker := UnscopedMarker(0);
    OneUnscopedEntry(e, parseUrl, eol);
    OneEntryBuild(e, parseUrl, eol, p + "$&" + q);
    AmpersandLineReplaced(marker, p, q, "\n\n");
    assert |marker| > 2 by {
      assert marker == "unscoped_" + NatToString(0);
    }
    assert |UnscopedLine(p + marker + q)| != |UnscopedLine(p + "$&" + q)|;
  }

  // ---------------------------------------------------------------------------
  // One registry line and no scope input
  // ---------------------------------------------------------------------------

  /** A single unscoped entry renders as its line and two line ends, under any header. */
  lemma OneUnscopedRender(e: Entry, parseUrl: string -> Option<string>, eol: string, h1: string)
    requires IsUnscoped(e)
    ensures Render([e], parseUrl, eol, h1) == h1 + UnscopedLine(Href(e, parseUrl)) + "\n\n"
  {
    var entries := [e];
    assert UnscopedLines(entries, parseUrl) == [UnscopedLine(Href(e, parseUrl))];
    assert ScopedLines(entries, parseUrl) == [""];
    assert !IsScoped(entries[0]);
    assert ScopesHeader(entries, eol) == "";
  }

  /** One registry line with no scope input: the code throws the length
      mismatch, where it evidently means to write the `[install]` header and
      the registry line. */
  lemma OneRegistryWithoutScopes(url: string, token: string, parseUrl: string -> Option<string>,
                                 eol: string, href: string)
    requires url != "" && NoLineBreak(url) && IsEol(eol)
    requires parseUrl(url) == Some(href) && Verbatim(href)
    ensures Fragment(BunfigOptions(url, "", token), parseUrl, eol) == Failure(LengthMismatch)
    ensures IntendedFragment(BunfigOptions(url, "", token), parseUrl, eol)
         == Success(Some("[install]" + eol + UnscopedLine(href) + "\n\n"))
  {
    RegistryWithoutScopesIsMismatch(url, token, parseUrl, eol);
    assert Lines(url) == [url] by {
      SplitOfUnbrokenPrefix(url, "");
      assert url + "" == url;
    }
    var entries := IntendedParseTuples(url, "", token).value;
    var e := entries[0];
    assert entries == [e];
    assert IsUnscoped(e) && Href(e, parseUrl) == href;
    var h1 := "[install]" + eol;
    assert IntendedInstallHeader(entries, eol) == h1;
    assert Unambiguous(entries, parseUrl) by {
      assert NormaliseScope("") == "@";
      FreeWithoutChar("@", "scoped_", 's');
    }
    BuildIsRender(entries, parseUrl, eol, h1);
    OneUnscopedRender(e, parseUrl, eol, h1);
  }

  // ---------------------------------------------------------------------------
  // Eleven entries: "scoped_1" inside "unscoped_10"
  // ---------------------------------------------------------------------------

  /** The skeleton regrouped around the "scoped_1" inside "unscoped_10". */
  lemma ElevenSeam(front: string, eol: string, pat: string, rest: string)
    ensures "" + (front + eol + ("un" + pat + "0") + "" + "") + rest
         == (front + eol + "un") + pat + ("0" + rest)
  {
  }

  /** "scoped_1" is part of "unscoped_10". */
  lemma MarkerInsideMarker()
    ensures UnscopedMarker(10) == "un" + ScopedMarker(1) + "0"
  {
    assert NatToString(10) == "10";
    assert NatToString(1) == "1";
  }

  /** The text in front of the marker "unscoped_10", with its "un", holds no
      "scoped_1" and does not end in a character of it. */
  lemma ElevenFront(entries: seq<Entry>, eol: string)
    requires |entries| == 11 && IsEol(eol)
    requires forall i :: 0 <= i < 10 ==> !IsUnscoped(entries[i])
    ensures var a := Join(UnscopedMarkers(entries)[..10], eol) + eol + "un";
            Free(a, ScopedMarker(1)) && a[|a| - 1] !in ScopedMarker(1)
  {
    var pat := ScopedMarker(1);
    var um := UnscopedMarkers(entries);
    var x := Join(um[..10], eol) + eol;
    assert pat == "scoped_1" by {
      assert NatToString(1) == "1";
    }
    MarkersAreMarkerLike(1);
    assert Free(x, pat) && x[|x| - 1] !in pat by {
      forall i | 0 <= i < 10
        ensures Free(um[i], pat)
      {
        assert um[i] == "";
        FixedTextFree("", pat);
      }
      FixedTextFree("", pat);
      PrefixFree("", um, 10, eol, pat);
      assert "" + Join(um[..10], eol) + eol == x;
    }
    assert Free(x + "un", pat) by {
      FixedTextFree("un", pat);
      FreeConcat(x, "un", pat);
    }
    assert (x + "un")[|x| + 1] == 'n';
  }

  /** With eleven entries, the second one scoped and the eleventh unscoped,
      the second `replace` looks for "scoped_1" and finds it first inside
      "unscoped_10": the scoped line lands in the unscoped section, between
      "un" and "0", and the scoped section keeps its marker. */
  lemma ScopedMarkerInsideUnscoped(entries: seq<Entry>, parseUrl: string -> Option<string>, eol: string, href: string)
    requires |entries| == 11 && IsEol(eol)
    requires forall i :: 0 <= i < 11 && i != 1 && i != 10 ==> entries[i].registryUrl == ""
    requires IsScoped(entries[1]) && IsUnscoped(entries[10])
    requires parseUrl(entries[1].registryUrl) == Some(href)
    requires '$' !in href && '$' !in NormaliseScope(entries[1].scope)
    ensures var front := Join(UnscopedMarkers(entries)[..10], eol) + eol + "un";
            var line := ScopedLine(NormaliseScope(entries[1].scope), entries[1].tokenEnabled, 1, href);
            var rest := "0" + ("\n" + ScopesHeader(entries, eol) + Join(ScopedMarkers(entries), eol) + "\n");
            SubstituteUpTo(entries, parseUrl, Skeleton(entries, eol, ""), 2) == Success(front + line + rest)
  {
    var um, sm := UnscopedMarkers(entries), ScopedMarkers(entries);
    var pat := ScopedMarker(1);
    var tail := "\n" + ScopesHeader(entries, eol) + Join(sm, eol) + "\n";
    var front := Join(um[..10], eol) + eol + "un";
    var skeleton := Skeleton(entries, eol, "");
    assert skeleton == front + pat + ("0" + tail) by {
      LayoutTail("", um, ScopesHeader(entries, eol), sm, eol);
      JoinAround(um, 10, eol);
      assert um[11..] == [];
      assert um[10] == "un" + pat + "0" by {
        MarkerInsideMarker();
      }
      ElevenSeam(Join(um[..10], eol), eol, pat, tail);
    }
    assert SubstituteUpTo(entries, parseUrl, skeleton, 1) == Success(skeleton) by {
      assert SubstituteUpTo(entries, parseUrl, skeleton, 0) == Success(skeleton);
    }
    ElevenFront(entries, eol);
    ReplaceByScopedLine(front, pat, "0" + tail, NormaliseScope(entries[1].scope), entries[1].tokenEnabled, 1, href);
  }

  // ---------------------------------------------------------------------------
  // A scope spelled like a marker
  // ---------------------------------------------------------------------------

  /** The layout of two cells in the scopes section and none above it. */
  lemma TwoScopedLayout(h2: string, c0: string, c1: string, eol: string)
    ensures Layout("", ["", ""], h2, [c0, c1], eol) == (eol + "\n" + h2) + c0 + (eol + c1 + "\n")
  {
    assert Join(["", ""], eol) == eol by {
      assert ["", ""][1..] == [""];
    }
    assert Join([c0, c1], eol) == c0 + eol + c1 by {
      assert [c0, c1][1..] == [c1];
    }
  }

  /** Two scoped entries: the skeleton, with the scopes header between the
      empty unscoped cells and the scoped markers. */
  lemma TwoScopedSkeleton(e0: Entry, e1: Entry, eol: string)
    requires IsScoped(e0) && IsScoped(e1)
    ensures Skeleton([e0, e1], eol, "")
         == eol + "\n" + ("[install.scopes]" + eol) + ScopedMarker(0) + (eol + ScopedMarker(1) + "\n")
  {
    var entries := [e0, e1];
    assert UnscopedMarkers(entries) == ["", ""];
    assert ScopedMarkers(entries) == [ScopedMarker(0), ScopedMarker(1)];
    assert IsScoped(entries[0]);
    assert ScopesHeader(entries, eol) == "[install.scopes]" + eol;
    TwoScopedLayout("[install.scopes]" + eol, ScopedMarker(0), ScopedMarker(1), eol);
  }

  /** Two scoped entries: the fragment meant, with their lines in place of
      the markers. */
  lemma TwoScopedRender(e0: Entry, e1: Entry, parseUrl: string -> Option<string>, eol: string)
    requires IsScoped(e0) && IsScoped(e1)
    ensures Render([e0, e1], parseUrl, eol, "")
         == eol + "\n" + ("[install.scopes]" + eol)
            + ScopedLine(NormaliseScope(e0.scope), e0.tokenEnabled, 0, Href(e0, parseUrl))
            + (eol + ScopedLine(NormaliseScope(e1.scope), e1.tokenEnabled, 1, Href(e1, parseUrl)) + "\n")
  {
    var entries := [e0, e1];
    var lines := ScopedLines(entries, parseUrl);
    assert UnscopedLines(entries, parseUrl) == ["", ""];
    assert lines == [lines[0], lines[1]];
    assert IsScoped(entries[0]);
    assert ScopesHeader(entries, eol) == "[install.scopes]" + eol;
    TwoScopedLayout("[install.scopes]" + eol, lines[0], lines[1], eol);
  }

  /** With two entries, the loop is two calls of `replace`. */
  lemma TwoEntriesBuild(e0: Entry, e1: Entry, parseUrl: string -> Option<string>, eol: string, s1: string)
    requires Step(Skeleton([e0, e1], eol, ""), e0, 0, parseUrl) == Success(s1)
    ensures Build([e0, e1], parseUrl, eol, "") == match Step(s1, e1, 1, parseUrl)
      case Success(s) => Success(Some(s))
      case Failure(err) => Failure(err)
  {
    var skeleton := Skeleton([e0, e1], eol, "");
    assert SubstituteUpTo([e0, e1], parseUrl, skeleton, 1) == Success(s1) by {
      assert SubstituteUpTo([e0, e1], parseUrl, skeleton, 0) == Success(skeleton);
    }
  }

  /** `replace` of a marker by a scoped line, where the marker first occurs
      right after `a`. */
  lemma ReplaceByScopedLine(a: string, m: string, b: string,
                            owner: string, tokenEnabled: bool, index: nat, href: string)
    requires Free(a, m) && (a == [] || a[|a| - 1] !in m)
    requires '$' !in owner && '$' !in href
    ensures ReplaceFirst(a + m + b, m, ScopedLine(owner, tokenEnabled, index, href))
         == a + ScopedLine(owner, tokenEnabled, index, href) + b
  {
    ReplaceFirstAt(a, m, b, ScopedLine(owner, tokenEnabled, index, href));
    ScopedLineInert(m, a, b, owner, tokenEnabled, index, href);
  }

  /** The text above the scoped cells holds no marker, nor does it with the
      opening of an owner key after it. */
  lemma ScopesTopFree(eol: string)
    requires IsEol(eol)
    ensures var top := eol + "\n" + ("[install.scopes]" + eol);
            && Free(top, ScopedMarker(0)) && top[|top| - 1] !in ScopedMarker(0)
            && Free(top + "\"@", ScopedMarker(1)) && '@' !in ScopedMarker(1)
  {
    var top := eol + "\n" + ("[install.scopes]" + eol);
    assert 'd' !in top && 'd' !in top + "\"@" && top[|top| - 1] == '\n' by {
      EolFacts(eol);
      assert 'd' !in "[install.scopes]";
    }
    assert ScopedMarker(0) == "scoped_0" by {
      assert NatToString(0) == "0";
    }
    assert ScopedMarker(1) == "scoped_1" by {
      assert NatToString(1) == "1";
    }
    FreeWithoutChar(top, "scoped_0", 'd');
    FreeWithoutChar(top + "\"@", "scoped_1", 'd');
  }

  /** The owner keys of the scopes "scoped_1" and "b". */
  lemma OwnerKeys()
    ensures NormaliseScope("scoped_1") == "@" + ScopedMarker(1) == "@scoped_1"
    ensures ScopedMarker(1) == "scoped_1"
    ensures NormaliseScope("b") == "@b"
  {
    assert NatToString(1) == "1";
    assert Lower("scoped_1") == "scoped_1";
    assert Lower("b") == "b";
  }

  lemma OwnerKeyLiteral()
    ensures '$' !in "@scoped_1"
  {
  }

  /** A scoped line for the owner "@" + m, cut around m. */
  lemma OwnerSeam(top: string, m: string, middle: string, href: string, rest: string)
    ensures top + ("\"" + ("@" + m) + middle + href + "\" }") + rest
         == (top + "\"@") + m + (middle + href + "\" }" + rest)
  {
  }

  /** The output of the second `replace`, flattened. */
  lemma Flatten(a: string, l: string, r: string, e: string, m: string, n: string)
    ensures a + l + (r + (e + m + n)) == a + l + r + e + m + n
  {
  }

  /** The second `replace` looks for "scoped_1", finds it first inside the
      owner key "@scoped_1" written by the first entry, puts the second
      entry's line there, and leaves the marker "scoped_1" in the output. */
  lemma OwnerHoldsMarker(parseUrl: string -> Option<string>, url0: string, url1: string,
                         href0: string, href1: string, eol: string)
    requires url0 != "" && url1 != "" && IsEol(eol)
    requires parseUrl(url0) == Some(href0) && parseUrl(url1) == Some(href1)
    requires '$' !in href0 && '$' !in href1
    ensures var entries := [Entry(url0, "scoped_1", false), Entry(url1, "b", false)];
            var top := eol + "\n" + ("[install.scopes]" + eol);
            var line0 := ScopedLine("@scoped_1", false, 0, href0);
            var line1 := ScopedLine("@b", false, 1, href1);
            var rest0 := ScopedLineMiddle(false, 0) + href0 + "\" }";
            && Render(entries, parseUrl, eol, "") == top + line0 + (eol + line1 + "\n")
            && Build(entries, parseUrl, eol, "")
               == Success(Some(top + "\"@" + line1 + rest0 + eol + "scoped_1" + "\n"))
  {
    var e0, e1 := Entry(url0, "scoped_1", false), Entry(url1, "b", false);
    var m0, m1 := ScopedMarker(0), ScopedMarker(1);
    var top := eol + "\n" + ("[install.scopes]" + eol);
    var middle0 := ScopedLineMiddle(false, 0);
    OwnerKeys();
    OwnerKeyLiteral();
    ScopesTopFree(eol);
    var line0 := ScopedLine("@" + m1, false, 0, href0);
    var line1 := ScopedLine("@b", false, 1, href1);

    // The first replacement hits its own marker.
    var tail := eol + m1 + "\n";
    var s1 := top + line0 + tail;
    assert Step(Skeleton([e0, e1], eol, ""), e0, 0, parseUrl) == Success(s1) by {
      TwoScopedSkeleton(e0, e1, eol);
      ReplaceByScopedLine(top, m0, tail, "@" + m1, false, 0, href0);
    }

    // The second replacement hits the owner key.
    var a := top + "\"@";
    var b := middle0 + href0 + "\" }" + tail;
    assert s1 == a + m1 + b by {
      OwnerSeam(top, m1, middle0, href0, tail);
    }
    assert Step(s1, e1, 1, parseUrl) == Success(a + line1 + b) by {
      ReplaceByScopedLine(a, m1, b, "@b", false, 1, href1);
    }
    TwoEntriesBuild(e0, e1, parseUrl, eol, s1);
    Flatten(a, line1, middle0 + href0 + "\" }", eol, m1, "\n");
    assert Render([e0, e1], parseUrl, eol, "") == top + line0 + (eol + line1 + "\n") by {
      TwoScopedRender(e0, e1, parseUrl, eol);
      assert Href(e0, parseUrl) == href0 && Href(e1, parseUrl) == href1;
    }
  }
}
