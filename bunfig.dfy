/** The bunfig.toml fragment builder: `parseRegistryScopeTuple` turns the three
    multi-line action inputs into index-aligned tuples, and `createBunfig`
    lays out a skeleton of section headers and `unscoped_<i>` / `scoped_<i>`
    markers, then replaces each marker, in index order, by the line rendered
    for that index.

    URL parsing (`new URL(raw).href`) is the parameter `parseUrl`: None where
    the constructor throws, else the serialised href. The platform line end
    `os.EOL` is the parameter `eol`. */
module Bunfig {
  import opened Wrappers
  import opened Strings
  import opened StringReplace

  // ---------------------------------------------------------------------------
  // Data
  // ---------------------------------------------------------------------------

  /** The three optional inputs; an absent input is the empty string, which the
      code treats alike (both are falsy). */
  datatype BunfigOptions = BunfigOptions(registryUrls: string, scopes: string, token: string)

  /** One zipped tuple: the registry line, the scope line at the same index and
      the token flag (an index past the end of the flag list reads as false). */
  datatype Entry = Entry(registryUrl: string, scope: string, tokenEnabled: bool)

  /** The two errors the code throws; `Message` is the text each is thrown with. */
  datatype Error = LengthMismatch | InvalidRegistryUrl(raw: string)
  {
    function Message(): string {
      match this
      case LengthMismatch => "Registires and Scopes must match length"
      case InvalidRegistryUrl(raw) => "Invalid registry-url: " + raw
    }
  }

  // ---------------------------------------------------------------------------
  // parseRegistryScopeTuple
  // ---------------------------------------------------------------------------

  /** The elements pushed for one input: none when it is empty, else every
      piece between single CR or LF characters. */
  function Lines(s: string): (lines: seq<string>)
    ensures |lines| == 0 <==> s == ""
  {
    if s == "" then [] else Split(s)
  }

  function TokenFlags(lines: seq<string>): (flags: seq<bool>)
    ensures |flags| == |lines|
  {
    seq(|lines|, i requires 0 <= i < |lines| => lines[i] == "true")
  }

  /** `tokenEnabled[index]`, where reading past the end gives a falsy `undefined`. */
  function FlagAt(flags: seq<bool>, index: nat): bool {
    index < |flags| && flags[index]
  }

  function Zip(registries: seq<string>, scopes: seq<string>, flags: seq<bool>): (entries: seq<Entry>)
    requires |registries| == |scopes|
    ensures |entries| == |registries|
  {
    seq(|registries|, i requires 0 <= i < |registries| =>
      Entry(registries[i], scopes[i], FlagAt(flags, i)))
  }

  /** What `parseRegistryScopeTuple` returns or throws. */
  function ParseTuples(registryUrls: string, scopes: string, token: string): (r: Result<seq<Entry>, Error>)
    ensures r.Failure? <==> |Lines(registryUrls)| != |Lines(scopes)|
    ensures r.Failure? ==> r.error == LengthMismatch
    ensures r.Success? ==> |r.value| == |Lines(registryUrls)|
    ensures r.Success? ==> forall i :: 0 <= i < |r.value| ==>
      r.value[i].registryUrl == Lines(registryUrls)[i]
      && r.value[i].scope == Lines(scopes)[i]
      && (r.value[i].tokenEnabled <==> i < |Lines(token)| && Lines(token)[i] == "true")
  {
    var registries, scopeLines := Lines(registryUrls), Lines(scopes);
    if |registries| != |scopeLines| then Failure(LengthMismatch)
    else Success(Zip(registries, scopeLines, TokenFlags(Lines(token))))
  }

  /** The tuples the code evidently means to build: with no scope input at all,
      every registry line stands alone, as if its scope line were empty. */
  function IntendedParseTuples(registryUrls: string, scopes: string, token: string)
    : (r: Result<seq<Entry>, Error>)
    ensures scopes != "" ==> r == ParseTuples(registryUrls, scopes, token)
    ensures scopes == "" ==> r.Success? && |r.value| == |Lines(registryUrls)|
    ensures scopes == "" ==> forall i :: 0 <= i < |r.value| ==>
      r.value[i].registryUrl == Lines(registryUrls)[i]
      && r.value[i].scope == ""
      && (r.value[i].tokenEnabled <==> i < |Lines(token)| && Lines(token)[i] == "true")
  {
    if scopes == "" then
      var registries := Lines(registryUrls);
      Success(Zip(registries, seq(|registries|, _ => ""), TokenFlags(Lines(token))))
    else ParseTuples(registryUrls, scopes, token)
  }

  method ParseRegistryScopeTuple(registryUrl: string, scope: string, token: string)
    returns (r: Result<seq<Entry>, Error>)
    ensures r == ParseTuples(registryUrl, scope, token)
  {
    var registries: seq<string> := [];
    if registryUrl != "" {
      var lines := Split(registryUrl);
      for i := 0 to |lines|
        invariant registries == lines[..i]
      {
        registries := registries + [lines[i]];
      }
      assert lines[..|lines|] == lines;
    }

    var scopes: seq<string> := [];
    if scope != "" {
      var lines := Split(scope);
      for i := 0 to |lines|
        invariant scopes == lines[..i]
      {
        scopes := scopes + [lines[i]];
      }
      assert lines[..|lines|] == lines;
    }

    var tokenEnabled: seq<bool> := [];
    if token != "" {
      var lines := Split(token);
      for i := 0 to |lines|
        invariant tokenEnabled == TokenFlags(lines[..i])
      {
        tokenEnabled := tokenEnabled + [lines[i] == "true"];
      }
      assert lines[..|lines|] == lines;
    }

    if |registries| != |scopes| {
      return Failure(LengthMismatch);
    }
    return Success(Zip(registries, scopes, tokenEnabled));
  }

  // ---------------------------------------------------------------------------
  // First pass: the skeleton
  // ---------------------------------------------------------------------------

  predicate IsUnscoped(e: Entry) {
    e.registryUrl != "" && e.scope == ""
  }

  predicate IsScoped(e: Entry) {
    e.registryUrl != "" && e.scope != ""
  }

  /** The `[install]` header under its guard as written, `pair[0] && !pair[0]`. */
  function InstallHeader(entries: seq<Entry>, eol: string): string {
    if exists i :: 0 <= i < |entries| && entries[i].registryUrl != "" && !(entries[i].registryUrl != "")
    then "[install]" + eol
    else ""
  }

  /** The `[install]` header under the guard the code evidently means,
      `pair[0] && !pair[1]`: some entry is unscoped. */
  function IntendedInstallHeader(entries: seq<Entry>, eol: string): (h: string)
    ensures h != "" <==> exists i :: 0 <= i < |entries| && IsUnscoped(entries[i])
  {
    if exists i :: 0 <= i < |entries| && IsUnscoped(entries[i]) then "[install]" + eol else ""
  }

  function ScopesHeader(entries: seq<Entry>, eol: string): (h: string)
    ensures h != "" <==> exists i :: 0 <= i < |entries| && IsScoped(entries[i])
  {
    if exists i :: 0 <= i < |entries| && IsScoped(entries[i]) then "[install.scopes]" + eol else ""
  }

  function UnscopedMarker(index: nat): string {
    "unscoped_" + NatToString(index)
  }

  function ScopedMarker(index: nat): string {
    "scoped_" + NatToString(index)
  }

  /** One cell per entry: its marker if it is unscoped, else "". */
  function UnscopedMarkers(entries: seq<Entry>): (cells: seq<string>)
    ensures |cells| == |entries|
  {
    seq(|entries|, i requires 0 <= i < |entries| =>
      if IsUnscoped(entries[i]) then UnscopedMarker(i) else "")
  }

  function ScopedMarkers(entries: seq<Entry>): (cells: seq<string>)
    ensures |cells| == |entries|
  {
    seq(|entries|, i requires 0 <= i < |entries| =>
      if IsScoped(entries[i]) then ScopedMarker(i) else "")
  }

  /** The template literal: each list of cells joined by `eol`, and each
      section closed by a hard-coded "\n". */
  function Layout(installHeader: string, unscoped: seq<string>, scopesHeader: string,
                  scoped: seq<string>, eol: string): string
  {
    installHeader + Join(unscoped, eol) + "\n" + scopesHeader + Join(scoped, eol) + "\n"
  }

  function Skeleton(entries: seq<Entry>, eol: string, installHeader: string): string {
    Layout(installHeader, UnscopedMarkers(entries), ScopesHeader(entries, eol), ScopedMarkers(entries), eol)
  }

  // ---------------------------------------------------------------------------
  // Second pass: rendering and substitution
  // ---------------------------------------------------------------------------

  /** The owner key: the scope lower-cased, with a leading '@' added when missing. */
  function NormaliseScope(scope: string): (owner: string)
    ensures |owner| > 0 && owner[0] == '@'
    ensures IsLowerCase(owner)
    ensures owner[1..] == Lower(if |scope| > 0 && scope[0] == '@' then scope[1..] else scope)
  {
    if |scope| > 0 && scope[0] == '@' then Lower(scope) else "@" + Lower(scope)
  }

  /** The environment variable a scoped entry's token is read from. */
  function TokenRef(index: nat): string {
    "$BUN_AUTH_TOKEN" + (if index > 0 then "_" + NatToString(index) else "")
  }

  function TokenField(tokenEnabled: bool, index: nat): string {
    if tokenEnabled then "token = \"" + TokenRef(index) + "\", " else ""
  }

  /** The text between the owner key and the href of a scoped line. */
  function ScopedLineMiddle(tokenEnabled: bool, index: nat): string {
    "\" = { " + TokenField(tokenEnabled, index) + "url = \""
  }

  function ScopedLine(owner: string, tokenEnabled: bool, index: nat, href: string): string {
    "\"" + owner + ScopedLineMiddle(tokenEnabled, index) + href + "\" }"
  }

  function UnscopedLine(href: string): string {
    "registry = \"" + href + "\""
  }

  /** One iteration of the substitution loop, on the text built so far. */
  function Step(s: string, e: Entry, index: nat, parseUrl: string -> Option<string>): Result<string, Error> {
    if e.registryUrl == "" then Success(s)
    else
      match parseUrl(e.registryUrl)
      case None => Failure(InvalidRegistryUrl(e.registryUrl))
      case Some(href) =>
        if e.scope != "" then
          Success(ReplaceFirst(s, ScopedMarker(index),
                               ScopedLine(NormaliseScope(e.scope), e.tokenEnabled, index, href)))
        else
          Success(ReplaceFirst(s, UnscopedMarker(index), UnscopedLine(href)))
  }

  /** The loop after its first k iterations: the text, or the first error thrown. */
  function SubstituteUpTo(entries: seq<Entry>, parseUrl: string -> Option<string>, skeleton: string, k: nat)
    : Result<string, Error>
    requires k <= |entries|
    decreases k
  {
    if k == 0 then Success(skeleton)
    else
      match SubstituteUpTo(entries, parseUrl, skeleton, k - 1)
      case Failure(e) => Failure(e)
      case Success(s) => Step(s, entries[k - 1], k - 1, parseUrl)
  }

  /** The loop's next iteration, after k - 1 that succeeded. */
  lemma SubstituteNext(entries: seq<Entry>, parseUrl: string -> Option<string>, skeleton: string, k: nat, prev: string)
    requires 0 < k <= |entries|
    requires SubstituteUpTo(entries, parseUrl, skeleton, k - 1) == Success(prev)
    ensures SubstituteUpTo(entries, parseUrl, skeleton, k) == Step(prev, entries[k - 1], k - 1, parseUrl)
  {
  }

  /** `createBunfig` after parsing, for a given `[install]` header rule. */
  function Build(entries: seq<Entry>, parseUrl: string -> Option<string>, eol: string, installHeader: string)
    : Result<Option<string>, Error>
  {
    if |entries| == 0 then Success(None)
    else
      match SubstituteUpTo(entries, parseUrl, Skeleton(entries, eol, installHeader), |entries|)
      case Failure(e) => Failure(e)
      case Success(s) => Success(Some(s))
  }

  /** What `createBunfig` returns or throws, as written. */
  function Fragment(options: BunfigOptions, parseUrl: string -> Option<string>, eol: string)
    : Result<Option<string>, Error>
  {
    match ParseTuples(options.registryUrls, options.scopes, options.token)
    case Failure(e) => Failure(e)
    case Success(entries) => Build(entries, parseUrl, eol, InstallHeader(entries, eol))
  }

  /** `createBunfig` as the code evidently means it: the `[install]` guard
      `pair[0] && !pair[1]`, and an empty scope input leaving every registry
      line unscoped. */
  function IntendedFragment(options: BunfigOptions, parseUrl: string -> Option<string>, eol: string)
    : Result<Option<string>, Error>
  {
    match IntendedParseTuples(options.registryUrls, options.scopes, options.token)
    case Failure(e) => Failure(e)
    case Success(entries) => Build(entries, parseUrl, eol, IntendedInstallHeader(entries, eol))
  }

  method CreateBunfig(options: BunfigOptions, parseUrl: string -> Option<string>, eol: string)
    returns (r: Result<Option<string>, Error>)
    ensures r == Fragment(options, parseUrl, eol)
  {
    var parsed := ParseRegistryScopeTuple(options.registryUrls, options.scopes, options.token);
    if parsed.Failure? {
      return Failure(parsed.error);
    }
    var tuples := parsed.value;
    if |tuples| == 0 {
      return Success(None);
    }
    var skeleton := Skeleton(tuples, eol, InstallHeader(tuples, eol));
    var bunfig := SubstituteEntries(tuples, parseUrl, skeleton);
    if bunfig.Failure? {
      return Failure(bunfig.error);
    }
    return Success(Some(bunfig.value));
  }

  /** The loop of `createBunfig`: one `replace` per entry with a registry, in
      index order, throwing on the first registry line that does not parse. */
  method SubstituteEntries(tuples: seq<Entry>, parseUrl: string -> Option<string>, skeleton: string)
    returns (r: Result<string, Error>)
    ensures r == SubstituteUpTo(tuples, parseUrl, skeleton, |tuples|)
  {
    var bunfig := skeleton;
    for index := 0 to |tuples|
      invariant SubstituteUpTo(tuples, parseUrl, skeleton, index) == Success(bunfig)
    {
      ghost var before := bunfig;
      var entry := tuples[index];
      var url: Option<string> := None;
      if entry.registryUrl != "" {
        url := parseUrl(entry.registryUrl);
        if url.None? {
          FailureIsFinal(tuples, parseUrl, skeleton, index + 1, |tuples|);
          return Failure(InvalidRegistryUrl(entry.registryUrl));
        }
      }
      var owner: Option<string> := None;
      if entry.scope != "" {
        owner := Some(NormaliseScope(entry.scope));
      }
      if url.Some? && owner.Some? {
        bunfig := ReplaceFirst(bunfig, ScopedMarker(index),
                               ScopedLine(owner.value, entry.tokenEnabled, index, url.value));
      }
      if url.Some? && owner.None? {
        bunfig := ReplaceFirst(bunfig, UnscopedMarker(index), UnscopedLine(url.value));
      }
      assert Step(before, entry, index, parseUrl) == Success(bunfig);
    }
    return Success(bunfig);
  }

  // ---------------------------------------------------------------------------
  // Errors and the empty case
  // ---------------------------------------------------------------------------

  /** Once an iteration has thrown, the loop's outcome is that error. */
  lemma {:induction false} FailureIsFinal(entries: seq<Entry>, parseUrl: string -> Option<string>,
                                          skeleton: string, k: nat, n: nat)
    requires k <= n <= |entries|
    requires SubstituteUpTo(entries, parseUrl, skeleton, k).Failure?
    ensures SubstituteUpTo(entries, parseUrl, skeleton, n) == SubstituteUpTo(entries, parseUrl, skeleton, k)
    decreases n
  {
    if n > k {
      FailureIsFinal(entries, parseUrl, skeleton, k, n - 1);
    }
  }

  predicate BadUrl(e: Entry, parseUrl: string -> Option<string>) {
    e.registryUrl != "" && parseUrl(e.registryUrl).None?
  }

  /** An iteration throws exactly on a non-empty registry line that does not
      parse, and the error names that line. */
  lemma StepFailsOnBadUrl(s: string, e: Entry, index: nat, parseUrl: string -> Option<string>)
    ensures Step(s, e, index, parseUrl).Failure? <==> BadUrl(e, parseUrl)
    ensures BadUrl(e, parseUrl) ==> Step(s, e, index, parseUrl) == Failure(InvalidRegistryUrl(e.registryUrl))
  {
  }

  /** The loop throws exactly when some entry below k has a bad registry line. */
  lemma {:induction false} SubstituteFailsIffBadUrl(entries: seq<Entry>, parseUrl: string -> Option<string>,
                                                    skeleton: string, k: nat)
    requires k <= |entries|
    ensures SubstituteUpTo(entries, parseUrl, skeleton, k).Success?
            <==> forall i :: 0 <= i < k ==> !BadUrl(entries[i], parseUrl)
    decreases k
  {
    if k > 0 {
      SubstituteFailsIffBadUrl(entries, parseUrl, skeleton, k - 1);
      var prev := SubstituteUpTo(entries, parseUrl, skeleton, k - 1);
      if prev.Success? {
        StepFailsOnBadUrl(prev.value, entries[k - 1], k - 1, parseUrl);
        assert SubstituteUpTo(entries, parseUrl, skeleton, k) == Step(prev.value, entries[k - 1], k - 1, parseUrl);
        if BadUrl(entries[k - 1], parseUrl) {
          assert SubstituteUpTo(entries, parseUrl, skeleton, k).Failure?;
        } else {
          assert SubstituteUpTo(entries, parseUrl, skeleton, k).Success?;
          assert forall i :: 0 <= i < k ==> !BadUrl(entries[i], parseUrl);
        }
      } else {
        assert SubstituteUpTo(entries, parseUrl, skeleton, k) == prev;
      }
    }
  }

  /** The error the loop throws names the first bad registry line. */
  lemma {:induction false} SubstituteStopsAtFirstBadUrl(entries: seq<Entry>, parseUrl: string -> Option<string>,
                                                        skeleton: string, k: nat, j: nat)
    requires j < k <= |entries|
    requires BadUrl(entries[j], parseUrl)
    requires forall i :: 0 <= i < j ==> !BadUrl(entries[i], parseUrl)
    ensures SubstituteUpTo(entries, parseUrl, skeleton, k) == Failure(InvalidRegistryUrl(entries[j].registryUrl))
    decreases k
  {
    var error := Failure(InvalidRegistryUrl(entries[j].registryUrl));
    if j == k - 1 {
      var prev := SubstituteUpTo(entries, parseUrl, skeleton, j);
      assert prev.Success? by {
        SubstituteFailsIffBadUrl(entries, parseUrl, skeleton, j);
      }
      SubstituteNext(entries, parseUrl, skeleton, k, prev.value);
      StepFailsOnBadUrl(prev.value, entries[j], j, parseUrl);
    } else {
      assert SubstituteUpTo(entries, parseUrl, skeleton, k - 1) == error by {
        SubstituteStopsAtFirstBadUrl(entries, parseUrl, skeleton, k - 1, j);
      }
    }
  }

  /** Registry and scope line counts that differ are fatal, and are the only
      cause of `LengthMismatch`. */
  lemma MismatchedLinesAreFatal(options: BunfigOptions, parseUrl: string -> Option<string>, eol: string)
    ensures Fragment(options, parseUrl, eol) == Failure(LengthMismatch)
            <==> |Lines(options.registryUrls)| != |Lines(options.scopes)|
    ensures |Lines(options.registryUrls)| != |Lines(options.scopes)|
            ==> Fragment(options, parseUrl, eol).Failure?
                && Fragment(options, parseUrl, eol).error.Message() == "Registires and Scopes must match length"
  {
    var parsed := ParseTuples(options.registryUrls, options.scopes, options.token);
    if parsed.Success? && |parsed.value| > 0 {
      var entries := parsed.value;
      var skeleton := Skeleton(entries, eol, InstallHeader(entries, eol));
      SubstituteFailsIffBadUrl(entries, parseUrl, skeleton, |entries|);
      if SubstituteUpTo(entries, parseUrl, skeleton, |entries|).Failure? {
        var j := FirstBadUrl(entries, parseUrl, |entries|);
        SubstituteStopsAtFirstBadUrl(entries, parseUrl, skeleton, |entries|, j);
      }
    }
  }

  /** An empty scope input has no lines at all, not one empty line, so a
      registry input of one or more lines next to it is a count mismatch. */
  lemma RegistryWithoutScopesIsMismatch(registryUrls: string, token: string,
                                        parseUrl: string -> Option<string>, eol: string)
    requires registryUrls != ""
    ensures Fragment(BunfigOptions(registryUrls, "", token), parseUrl, eol) == Failure(LengthMismatch)
  {
    assert |Lines(registryUrls)| > 0 && |Lines("")| == 0;
  }

  /** The index of the first bad registry line below k, when there is one. */
  lemma FirstBadUrl(entries: seq<Entry>, parseUrl: string -> Option<string>, k: nat) returns (j: nat)
    requires k <= |entries|
    requires exists i :: 0 <= i < k && BadUrl(entries[i], parseUrl)
    ensures j < k && BadUrl(entries[j], parseUrl)
    ensures forall i :: 0 <= i < j ==> !BadUrl(entries[i], parseUrl)
  {
    j := 0;
    while !BadUrl(entries[j], parseUrl)
      invariant j < k
      invariant forall i :: 0 <= i < j ==> !BadUrl(entries[i], parseUrl)
      decreases k - j
    {
      j := j + 1;
    }
  }

  /** Empty (or absent) registry and scope inputs give `null`, and nothing else does. */
  lemma NoEntriesGiveNull(options: BunfigOptions, parseUrl: string -> Option<string>, eol: string)
    ensures Fragment(options, parseUrl, eol) == Success(None)
            <==> options.registryUrls == "" && options.scopes == ""
  {
  }

  /** With matching line counts, a registry line that does not parse aborts the
      whole call with an error naming the first such line; no text is returned. */
  lemma InvalidUrlAborts(options: BunfigOptions, parseUrl: string -> Option<string>, eol: string, j: nat)
    requires |Lines(options.registryUrls)| == |Lines(options.scopes)|
    requires j < |Lines(options.registryUrls)|
    requires Lines(options.registryUrls)[j] != "" && parseUrl(Lines(options.registryUrls)[j]).None?
    requires forall i :: 0 <= i < j && Lines(options.registryUrls)[i] != ""
                         ==> parseUrl(Lines(options.registryUrls)[i]).Some?
    ensures Fragment(options, parseUrl, eol) == Failure(InvalidRegistryUrl(Lines(options.registryUrls)[j]))
    ensures Fragment(options, parseUrl, eol).error.Message() == "Invalid registry-url: " + Lines(options.registryUrls)[j]
  {
    var entries := ParseTuples(options.registryUrls, options.scopes, options.token).value;
    var skeleton := Skeleton(entries, eol, InstallHeader(entries, eol));
    assert BadUrl(entries[j], parseUrl);
    SubstituteStopsAtFirstBadUrl(entries, parseUrl, skeleton, |entries|, j);
  }

  /** With matching, non-zero line counts and every non-empty registry line
      parsing, the call returns a text. */
  lemma ValidUrlsGiveText(options: BunfigOptions, parseUrl: string -> Option<string>, eol: string)
    requires |Lines(options.registryUrls)| == |Lines(options.scopes)|
    requires options.registryUrls != ""
    requires forall i :: 0 <= i < |Lines(options.registryUrls)| && Lines(options.registryUrls)[i] != ""
                         ==> parseUrl(Lines(options.registryUrls)[i]).Some?
    ensures Fragment(options, parseUrl, eol).Success?
    ensures Fragment(options, parseUrl, eol).value.Some?
  {
    var entries := ParseTuples(options.registryUrls, options.scopes, options.token).value;
    var skeleton := Skeleton(entries, eol, InstallHeader(entries, eol));
    SubstituteFailsIffBadUrl(entries, parseUrl, skeleton, |entries|);
  }

  /** A tuple whose registry line is empty contributes nothing: its scope and
      token flag can be anything without changing the outcome. */
  lemma EmptyRegistryIgnored(entries: seq<Entry>, parseUrl: string -> Option<string>, eol: string,
                             h1: string, i: nat, scope: string, flag: bool)
    requires i < |entries| && entries[i].registryUrl == ""
    ensures var others := entries[i := Entry("", scope, flag)];
            && InstallHeader(others, eol) == InstallHeader(entries, eol)
            && IntendedInstallHeader(others, eol) == IntendedInstallHeader(entries, eol)
            && Build(others, parseUrl, eol, h1) == Build(entries, parseUrl, eol, h1)
  {
    var others := entries[i := Entry("", scope, flag)];
    assert forall j :: 0 <= j < |entries| ==>
      IsUnscoped(others[j]) == IsUnscoped(entries[j]) && IsScoped(others[j]) == IsScoped(entries[j]);
    assert UnscopedMarkers(others) == UnscopedMarkers(entries);
    assert ScopedMarkers(others) == ScopedMarkers(entries);
    assert ScopesHeader(others, eol) == ScopesHeader(entries, eol);
    assert IntendedInstallHeader(others, eol) == IntendedInstallHeader(entries, eol);
    var skeleton := Skeleton(entries, eol, h1);
    assert Skeleton(others, eol, h1) == skeleton;
    SameLoop(entries, others, parseUrl, skeleton, i, |entries|);
  }

  /** The loop runs alike over two tuple lists that differ only at an index
      whose registry line is empty in both. */
  lemma {:induction false} SameLoop(entries: seq<Entry>, others: seq<Entry>, parseUrl: string -> Option<string>,
                                    skeleton: string, i: nat, k: nat)
    requires |others| == |entries| && k <= |entries| && i < |entries|
    requires entries[i].registryUrl == "" && others[i].registryUrl == ""
    requires forall j :: 0 <= j < |entries| && j != i ==> others[j] == entries[j]
    ensures SubstituteUpTo(others, parseUrl, skeleton, k) == SubstituteUpTo(entries, parseUrl, skeleton, k)
    decreases k
  {
    if k > 0 {
      SameLoop(entries, others, parseUrl, skeleton, i, k - 1);
      match SubstituteUpTo(entries, parseUrl, skeleton, k - 1)
      case Failure(_) =>
      case Success(s) =>
        if k - 1 == i {
          assert Step(s, others[i], i, parseUrl) == Success(s) == Step(s, entries[i], i, parseUrl);
        } else {
          assert others[k - 1] == entries[k - 1];
        }
    }
  }

  /** A scoped line opens with the quoted owner key, closes with the quoted
      href, and right after the key holds the token field, naming the entry's
      own variable, exactly when the entry's token flag is set. */
  lemma ScopedLineShape(owner: string, tokenEnabled: bool, index: nat, href: string)
    ensures var line := ScopedLine(owner, tokenEnabled, index, href);
            var key := "\"" + owner + "\" = { ";
            var url := "url = \"" + href + "\" }";
            && |line| >= |key| + |url|
            && line[..|key|] == key
            && line[|line| - |url|..] == url
            && (OccursAt(line, "token = \"" + TokenRef(index) + "\", ", |key|) <==> tokenEnabled)
  {
    var line := ScopedLine(owner, tokenEnabled, index, href);
    var key := "\"" + owner + "\" = { ";
    var url := "url = \"" + href + "\" }";
    var field := TokenField(tokenEnabled, index);
    assert line == key + field + url;
    assert line[..|key|] == key;
    assert line[|line| - |url|..] == url;
    var token := "token = \"" + TokenRef(index) + "\", ";
    if tokenEnabled {
      assert field == token;
      assert line[|key|..|key| + |token|] == token;
    } else {
      assert line[|key|] == 'u';
      assert token[0] == 't';
    }
  }

  // ---------------------------------------------------------------------------
  // Headers, owners, token names
  // ---------------------------------------------------------------------------

  /** The `[install]` guard is a contradiction, so the header is never emitted,
      not even when some entry is unscoped. */
  lemma InstallHeaderNeverEmitted(entries: seq<Entry>, eol: string)
    ensures InstallHeader(entries, eol) == ""
  {
  }

  /** Normalising an owner key again changes nothing. */
  lemma NormaliseScopeIdempotent(scope: string)
    ensures NormaliseScope(NormaliseScope(scope)) == NormaliseScope(scope)
  {
    var owner := NormaliseScope(scope);
    assert Lower(owner) == owner;
  }

  lemma ScopeSpellingsAgree()
    ensures NormaliseScope("Foo") == "@foo"
    ensures NormaliseScope("foo") == "@foo"
    ensures NormaliseScope("@foo") == "@foo"
  {
    assert Lower("Foo") == "foo";
    assert Lower("foo") == "foo";
    assert Lower("@foo") == "@foo";
  }

  /** The token variable is `$BUN_AUTH_TOKEN` for index 0 and
      `$BUN_AUTH_TOKEN_<index>` otherwise: the suffix decodes to the entry's own
      index, so two entries never share a variable. */
  lemma {:induction false} TokenRefNamesIndex(index: nat)
    ensures |TokenRef(index)| >= 15 && TokenRef(index)[..15] == "$BUN_AUTH_TOKEN"
    ensures index == 0 <==> |TokenRef(index)| == 15
    ensures index > 0 ==>
      && TokenRef(index)[15] == '_'
      && (forall i :: 16 <= i < |TokenRef(index)| ==> IsDigit(TokenRef(index)[i]))
      && DecimalValue(TokenRef(index)[16..]) == index
  {
    if index > 0 {
      DecimalRoundTrip(index);
      assert TokenRef(index)[16..] == NatToString(index);
    }
  }

  lemma TokenRefInjective(i: nat, j: nat)
    requires TokenRef(i) == TokenRef(j)
    ensures i == j
  {
    TokenRefNamesIndex(i);
    TokenRefNamesIndex(j);
  }

  /** Entries at index 0 and 2 read `$BUN_AUTH_TOKEN` and `$BUN_AUTH_TOKEN_2`. */
  lemma TokenRefExamples()
    ensures TokenRef(0) == "$BUN_AUTH_TOKEN"
    ensures TokenRef(2) == "$BUN_AUTH_TOKEN_2"
  {
    assert NatToString(2) == "2";
  }

}
