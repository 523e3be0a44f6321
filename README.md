# setup-bun: the bunfig.toml fragment builder

This project models the part of the `setup-bun` GitHub action that writes
registry settings into `bunfig.toml`, Bun's configuration file. The logic is
in `src/bunfig.ts`, and the project is written in Dafny.

- **`parseRegistryScopeTuple`** reads the three multi-line action inputs:
  `registry-url`, `scope` and the token flags.
  - Each input is split at every single CR or LF.
  - The registry and scope lines must come in equal numbers, or it throws
    "Registires and Scopes must match length".
  - It zips the lines into tuples `(registryUrl, scope, tokenEnabled)`.
  - A missing token flag reads as false.
- **`createBunfig`** builds the fragment in two passes.
  - First it lays out a skeleton: an optional `[install]` header, the
    `unscoped_<i>` markers joined by `os.EOL`, a newline, an optional
    `[install.scopes]` header, the `scoped_<i>` markers joined by `os.EOL`,
    and a final newline.
  - Then it walks the tuples in index order:
    - a registry line that `new URL` rejects throws
      `Invalid registry-url: <line>`;
    - a scoped tuple replaces `scoped_<i>` with
      `"@owner" = { [token = "$BUN_AUTH_TOKEN[_<i>]", ]url = "<href>" }`;
    - an unscoped tuple replaces `unscoped_<i>` with `registry = "<href>"`.
  - Each replacement is one call to `String.prototype.replace` with a string
    pattern. That call replaces only the first occurrence and expands `$`
    patterns in the replacement text.
  - No tuples at all gives `null`.

The model has five modules:

- `Strings` models `split(/\r|\n/)`, `join`, decimal rendering of an index
  and lower-casing.
- `StringReplace` models `replace` with a string pattern: the first-occurrence
  search and the `GetSubstitution` expansion of ECMAScript, ECMA-262 section
  22.1.3.19.1.
- `Bunfig` models the two functions.
  - `ParseRegistryScopeTuple` and `CreateBunfig` are methods with the
    source's loops.
  - Each is proved equal to a specification function: `ParseTuples` and
    `Fragment`.
- `BunfigLayout` defines `Render`, the fragment written out directly with
  each line in its slot. It proves that the two-pass construction yields
  `Render` whenever `Unambiguous` holds. That condition is sufficient, not
  necessary: it means at most ten tuples, and no href or owner key holding
  `scoped_` or `$`.
- `BunfigFindings` exhibits the inputs on which the construction departs
  from `Render`.

Two parts of the environment are parameters of the model:

- URL parsing is the function parameter `parseUrl`. It returns None where
  `new URL` throws, and `Some(href)` otherwise.
- The platform line end `os.EOL` is the parameter `eol`.

Three behaviours of the code are easy to misread:

- The `[install]` guard is `pair[0] && !pair[0]`, so the header is never
  written. The guard the code evidently means is `pair[0] && !pair[1]`. See
  Findings.
- A registry input next to an empty scope input is a length mismatch. An
  empty input gives no lines, not one empty line
  (`Bunfig.RegistryWithoutScopesIsMismatch`). So one registry line with no
  scope input throws rather than writing a `registry = ...` line. See
  Findings.
- The code does not check the number of token flags. A missing flag reads
  as false.

## Model

| member | source | states |
|---|---|---|
| Strings.SplitCountsBreaks | src/bunfig.ts:18 | `split(/\r\|\n/)` yields one more element than there are CR and LF characters, so "" yields one element |
| Strings.SplitLinesHaveNoBreak | src/bunfig.ts:18 | no element of the split holds a CR or LF |
| Strings.SplitRoundTrip | src/bunfig.ts:18 | putting the consumed breaks back between the elements rebuilds the input |
| Strings.SplitInterleave | src/bunfig.ts:18 | splitting break-free lines joined by single breaks gives exactly those lines back |
| Strings.CrLfGivesEmptyElement | src/bunfig.ts:25 | "a\r\nb" splits into "a", "" and "b": CR LF is two breaks with an empty element between them |
| Strings.JoinAppend | src/bunfig.ts:64-68 | joining a concatenation is joining each part, with one separator between them exactly when both are non-empty |
| Strings.JoinAround | src/bunfig.ts:73-75 | in the joined text, cell k stands between the join of the cells before it and the join of the cells after it, with a separator on each side that has a neighbour |
| Strings.DecimalRoundTrip | src/bunfig.ts:66 | the decimal rendering of an index reads back as that index |
| Strings.NatToStringInjective | src/bunfig.ts:74 | different indices render differently, so the markers of different tuples differ |
| Strings.LowerIsIdempotent | src/bunfig.ts:93-95 | lower-cased text has no capital letter, and lower-casing it again changes nothing |
| StringReplace.IndexOf | src/bunfig.ts:99-100 | returns the first position where the pattern occurs, and None exactly when it occurs nowhere |
| StringReplace.SubstitutionOfLiteral | src/bunfig.ts:110-113 | a replacement text without `$` is inserted unchanged |
| StringReplace.SubstitutionOfConcat | src/bunfig.ts:101-105 | a replacement text that does not end in `$` expands independently of what follows it |
| StringReplace.SubstitutionOfPlainDollar | src/bunfig.ts:103 | a `$` followed by a character other than `$`, `&`, a backquote or a quote stands for itself |
| StringReplace.FirstOccurrence | src/bunfig.ts:99-100 | when the text before an occurrence holds no occurrence and does not end in a character of the pattern, that occurrence is the first |
| StringReplace.ReplaceFirstAt | src/bunfig.ts:110-113 | in that case `replace` puts the expanded replacement exactly where the pattern stood and keeps the rest |
| StringReplace.FreeOfFragment | src/bunfig.ts:99-100 | a text that does not hold a fragment does not hold any pattern containing that fragment |
| Bunfig.Lines | src/bunfig.ts:16-35 | an input contributes no lines exactly when it is empty |
| Bunfig.ParseTuples | src/bunfig.ts:37-45 | fails exactly when the registry and scope line counts differ, with the length-mismatch error. Otherwise tuple i holds registry line i and scope line i, and its flag is set exactly when token line i exists and is "true" |
| Bunfig.ParseRegistryScopeTuple | src/bunfig.ts:11-46 | the three split-and-push loops, the length check and the zip return what `ParseTuples` specifies |
| Bunfig.IntendedParseTuples | src/bunfig.ts:23-45 | the tuples the code evidently means. With a scope input they are those of `ParseTuples`. With none, there is one tuple per registry line, each unscoped, with its flag as before |
| Bunfig.RegistryWithoutScopesIsMismatch | src/bunfig.ts:24-39 | a non-empty registry input with an empty scope input always throws the length-mismatch error |
| Bunfig.ScopesHeader | src/bunfig.ts:69-72 | `[install.scopes]` is written exactly when some tuple has both a registry and a scope |
| Bunfig.IntendedInstallHeader | src/bunfig.ts:60-63 | under the intended guard, `[install]` is written exactly when some tuple has a registry and no scope |
| Bunfig.InstallHeaderNeverEmitted | src/bunfig.ts:61-63 | the guard as written, `pair[0] && !pair[0]`, never holds, so `[install]` is never written |
| Bunfig.NormaliseScope | src/bunfig.ts:91-96 | the owner key starts with `@`, has no capital letter, and after the `@` is the scope lower-cased, without the scope's own leading `@` if it has one |
| Bunfig.NormaliseScopeIdempotent | src/bunfig.ts:93-95 | normalising an owner key again leaves it unchanged |
| Bunfig.ScopeSpellingsAgree | src/bunfig.ts:93-95 | "Foo", "foo" and "@foo" give the same owner key "@foo" |
| Bunfig.TokenRefNamesIndex | src/bunfig.ts:103 | the token variable is `$BUN_AUTH_TOKEN` for index 0. For any other index it is `$BUN_AUTH_TOKEN_` followed by decimal digits that read back as that index |
| Bunfig.TokenRefInjective | src/bunfig.ts:103 | two tuples never share a token variable |
| Bunfig.TokenRefExamples | src/bunfig.ts:103 | index 0 reads `$BUN_AUTH_TOKEN` and index 2 reads `$BUN_AUTH_TOKEN_2` |
| Bunfig.ScopedLineShape | src/bunfig.ts:101-105 | a scoped line opens with the quoted owner key and closes with `url = "<href>" }`. Right after the key it holds the token field naming the tuple's own variable exactly when the tuple's flag is set |
| Bunfig.SubstituteEntries | src/bunfig.ts:78-115 | the substitution loop returns the text or error that `SubstituteUpTo` specifies after all tuples |
| Bunfig.CreateBunfig | src/bunfig.ts:48-118 | parse, the empty case, skeleton and loop together return what `Fragment` specifies |
| Bunfig.FailureIsFinal | src/bunfig.ts:86-88 | once an iteration has thrown, the outcome of the call is that error |
| Bunfig.StepFailsOnBadUrl | src/bunfig.ts:82-89 | an iteration throws exactly on a non-empty registry line that does not parse, and the error names that line |
| Bunfig.SubstituteFailsIffBadUrl | src/bunfig.ts:78-115 | the loop throws exactly when some tuple has a non-empty registry line that does not parse |
| Bunfig.SubstituteStopsAtFirstBadUrl | src/bunfig.ts:82-89 | when it throws, the error names the first such line |
| Bunfig.FirstBadUrl | src/bunfig.ts:78-89 | when some tuple has a bad registry line, one of them is the first |
| Bunfig.MismatchedLinesAreFatal | src/bunfig.ts:37-39 | `createBunfig` throws the length-mismatch error, with the text "Registires and Scopes must match length", exactly when the registry and scope line counts differ |
| Bunfig.NoEntriesGiveNull | src/bunfig.ts:57-59 | `createBunfig` returns `null` exactly when both the registry and the scope input are empty |
| Bunfig.InvalidUrlAborts | src/bunfig.ts:82-89 | with matching counts, the first non-empty registry line that does not parse aborts the call with the error `Invalid registry-url: <line>`, and no text is returned |
| Bunfig.ValidUrlsGiveText | src/bunfig.ts:57-117 | with matching, non-zero counts and every non-empty registry line parsing, the call returns a text |
| Bunfig.EmptyRegistryIgnored | src/bunfig.ts:61-114 | a tuple with an empty registry line contributes nothing: changing its scope or flag changes neither header nor the outcome |
| Bunfig.SameLoop | src/bunfig.ts:83-114 | the loop runs alike over tuple lists that differ only at an index whose registry line is empty |
| BunfigLayout.DistinctMarkersFree | src/bunfig.ts:66-74 | below ten, the unscoped marker of one index never holds the scoped marker of another |
| BunfigLayout.MarkersAreMarkerLike | src/bunfig.ts:66-74 | every marker contains `scoped_` and none of the characters that close a line |
| BunfigLayout.UnscopedLineInert | src/bunfig.ts:110-113 | a `registry = ...` line whose href has no `$` is inserted unchanged |
| BunfigLayout.TokenRefInert | src/bunfig.ts:103 | the `$BUN_AUTH_TOKEN` reference is inserted literally, because its `$` is followed by `B` |
| BunfigLayout.ScopedLineInert | src/bunfig.ts:99-106 | a scoped line whose owner and href have no `$` is inserted unchanged, token reference included |
| BunfigLayout.StepFillsSlot | src/bunfig.ts:98-114 | under the unambiguity conditions, iteration k replaces exactly marker k with tuple k's line |
| BunfigLayout.StageZero | src/bunfig.ts:57-76 | before the loop, every slot holds its marker |
| BunfigLayout.SubstitutionStep | src/bunfig.ts:78-115 | under the unambiguity conditions, with every URL parsing, one more iteration fills one more slot in index order |
| BunfigLayout.SubstitutionFillsSlots | src/bunfig.ts:78-115 | under the unambiguity conditions, with every URL parsing, after k iterations the slots below k hold their lines and the others their markers |
| BunfigLayout.BuildIsRender | src/bunfig.ts:57-117 | under the unambiguity conditions, with LF or CR LF line ends, the two-pass construction returns the direct rendering |
| BunfigLayout.BunfigIsRender | src/bunfig.ts:48-118 | for inputs that parse, `createBunfig` returns the direct rendering: without `[install]` as written, with it under the intended guard |
| BunfigLayout.RenderHoldsEveryLine | src/bunfig.ts:101-112 | the direct rendering holds every tuple's line verbatim, whatever its href and owner key contain, `$` included |
| BunfigLayout.RenderLeavesNoMarker | src/bunfig.ts:66-74 | when no href or owner key holds `scoped_`, the direct rendering holds no `unscoped_<i>` or `scoped_<i>` marker for any index. This holds for any number of tuples and whatever `$` the hrefs hold |
| BunfigFindings.AmpersandExpands | src/bunfig.ts:110-113 | a `$&` in a replacement text stands for the matched marker |
| BunfigFindings.DollarPatternExpands | src/bunfig.ts:109-114 | an href holding `$&` comes out with `unscoped_0` in place of the `$&`, which differs from the direct rendering |
| BunfigFindings.MarkerInsideMarker | src/bunfig.ts:66-74 | `unscoped_10` is `un`, then `scoped_1`, then `0` |
| BunfigFindings.ScopedMarkerInsideUnscoped | src/bunfig.ts:98-107 | with eleven tuples, tuple 1 scoped and tuple 10 unscoped, tuple 1's line lands inside `unscoped_10`, in the unscoped section |
| BunfigFindings.TwoScopedRender | src/bunfig.ts:69-76 | for two scoped tuples, the direct rendering is the scopes header, tuple 0's line, a line end, tuple 1's line, then a newline |
| BunfigFindings.OneRegistryWithoutScopes | src/bunfig.ts:23-39 | one registry line with no scope input makes the code throw the length mismatch. The intended reading returns `[install]`, the `registry = ...` line and two newlines |
| BunfigFindings.OwnerHoldsMarker | src/bunfig.ts:91-107 | a scope `scoped_1` makes the owner key `@scoped_1`. Tuple 1's line is written inside that key, and the marker `scoped_1` stays in the output |

## Left out

- `writeBunfig` (src/bunfig.ts:120-130) is file I/O. It appends the text to a
  file, logs, and writes nothing when the text is `null`.
- `new URL(...)` and `url.href` follow the WHATWG URL Standard, sections 4.4
  and 4.5. They are the parameter `parseUrl`, so every proof holds for any
  parser.
- Bunfig.NormaliseScope: lower-cases ASCII capitals only. `toLocaleLowerCase`
  also maps other letters and depends on the host locale.
- Strings: strings are sequences of characters, not UTF-16 code units, and
  lengths of non-BMP text are not modelled.
- `os.EOL` is the parameter `eol`. The layout theorems assume LF or CR LF, the
  only values Node gives it.
- Absent (`undefined`) action inputs are modelled as the empty string, which
  the code treats the same way (both are falsy).
- BunfigLayout.BuildIsRender: proved only under `Unambiguous`, which is a
  sufficient condition, not a necessary one. Outside it the construction can
  go wrong (see Findings). `Unambiguous` means at most ten tuples, and no
  href or owner key holding `scoped_` or `$`.
- BunfigLayout.BunfigIsRender: proved only under `Unambiguous` and every URL
  parsing. As above, `Unambiguous` is sufficient, not necessary. The failures
  are covered separately by `InvalidUrlAborts`.
- The number of token flags is not checked against the number of tuples,
  because the code does not check it.
- The `info` log call and the `@actions/core` dependency are left out
  because they produce no output the fragment depends on.

## Findings

| source | as written | input that shows it | evidently intended | confidence | as-written member | corrected member |
|---|---|---|---|---|---|---|
| src/bunfig.ts:61-63 | the `[install]` guard is `pair[0] && !pair[0]`, which never holds | registry-url lines `https://a.example.com` and `https://b.example.com`, scope lines empty and `@b`: the first tuple is unscoped | `[install]` before the unscoped `registry = ...` line, when some tuple has a registry and no scope | not executed | Bunfig.InstallHeaderNeverEmitted | Bunfig.IntendedInstallHeader |
| src/bunfig.ts:98-107 | `replace("scoped_1", ...)` replaces the first occurrence, and `scoped_1` also occurs inside `unscoped_10` | eleven registry and eleven scope lines: registry lines 2 and 11 set, the rest empty; scope line 2 set, scope line 11 empty | each line in its own slot, with no marker left | not executed | BunfigFindings.ScopedMarkerInsideUnscoped | BunfigLayout.RenderLeavesNoMarker |
| src/bunfig.ts:91-107 | the owner key written by tuple 0 can itself hold `scoped_1` | two scoped tuples with scopes `scoped_1` and `b` | tuple 1's line in its own slot after tuple 0's line | not executed | BunfigFindings.OwnerHoldsMarker | BunfigFindings.TwoScopedRender |
| src/bunfig.ts:109-113 | the href is passed as a `replace` template, so `$&`, `$$`, `` $` `` and `$'` in it are expanded | registry-url `https://r.example.com/$&` | the href written verbatim | not executed | BunfigFindings.DollarPatternExpands | BunfigLayout.RenderHoldsEveryLine |
| src/bunfig.ts:23-39 | an empty scope input gives no scope lines, so a single registry line is a length mismatch | registry-url `https://r.example.com`, scope input empty | `[install]`, then `registry = "https://r.example.com/"` | not executed | Bunfig.RegistryWithoutScopesIsMismatch | BunfigFindings.OneRegistryWithoutScopes |
