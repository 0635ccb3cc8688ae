# Repository explorer of `github.js`

This is a Dafny model of the repository explorer that `github.js` puts on a
project page. The page reads its configuration (owner, repository, optional
branch). It takes an access token from the page address, the page itself or
the session store. It then asks the hosting API for the README and for the
recursive tree listing of the branch, and builds a nested tree from the blob
paths. It renders that tree as directory headings and file buttons in sorted
order.

Clicking a file button does four things:

- it moves the "active" marker;
- it fetches the file's contents, decoding them from base64 when the answer
  says they are base64 and showing them as they are otherwise;
- it loads the highlighter's style sheet and scripts, once per page;
- it shows the text with a language class inferred from the text after the
  last dot of the file's whole path.

A 401, 403 or 404 on the listing or on a file opens, at most once per page,
a prompt for a token. Saving a token either reloads the page or clicks the
file again.

Modules:

- `Text`: splitting and joining on a separator, ASCII lower-casing,
  JavaScript's `trim`, and the string order used by `sort()` together with a
  sorted enumeration of a key set.
- `Base64`: the forgiving base64 decoder behind `atob`, plus an encoder that
  serves as its partner.
- `Tree`: the tree built from the blob paths.
- `Render`: the flattened rendering of that tree, in document order.
- `Language`: extension inference and the `language-…` class.
- `Loading`: the load-once registry and the highlighter bootstrap.
- `Credentials`: where the token is read from and stored.
- `Request`: the request headers and how each response is read.
- `Auth`: the once-per-page token prompt.
- `Active`: the active-file marker.
- `Explorer`: start-up, opening a file and saving a token, wired together.

Every response, and whether a script loads, is a parameter. A promise is
represented by the way it settles.

Behaviours of the code worth noting:

- A highlighter asset that fails to load stays failed for the rest of the
  page. The registry stores the rejected promise and never retries it.
- Clicking a file clears the active marker only inside the list that holds
  the button: its own directory and everything below it. Markers in sibling
  or parent directories stay. Only a top-level click clears every marker.
- A README answer of 401, 403 or 404 shows "README not found." and never
  asks for a token.
- Paths that use a name both as a file and as a directory are not merged:
  - line 194 keeps an existing file object and files the later path inside
    it, where nothing renders it;
  - line 192 lets a later file replace a whole directory.

## Model

| member | source | states |
|---|---|---|
| Text.Split | github.js:186 | The pieces contain no separator, there is at least one, and joining them back with the separator gives the original string |
| Text.SplitJoin | github.js:186 | Splitting a separator-free list of pieces that was joined with the separator returns exactly those pieces |
| Text.SplitInjective | github.js:186 | Two strings with the same pieces are equal |
| Text.LastPieceIsSuffix | github.js:39 | `pop()` of a split gives the longest separator-free suffix: it is a suffix, it holds no separator, and either it is the whole string or a separator precedes it |
| Text.ToLower | github.js:39 | Lower-casing keeps the length, leaves no ASCII capital, keeps every other character, and maps each capital to its lower-case letter |
| Text.Trim | github.js:116 | The result is a slice of the input with only white space cut from either end, and it neither starts nor ends with white space |
| Text.TrimEmptyIff | github.js:116-117 | The trimmed input is empty exactly when the input is all white space, so `if (tok)` rejects exactly blank input |
| Text.SortedKeys | github.js:215 | The sorted keys are strictly increasing, hold exactly the members of the key set, and there are as many as keys |
| Text.SortedUnique | github.js:215 | Two strictly sorted sequences with the same members are equal, so the order of `sort()` is determined by the keys alone |
| Text.LessTotal | github.js:215 | The string order compares any two distinct strings |
| Text.LessTransitive | github.js:215 | The string order is transitive |
| Base64.Atob | github.js:155 | Decoding succeeds exactly when forgiving base64 decoding (white space dropped, padding checked, alphabet only) succeeds, and then yields a binary string: every character is below 256 |
| Base64.AtobEncode | github.js:241 | Decoding the padded base64 encoding of any bytes gives back those bytes, one character each |
| Base64.AtobIgnoresLineBreak | github.js:241 | A line break inside the content (as the hosting API wraps it) does not change what decodes |
| Base64.AtobHello | github.js:155 | A concrete check: `aGVsbG8=` decodes to `hello` |
| Tree.Insert | github.js:186-197 | Inserting one path's segments leaves every other top-level name untouched, and the first segment is then present |
| Tree.BuildLeaves | github.js:184-198 | When no blob path is a directory of another, every blob path leads from the root along its segments to a file object that carries that path |
| Tree.BuildSound | github.js:184-198 | Whatever lies at any location is sound: a file object there carries a listed path that splits into exactly that location, and a directory there is not empty |
| Tree.BuildOrderIndependent | github.js:184-198 | Building from any permutation of a prefix-free listing gives the same tree |
| Tree.FileHidesLaterPath | github.js:193-195 | With `a` listed before `a/b`, the file object `a` keeps `b` inside it and `a/b` cannot be reached along its segments |
| Tree.LaterFileReplacesDirectory | github.js:191-192 | With `a/b` listed before `a`, the file `a` replaces the directory and `a/b` is gone from the tree |
| Render.RenderInOrder | github.js:214-257 | Rendering visits every directory before its contents and siblings in sorted order, so locations strictly increase in document order and no entry appears twice |
| Render.RenderContents | github.js:200-257 | An entry is rendered exactly when following its location from the root reaches what it shows: a directory with a non-empty name for a heading, a file object with that path for a button |
| Render.ExplorerListsEachFile | github.js:184-261 | For a prefix-free listing, the output is in document order, each path gets one button at its own segments, every button is for a listed path at its segments, no path has two buttons, and every heading is a non-empty directory |
| Language.Extension | github.js:39 | The extension is the lower-cased form of a dot-free suffix of the path that is either the whole path or preceded by a dot, that is, the text after the last dot |
| Language.InferLanguage | github.js:38-60 | The hint is the table's entry for the extension when the extension is a key of the table, and empty exactly when it is not |
| Language.CodeClass | github.js:65 | A class is set exactly when the hint is non-empty, and it is `language-` followed by the hint |
| Language.ExtensionIgnoresCase | github.js:39 | Lower-casing the path first does not change the extension |
| Language.InferIgnoresCase | github.js:38-60 | Lower-casing the path first does not change the hint |
| Language.ClassNamesKnownLanguage | github.js:59-65 | A code class, when there is one, names a language of the table |
| Language.InferTypeScript | github.js:38-60 | `src/app.ts` is TypeScript |
| Language.InferUpperCase | github.js:38-60 | `Main.JAVA` is recognised as Java despite its case |
| Language.InferWholeName | github.js:38-60 | A dot-free name is looked up whole: a file named `SH` counts as a shell script |
| Language.InferNoHint | github.js:38-65 | `Makefile` gives no hint and so no class |
| Language.InferDottedDirectory | github.js:38-60 | The last dot of the whole path counts, even inside a directory name: `v1.2/README` gives no hint |
| Language.InferLanguageAsWritten | github.js:59 | The lookup as written agrees with the table for every extension except the two inherited names, where it returns a non-empty text that is no language of the table |
| Language.ConstructorExtensionLeaks | github.js:59 | As written, `x.constructor` yields the source text of `Object` as its hint; the intended lookup gives none |
| Language.ConstructorClass | github.js:59-65 | As written, `x.constructor` gets the class `language-function Object() { [native code] }`; the intended lookup sets no class |
| Loading.LoadOnce | github.js:3-8 | The key is stored afterwards and its promise is what is returned; a stored key changes nothing; otherwise the loader's element is appended once and its outcome stored; stored keys keep their promises |
| Loading.EnsureHighlightReady | github.js:32-36 | The bootstrap succeeds exactly when all three loads succeed (stored or fresh); after a style-sheet failure the core script is never requested; stored promises are kept |
| Loading.LoadOnceValid | github.js:3-8 | Any load keeps the registry and the appended elements in step: one element per stored key, none appended twice, and an asset's element present exactly when its key is stored |
| Loading.EnsureValid | github.js:32-36 | The bootstrap preserves that each asset is appended at most once |
| Loading.RejectionIsFinal | github.js:3-8 | Once the style sheet is stored as failed, every later bootstrap fails at once, appends nothing and changes nothing, whatever the network does |
| Loading.FailureIsFinal | github.js:3-8 | Once a bootstrap has failed, whichever of the style sheet, core or line-number load failed, every later bootstrap fails at once without any change, whatever the network does |
| Loading.FreshValid | github.js:3-8 | A fresh page, with nothing loaded, satisfies the one-element-per-stored-key invariant |
| Loading.SuccessIsFinal | github.js:32-36 | After a successful bootstrap, the next succeeds without any change |
| Loading.FreshOrder | github.js:32-36 | From a fresh page, the elements are appended in the order style sheet, core, line numbers, stopping after the first failure |
| Credentials.Get | github.js:81-83 | The value returned is that of the first pair with the name; none exactly when no pair has the name |
| Credentials.ReadTokenFromLocation | github.js:80-84 | A non-empty query value wins; otherwise a non-empty fragment value is used; an empty value counts as missing, and the result is empty exactly when neither has a non-empty one |
| Credentials.GetGithubToken | github.js:86-88 | A non-empty embedded token wins; otherwise the stored token is used when there is one, and the result is empty when there is none |
| Credentials.SetGithubToken | github.js:90-92 | A non-empty token is stored under `gh_token`; an empty one changes nothing; no other key changes |
| Credentials.SetThenGet | github.js:86-92 | A stored token is the one used next, unless the page embeds one |
| Credentials.EmbeddedWins | github.js:87 | With a token embedded in the page, a stored token is never used |
| Credentials.EmptyQueryFallsThrough | github.js:83 | An empty `gh_token` in the query does not hide a fragment token |
| Credentials.FirstPairCounts | github.js:81-83 | Only the first `gh_token` of the query counts |
| Credentials.NeverStoresEmpty | github.js:90-92 | The session never comes to hold an empty token |
| Request.MakeHeaders | github.js:94-99 | The header names are the caller's plus `Accept`, plus `Authorization` when there is a token; `Accept` defaults to the v3 media type; a token overrides the caller's `Authorization`; all other caller headers are kept |
| Request.Blobs | github.js:179 | Each item occurs as often as in the listing when it is a blob and not at all otherwise, so every kept item is a blob |
| Request.BlobsAppend | github.js:179 | Filtering keeps listing order: filtering two parts and concatenating gives the filtered whole |
| Request.BlobsMember | github.js:179 | An item is kept exactly when it is in the listing and is a blob |
| Request.BlobPathKept | github.js:179-186 | Every blob's path reaches the tree builder |
| Request.BlobPathSource | github.js:179-186 | Every path that reaches the tree builder is some blob's |
| Request.ReadTree | github.js:172-182 | A prompt is asked for exactly on 401, 403 or 404; files are kept only from a successful answer with a tree, and then they are exactly its blobs |
| Request.FileText | github.js:241 | Base64 content is decoded, any other encoding is kept as it is, and absent content counts as empty |
| Request.ReadFile | github.js:229-241 | A token is asked for exactly on 401, 403 or 404; text results exactly when a successful answer has a body whose content decodes, and it is that decoded content |
| Request.ReadFileBase64 | github.js:240-241 | A successful base64 answer shows exactly the bytes that were encoded |
| Request.ReadReadme | github.js:149-170 | Any unsuccessful status reads "README not found."; Markdown results exactly when a successful answer's content decodes, and it is the decoded content; every other failure (network error, unparsable body, content that does not decode) reads "Failed to load README." |
| Request.ReadmeMissing | github.js:151-152 | A 404 on the README is a plain message and never a token prompt |
| Auth.ShowAuthPrompt | github.js:126-132 | The latch is set afterwards; when it was already set nothing changes; otherwise exactly one box with the given continuation is added |
| Auth.Save | github.js:115-122 | Blank input changes nothing; otherwise the trimmed token is stored, the box's continuation runs, and exactly that box is removed |
| Auth.ShowValid | github.js:126-132 | Showing keeps at most one box ever created, and only once the latch is set |
| Auth.SaveValid | github.js:115-122 | Saving keeps at most one box ever created, and only once the latch is set |
| Auth.FirstFailureWins | github.js:128-131 | A second failure changes nothing: the first continuation stays the only one |
| Auth.NoPromptAfterSave | github.js:120-131 | After a token is saved, no box remains and no later failure brings one back |
| Auth.SaveBlank | github.js:116-117 | Saving only white space does nothing |
| Auth.SaveTrimmed | github.js:116-119 | Saving padded input stores exactly the trimmed token and runs the continuation |
| Active.Click | github.js:223-224 | After a click, the clicked button is marked; a marker survives exactly when it lies outside the clicked button's directory |
| Active.ClickKeepsOnePerDirectory | github.js:223-224 | Clicking keeps at most one marked button per directory |
| Active.TopLevelClickClearsAll | github.js:223-224 | A click on a top-level file leaves only that file marked |
| Active.TwoDirectoriesTwoMarkers | github.js:223-224 | Opening `a/x` and then `b/y` leaves both marked |
| Active.DeeperMarkerCleared | github.js:223-224 | Opening `a/c/d` and then `a/b` leaves only `a/b` marked |
| Explorer.BranchOf | github.js:137 | The given branch is used, even an empty one; `main` only when none is given |
| Explorer.HeadersNow | github.js:94-97 | A request carries `Authorization` exactly when a token is in use, and then as a bearer of that token |
| Explorer.Setup | github.js:134-198 | No configuration does nothing; a page without its mount points only stores the address token; otherwise the page keeps the embedded token, starts with a fresh loader and no marker, its viewer stands for whatever the host page put in the code viewer (start-up never writes it), the README and the listing go out with the current token, a refused listing opens the prompt with a reload as its one box, and the tree is the rendering of the listing's blobs |
| Explorer.OpenFile | github.js:222-247 | A click moves the marker and sends one contents request with the current token; the auth message shows exactly when the answer needs a token, which offers a retry; code shows exactly when the text decoded and the highlighter is ready, with the inferred class; "Failed to load file." shows exactly when the answer failed otherwise (bad status, network error, unparsable body, undecodable content) or the highlighter failed; the highlighter is touched only for text that decoded |
| Explorer.SaveToken | github.js:115-122 | Blank input changes nothing; otherwise the trimmed token is stored, the box is removed and its continuation is returned; the marker, viewer, loader, sent requests, embedded token and branch never change |
| Explorer.AddressTokenKeptWithoutMounts | github.js:139-145 | A token in the address is stored even when the page has no explorer |
| Explorer.ListingShowsEveryBlob | github.js:172-261 | For a prefix-free listing, every blob gets a button at its path in document order, and every button is a blob's |
| Explorer.StartupShowsListing | github.js:177-179 | A successful listing is rendered from its blobs, with no prompt |
| Explorer.NoTokenPlainHeaders | github.js:94-98 | Without a token, requests carry only the media type |
| Explorer.StoredTokenSent | github.js:94-98 | With a stored token and none embedded, requests carry it as a bearer |
| Explorer.RefusedListingOffersReload | github.js:174-176 | A refused listing was requested without a token and offers to reload |
| Explorer.StartupSendsStoredToken | github.js:150-174 | With a stored token, both start-up requests carry it |
| Explorer.ReloadAfterSaveAuthenticates | github.js:174-176 | Refused listing, saved token, reload: both requests of the reloaded page carry the token |
| Explorer.RefusedFileOffersRetry | github.js:231-233 | A refused file shows the auth message and offers to click it again |
| Explorer.ClickSendsStoredToken | github.js:229-230 | A click with a stored token sends it with the contents request |
| Explorer.RetryCarriesToken | github.js:231-232 | Refused file, saved token, retry: the repeated request carries the token |
| Explorer.HighlighterFailureIsSticky | github.js:242-246 | After the style sheet failed once, every file that arrives still shows "Failed to load file." |
| Explorer.OpenFileKeepsLoaderValid | github.js:242 | Opening files never appends a highlighter asset twice |

## Left out

- `script.js` is not part of this model.
- Turning the README's Markdown into HTML (lines 157-166, a chain of regular-expression replacements) is not modelled. The model stops at the decoded Markdown source, because regular-expression semantics are outside the model.
- How `loadScript` and `loadCss` build `<script>` and `<link>` elements (lines 10-30) is reduced to "an element for this URL is appended, and it settles as the environment says".
- The calls into the highlighter library (`highlightElement`, `lineNumbersBlock`, lines 68-77) are foreign code and are not modelled. The model keeps the text and the class that the `<code>` element receives.
- Concurrency is not modelled. Clicks and start-up steps happen one after another; two clicks whose requests are in flight together are not interleaved. The transient "Loading…" text is replaced within the same step.
- Reloading the page is modelled as a fresh `Setup` with the same session store. The load-once registry and the prompt latch start over, as they do in a reloaded page.
- Explorer.Setup: the initial viewer `Placeholder("")` stands for whatever the host page put in `#code-viewer`. Start-up only checks that the element exists (lines 144-145) and never writes it, so its real initial content is not modelled.
- The code viewer disappearing between start-up and a click (line 226) is not modelled. The three mount points are one boolean, checked at start-up.
- Percent-decoding by `URLSearchParams`, the `#` stripping, and the URL strings and their `encodeURIComponent` are not modelled. Queries are given as decoded name and value pairs, and requests are identified by an endpoint value.
- A non-string `window.__GITHUB_TOKEN__`, a `null` branch, and a pre-existing `window.__loaded_*` value are not modelled. Values are strings or absent.
- Header names are compared exactly, not case-insensitively.
- Tree keys that collide with JavaScript object machinery are not modelled. Examples are path segments named `__proto__`, or `__file` inside a directory object. Keys are plain map keys.
- A listing item without a `path` is not modelled. It would throw outside the `try` at line 186; every modelled item has a path.
- Explorer.OpenFile: uses the corrected own-key `Language.InferLanguage`, not the lookup as written at line 59. So for `x.constructor` (or `x.__proto__`) the model sets no class, where the code sets `language-function Object() { [native code] }` (or `language-[object Object]`); `Language.InferLanguageAsWritten` models the code as written.
- Text.ToLower: lower-cases ASCII letters only. `toLowerCase` also folds non-ASCII letters, which no table key contains.
- Text.Less: compares by code point. `sort()` compares UTF-16 code units, which can differ for characters outside the Basic Multilingual Plane.

## Findings

| source | as written | input that shows it | evidently intended | confidence | as-written member | corrected member |
|---|---|---|---|---|---|---|
| github.js:59 | `map[ext] \|\| ''` looks the extension up in a plain object, so it also finds the names every object inherits. For `constructor`, it returns the `Object` function, which becomes the class `language-function Object() { [native code] }` (Language.ConstructorClass). | the path `x.constructor` (likewise `x.__proto__`) | only the table's own keys give a hint, so an unknown extension gives none and no class is set | not executed | Language.InferLanguageAsWritten | Language.InferLanguage |
