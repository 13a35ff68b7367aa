# tera-peek: the share-link inspector, modelled in Dafny

tera-peek is a one-page web tool. The user pastes a TeraBox share link (or a
bare share id) and presses Inspect. The page pulls the share id out of the
text, asks a third-party metadata service about it, and shows either the
file's metadata or a message. This project models the two parts of the page
component that hold the logic:

- `extractId` (module `Extract`, on top of the string primitives in `Text`).
  It trims the input and tries two case-insensitive regular expressions in
  order: first a strict one, which needs an allow-listed host, and then a
  generic `/s/` one. If neither matches, it falls back to the trimmed input
  without its trailing slashes. The regular expressions are written as data
  (`Pattern`). A small backtracking matcher runs them in the engine's order:
  alternatives are tried left to right, and the optional `s` and `www.` are
  tried first present, then absent. `/i` on these ASCII patterns is exact
  matching against `Fold(t)`, the input with its ASCII capitals lowered, and
  the capture is cut from the input at the same positions. The lemmas show
  what the matcher accepts (exactly the share URLs, or exactly the `/s/`
  segments) and then what `extractId` returns in each of its three branches,
  including the precedence of the strict branch.
- The page's state and its two handlers (module `Inspect`).
  - `class Page` holds the four state cells `videoId`, `loading`, `error` and
    `data`.
  - `StartInspect` is `fetchMeta` up to its `await`. `FinishInspect` is the
    rest: the try, catch and finally blocks. `FetchMeta` runs both.
    `ClearInput` and `Edit` are the Clear button and the text box's change
    handler.
  - Each method is proved against a pure function on a `View` of the four
    fields: `Begin`, `Settle` and `Inspected`.
  - Lemmas about these functions state when a request is made and for which
    id, which message appears when, and when the metadata is shown.

The metadata service is not called. Its answer is a parameter, `Outcome`: the
fetch rejected with a message, or the service answered with a status and a
body. The body is one that `res.json()` could not read (with the message it
threw) or a parsed `Json` value. `res.ok` is derived from the status
(200 to 299).

Files:
- `wrappers.dfy`: `Option`.
- `text.dfy`: trim, ASCII case folding, `includes`, decimal numerals.
- `json.dfy`: JSON values, JavaScript truthiness and `typeof`.
- `extract.dfy`: `extractId`.
- `inspect.dfy`: `fetchMeta`, `clearInput` and the component state.

Three behaviours of the code that a reader might not expect:

- The fallback branch returns the trimmed input minus its trailing slashes,
  so an id can still contain `/`, `?` or `#` (`a/b` gives `a/b`).
- An array passes the `typeof` check and then fails with "No direct link
  found in response." (`Inspect.BodyChecks`).
- A failed `res.json()` is shown with the parser's own message, not with the
  malformed-response text (`Inspect.FailuresShown`).

## Model

| member | source | states |
|---|---|---|
| Text.TrimStart | src/app/page.jsx:26 | the front part that `trim` removes is all whitespace (ECMAScript WhiteSpace and LineTerminator), and what is left does not start with whitespace |
| Text.TrimEnd | src/app/page.jsx:26 | the trailing part that `trim` removes is all whitespace, and what is left does not end with whitespace |
| Text.Trim | src/app/page.jsx:26 | `trim` as the trailing trim of the front trim; what it means is stated by `Text.TrimSlice`, `Text.TrimEnds` and `Text.TrimEmptyIff` |
| Text.TrimStartSuffix | src/app/page.jsx:26 | the front trim keeps a suffix of the input |
| Text.TrimEndPrefix | src/app/page.jsx:26 | the trailing trim keeps a prefix of the input |
| Text.TrimSlice | src/app/page.jsx:26 | `trim` returns the slice of the input between a whitespace-only prefix and a whitespace-only suffix |
| Text.TrimEndOfSuffix | src/app/page.jsx:26 | the trailing trim of a suffix of the input is a slice of the input followed by whitespace only |
| Text.TrimEnds | src/app/page.jsx:26 | the trim neither starts nor ends with whitespace |
| Text.TrimUnchanged | src/app/page.jsx:26 | a string with no whitespace at either end is its own trim |
| Text.TrimIdempotent | src/app/page.jsx:26 | trimming twice is trimming once, so `extractId`'s own trim of the already trimmed text changes nothing |
| Text.TrimStartWhitespace | src/app/page.jsx:26 | an all-whitespace string loses everything to the front trim |
| Text.TrimEmptyIff | src/app/page.jsx:44-45 | the input trims to nothing exactly when every character of it is whitespace |
| Text.Lower | src/app/page.jsx:28-31 | the `/i` canonicalisation of one character: ASCII capitals become small letters, every other character stays |
| Text.Fold | src/app/page.jsx:28-31 | `/i` matching compares the folded text; folding keeps positions, so the capture is cut from the original text |
| Text.Contains | src/app/page.jsx:73-75 | `includes`; `Text.ContainsIff` states that it holds exactly when the needle occurs at some index |
| Text.ContainsAt | src/app/page.jsx:73 | `includes` is true when the needle occurs at some index |
| Text.ContainsIff | src/app/page.jsx:73-75 | `includes` holds exactly when the needle occurs at some index, in both directions |
| Text.AbsentChar | src/app/page.jsx:73-75 | `includes` is false when the text lacks one of the needle's characters |
| Text.Decimal | src/app/page.jsx:64 | the status in the template literal is written with digits only and no leading zero |
| Text.DecimalRoundTrip | src/app/page.jsx:64 | reading the numeral back gives the status, so the message carries the number exactly |
| Extract.MatchEnd | src/app/page.jsx:28 | when a pattern matches at i, the capture `([^/?#]+)` starts at or after i on a character that is not `/`, `?` or `#` |
| Extract.AltEnd | src/app/page.jsx:28 | a group of alternatives tried in order gives a capture start at or after i on a non-delimiter |
| Extract.Leftmost | src/app/page.jsx:27-31 | `match` takes the leftmost position where the pattern matches: it matches there, nowhere before it, and nowhere at all when none is found |
| Extract.RunEnd | src/app/page.jsx:28 | the greedy capture runs over non-delimiters and stops at a delimiter or at the end |
| Extract.Search | src/app/page.jsx:27-32 | `match(...)[1]`, when present, is a non-empty string of non-delimiters no longer than the text |
| Extract.TrimTrailingSlashes | src/app/page.jsx:33 | `replace(/\/+$/, "")` removes exactly the trailing run of slashes: a prefix is kept, everything removed is `/`, and the result does not end with `/` |
| Extract.ExtractId | src/app/page.jsx:23-38 | an empty input gives the empty id, the id never ends with `/`, and it is never longer than the trimmed input |
| Extract.AltSound | src/app/page.jsx:28 | a successful alternative group went through one of its options, which occurs in the text there |
| Extract.AltLabel | src/app/page.jsx:28 | where the text holds a label and then a separator, a group of options followed by that separator succeeds exactly through that label |
| Extract.TldTailExact | src/app/page.jsx:28 | the text `<tld>/s/` with an allowed tld is matched by `(?:com\|net\|org\|app\|cn)\/s\/` up to the capture |
| Extract.HostTailExact | src/app/page.jsx:28 | the text `<host>.<tld>/s/` with allowed names is matched up to the capture |
| Extract.SubdomainTailExact | src/app/page.jsx:28 | with or without `www.`, `<host>.<tld>/s/` is matched up to the capture |
| Extract.HttpsExact | src/app/page.jsx:28 | `https?:\/\/` reads `https://` with the optional `s` taken |
| Extract.HttpExact | src/app/page.jsx:28 | `https?:\/\/` reads `http://` with the optional `s` skipped |
| Extract.StrictExact | src/app/page.jsx:28 | the strict pattern matches every allow-listed share prefix and puts the capture right after it |
| Extract.TldTailSound | src/app/page.jsx:28 | a match of the tld part reads an allowed tld and `/s/` |
| Extract.HostTailSound | src/app/page.jsx:28 | a match of the host part reads an allowed host, `.`, an allowed tld and `/s/` |
| Extract.SubdomainTailSound | src/app/page.jsx:28 | a match of the optional `www.` and the host part reads `www.` or nothing, then an allowed host and tld |
| Extract.SchemeSound | src/app/page.jsx:28 | a match of `https?:\/\/` reads `http://` or `https://` |
| Extract.StrictSound | src/app/page.jsx:28 | every match of the strict pattern reads an allow-listed share prefix |
| Extract.ShareUrlMatches | src/app/page.jsx:27-29 | a share URL, in any letter case, is matched by the strict regular expression, and the capture starts after its prefix |
| Extract.MatchIsShareUrl | src/app/page.jsx:27-29 | whatever the strict regular expression matches is a share URL |
| Extract.ShareLinkMatchIff | src/app/page.jsx:27-29 | the strict regular expression matches at p exactly when a share URL starts at p |
| Extract.AnyShareMatchIff | src/app/page.jsx:31 | the generic regular expression matches at q exactly when `/s/`, in any case, and a non-delimiter start at q; the capture starts right after `/s/` |
| Extract.ShareUrlHasSegment | src/app/page.jsx:28-31 | every share URL ends in a generic `/s/` segment |
| Extract.ShareSegmentSlash | src/app/page.jsx:31 | a generic segment starts with a real slash |
| Extract.SearchFinds | src/app/page.jsx:27-32 | at the leftmost match, `match(...)[1]` is the maximal run of non-delimiters after it |
| Extract.SearchMisses | src/app/page.jsx:27-32 | with no match anywhere, `match` gives null |
| Extract.SearchNeedsCapture | src/app/page.jsx:30-32 | a capture needs a non-delimiter character somewhere in the text |
| Extract.NoShareLinkBefore | src/app/page.jsx:27-29 | with no share URL before p, the strict expression matches nowhere before p |
| Extract.ShareLinkSearch | src/app/page.jsx:27-30 | the strict search on a text whose first share URL is at p captures the run after that URL's `/s/` |
| Extract.ShareLinkSearchMisses | src/app/page.jsx:27-30 | with no share URL anywhere, the strict search gives null |
| Extract.ShareSegmentSearch | src/app/page.jsx:31-32 | the generic search on a text whose first segment is at q captures the run after that `/s/` |
| Extract.ShareSegmentSearchMisses | src/app/page.jsx:31-32 | with no `/s/` segment anywhere, the generic search gives null |
| Extract.NamesWellFormed | src/app/page.jsx:28 | the page's hosts contain no `.` and do not start with `w`, and its tlds contain no `/`, so at most one alternative of each group can be followed by the next literal |
| Extract.ExtractShareLink | src/app/page.jsx:26-30 | when the trimmed input holds a share URL, the id is the run after the first one's `/s/`, whatever generic segments come before it (the strict branch wins) |
| Extract.ExtractShareSegment | src/app/page.jsx:31-32 | with no share URL, the id is the run after the first `/s/` segment, whatever the host |
| Extract.ExtractFallback | src/app/page.jsx:33 | with no `/s/` segment, the id is the trimmed input without its trailing slashes |
| Extract.ExtractSlashFree | src/app/page.jsx:33 | an input with no slash in its trim gives exactly its trim |
| Extract.ExtractEmptyIff | src/app/page.jsx:23-33 | the id is empty exactly when the trimmed input consists of slashes only, the empty string included |
| Extract.ExtractTrimmed | src/app/page.jsx:24-26 | extracting from the trimmed input gives the same id as from the raw input |
| Extract.SharePrefixUncased | src/app/page.jsx:28 | every allow-listed share prefix is written in small letters |
| Extract.CanonicalShape | src/app/page.jsx:26-30 | `<scheme>[www.]<host>.<tld>/s/<id><rest>` is its own trim, holds a share URL at 0, and the id is the maximal run after the prefix |
| Extract.ExtractCanonicalLink | src/app/page.jsx:26-30 | a share link of the allow-listed form, with any path, query or fragment after it, gives exactly its id |
| Extract.ExampleSlashes | src/app/page.jsx:33 | `///` gives the empty id |
| Json.Truthy | src/app/page.jsx:67-68 | JavaScript truthiness of a parsed value: false for null, false, 0, and the empty string, true otherwise; `Json.ObjectLike` and `Inspect.BodyChecks` use it |
| Json.Property | src/app/page.jsx:68 | `json.directlink`: an own field of an object, and nothing for any other value |
| Json.TypeOf | src/app/page.jsx:67 | `typeof` is "object" exactly for null, arrays and objects |
| Json.ObjectLike | src/app/page.jsx:67 | `!json \|\| typeof json !== "object"` lets through exactly the arrays and the objects |
| Inspect.IsOk | src/app/page.jsx:64 | `res.ok`: the status is in the range 200 to 299 |
| Inspect.StatusText | src/app/page.jsx:64 | the thrown message for a status that is not ok; `Inspect.StatusReported` states what it holds |
| Inspect.Try | src/app/page.jsx:61-70 | the try block after the request, with its checks in the page's order; `Inspect.TryLoadedIff`, `Inspect.StatusReported`, `Inspect.BodyChecks` and `Inspect.FailuresShown` state its outcomes |
| Inspect.Shown | src/app/page.jsx:71-79 | the catch block reports a network error first, then a blocked request, then any other non-empty message as it is, then the default text; what it shows is never empty |
| Inspect.Begin | src/app/page.jsx:41-62 | the first step of Inspect up to the request; `Inspect.RequestIff`, `Inspect.EmptyInputIff`, `Inspect.NoIdIff`, `Inspect.BeginState` and `Inspect.BoxChangesIff` state what it does |
| Inspect.Settle | src/app/page.jsx:63-82 | the try, catch and finally blocks; `Inspect.TryLoadedIff` and `Inspect.FailuresShown` state what it leaves |
| Inspect.Inspected | src/app/page.jsx:40-83 | a whole Inspect; `Inspect.InspectedOutcome` and `Inspect.InspectedLoading` state what it leaves |
| Inspect.MessagesDiffer | src/app/page.jsx:46-67 | the page's messages are non-empty and distinct where the branches need it |
| Inspect.RequestIff | src/app/page.jsx:41-63 | a request is made exactly when `extractId` of the input is non-empty, and it is for that id; the message stays cleared exactly then |
| Inspect.EmptyInputIff | src/app/page.jsx:44-47 | the empty-input message appears exactly when the input is whitespace only |
| Inspect.NoIdIff | src/app/page.jsx:50-53 | the no-id message appears exactly when the trimmed input is non-empty and made of slashes |
| Inspect.BeginState | src/app/page.jsx:41-62 | the first step clears the metadata, switches loading on only when it makes a request, and changes the input box only to the id it asks for; after a request, the box holds that id up to surrounding whitespace |
| Inspect.BoxChangesIff | src/app/page.jsx:55 | the input box is rewritten exactly when a request is made for an id other than the trimmed input |
| Inspect.TryLoadedIff | src/app/page.jsx:63-70 | the try block ends with metadata exactly for an ok status with a parsed object that has a truthy `directlink`, and the metadata is that object |
| Inspect.ShownAsIs | src/app/page.jsx:73-78 | a non-empty message that lacks a letter of "NetworkError" and one of "Failed to fetch" is shown as it is |
| Inspect.StatusPrefixLetters | src/app/page.jsx:64 | the status message's prefix has no capital N or F |
| Inspect.StatusReported | src/app/page.jsx:64 | a status outside 200 to 299 throws "API request failed with status " and the number, which reads back as the status, and this text is what the page shows |
| Inspect.BodyChecks | src/app/page.jsx:67-68 | for an ok answer, the malformed-response message is thrown exactly when the parsed value is neither an array nor an object, an array always fails with the no-direct-link message, and an object fails with it exactly when its `directlink` is missing or falsy |
| Inspect.FailuresShown | src/app/page.jsx:63-81 | a rejected fetch, and a `res.json()` that fails on an ok answer, reach the catch block with their own message, which is what the page shows through `Shown`; loading ends off |
| Inspect.MalformedShown | src/app/page.jsx:67 | "Malformed API response." is shown as it is |
| Inspect.NoLinkShown | src/app/page.jsx:68 | "No direct link found in response." is shown as it is |
| Inspect.InspectedOutcome | src/app/page.jsx:40-83 | a whole Inspect shows metadata exactly when the input yields an id and the answer is usable, and the metadata is then the answer's body; the message is empty exactly when metadata is shown |
| Inspect.InspectedLoading | src/app/page.jsx:45-82 | after a whole Inspect, loading is off, unless no request was made and it was on before |
| Inspect.Page.constructor | src/app/page.jsx:8-11 | the state starts with an empty input, loading off, no message and no metadata |
| Inspect.Page.Edit | src/app/page.jsx:260 | typing replaces the input text and nothing else |
| Inspect.Page.ClearInput | src/app/page.jsx:112-118 | Clear empties the input and the message and keeps loading and the metadata |
| Inspect.Page.StartInspect | src/app/page.jsx:40-62 | the fields after the part of fetchMeta before the `await`, and the id it asks for, are those that `Begin` gives for the fields before |
| Inspect.Page.FinishInspect | src/app/page.jsx:63-82 | the fields after the try, catch and finally blocks are those that `Settle` gives for the outcome |
| Inspect.Page.FetchMeta | src/app/page.jsx:40-83 | a whole fetchMeta asks for `Begin`'s request, and leaves the fields `Inspected` gives |

## Left out

- The rendering (JSX), the animations, the menu and help state (`menuOpen`, `helpDropdownOpen`, `isClient`), focusing the input, and the `useEffect` hooks. These are presentation and hold no logic.
- `onCopy` (clipboard access and a timer) and `humanFileSize` (floating-point logarithms and `toFixed`). Both are outside the modelled core.
- The network. The request URL built with `encodeURIComponent` is not modelled: the model records only the id that is requested. The service's answer is a parameter. `console.error` is not modelled.
- The `catch` of `extractId` (page.jsx:34-37). Nothing in its try block can throw on a string input, so the branch cannot be reached.
- Timing. The `await` becomes the split between `StartInspect` and `FinishInspect`. Concurrent clicks, the `loading` flag disabling the button, and React's batching of state updates are not modelled. The model applies the updates in order, which gives the same final state for one Inspect.
- JSON numbers are kept as exact reals. There is no floating-point model, and `-0` and `NaN` are not distinguished. Property reads on a parsed value model only own fields of objects. Inherited properties of `Object.prototype` are not modelled.
- Errors are represented by their message text. A rejection whose value has no `message`, or whose message is not a string, is not modelled.
- Case folding covers the ASCII letters only. This is exact for these ASCII patterns without the `u` flag.
- Strings are sequences of Unicode scalar values, not of UTF-16 code units, so lengths count code points. A lone surrogate cannot be written; on one, `encodeURIComponent` (page.jsx:57-59) throws outside the `try`, and that path is not modelled.
- `src/app/layout.js`, `src/components/ErrorBoundary.jsx` and `src/app/api/og/route.jsx` are framework wiring, an error screen and an image route, and are not part of this model.
- Concrete examples of whole share links with literal ids are stated as general lemmas instead: `Extract.ExtractCanonicalLink`, `Extract.ExtractShareSegment` and `Extract.ExtractSlashFree`. The only concrete example kept is `Extract.ExampleSlashes`.
