# Portfolio site script — a Dafny model

The site's client-side script (`js/main.js`, with `js/projects.js` repeating
its project filter) is modelled as pure functions over immutable data:

- **Translation** — `getNestedValue` walks a dotted key path such as
  `about.skills.0` through the translation document, a JSON value in the sense
  of section 3 of RFC 8259 (`Json.Node`). `applyTranslations` fills the first
  `{year}` of each string it finds and writes the result into each
  `[data-i18n]` element whose key finds a string. `loadTranslations` leaves the page untouched when the
  document cannot be fetched or parsed.
- **Language** — the EN | ES link handler rewrites the first `en`/`es`
  segment of the pathname. The language to load is a stored `en`/`es`
  preference if there is one, else the page's `lang` attribute.
- **ContactForm** — the submit handler trims the three fields, reports
  missing fields, reports an address that does not match
  `^[^\s@]+@[^\s@]+\.[^\s@]+$`, and accepts the form only when every field is
  clean.
- **ProjectFilter** — clicking a filter button makes it the only active
  button and shows the cards whose `data-tags` contain the filter as a
  substring, or every card for `all`.
- **Strings** holds the JavaScript string operations these rely on:
  `split`, `join`, `filter(Boolean)`, `indexOf`/`includes`, first-occurrence
  `replace`, `String(n)`, `trim`. **Wrappers** holds `Option`. **Scenarios**
  holds worked instances.

DOM elements become records: `Translation.Element`, `ProjectFilter.Button`,
`ProjectFilter.Card`, `ContactForm.Fields`. Browser inputs become parameters:
the current year, the settled fetch (`Translation.FetchOutcome`), what
`localStorage` gave (`Language.StoredPreference`), and the current pathname.
JavaScript's `undefined` is `None`. A JSON `null` found in the document is
`Some(Null)`.

Key segments go through `Number(key)`. It reads an empty or all-whitespace
segment as 0 and ignores whitespace around the digits.
`Translation.IsIndexSegment` models this. The whitespace that `trim()`, the
regular expression's `\s` and `Number()` skip is the ECMAScript WhiteSpace and
LineTerminator set (`Strings.IsWhitespace`).

Dafny strings are sequences of Unicode code points, while JavaScript strings
are sequences of UTF-16 code units. Well-formed text behaves the same in both,
but a lone surrogate cannot be represented here.

## Model

| member | source | states |
|---|---|---|
| Translation.Step | js/main.js:141-147 | An absent or null node yields absent. An index segment on an array yields that element, or absent when out of range. Any segment on an object is a key lookup, absent when the key is missing. Every other case is absent. A result is always a direct child of the current node. |
| Translation.ResolveSegments | js/main.js:140-148 | The left fold over the segments. Once the walk is absent it stays absent. Once it reaches null with segments left, the result is absent. |
| Translation.ResolveSegmentsAppend | js/main.js:140-148 | Walking `a + b` equals walking `b` from wherever walking `a` ended. |
| Translation.ResolveComposes | js/main.js:139-149 | Resolving `p.q` equals resolving `q` from the node `p` resolves to. |
| Translation.ResolvePastAbsent | js/main.js:140-141 | If `p` resolves to absent or null, `p.q` resolves to absent whatever `q` is. |
| Translation.ResolveSegmentsStaysInside | js/main.js:140-148 | Every node the walk returns is the start node or nested inside it. |
| Translation.Resolve | js/main.js:139-149 | `getNestedValue`: a path without `.` is one lookup on the document. Whatever a key path resolves to is already a node of the document, so resolution creates and changes nothing. |
| Translation.IndexSegmentIsPaddedDigits | js/main.js:143-144 | `Translation.IsIndexSegment` holds exactly when the segment is a run of decimal digits, possibly empty, with whitespace on both sides. These are the plain decimal numerals among the strings that `Number(key)` reads as a non-negative integer. The other forms are listed under "## Left out". |
| Translation.FillYear | js/main.js:163 | A template without `{year}` comes back unchanged. Otherwise the first `{year}` becomes the decimal year, and the text before and after it is kept. |
| Translation.FillYearKeepsSecondToken | js/main.js:163 | With two non-overlapping `{year}` tokens, the filled text still contains `{year}`. Only the first is replaced. |
| Translation.TranslateElement | js/main.js:155-166 | The key never changes. The text changes only when the key is non-empty and resolves to a string, and then it becomes that string with the year filled in. |
| Translation.TranslateElementIdempotent | js/main.js:155-166 | Translating an element twice gives the same result as translating it once. |
| Translation.ApplyTranslations | js/main.js:151-167 | Every element, in order, gets the per-element update, and the element count is unchanged. |
| Translation.ContentPath | js/main.js:128 | The fetched resource is `/content/`, then the language, then `.json`. |
| Translation.ContentPathInjective | js/main.js:128 | Different languages fetch different resources. |
| Translation.LoadTranslations | js/main.js:126-137 | A network failure, a non-ok status or invalid JSON leaves every element unchanged. A loaded document is applied to every element. |
| Language.PathSegments | js/main.js:110 | The pathname's segments are non-empty and contain no `/`. |
| Language.FindLanguageSegment | js/main.js:112-114 | It finds the first segment equal to `en` or `es`, or reports that there is none. |
| Language.RewritePathname | js/main.js:109-119 | With no `en`/`es` segment, the pathname is unchanged. Otherwise the result is `/` followed by the segments joined with `/`, with only the first `en`/`es` segment replaced by the target. |
| Language.LanguageLinkClick | js/main.js:104-122 | An empty `data-lang` causes no navigation. Any other target navigates to the rewritten pathname. |
| Language.PathSegmentsOfRebuilt | js/main.js:110-118 | Splitting a pathname rebuilt from non-empty, slash-free segments gives those segments back. |
| Language.RewriteReplacesFirstLanguageSegment | js/main.js:110-119 | After the rewrite, the segments equal the old ones with only the first `en`/`es` segment set to the target. For a non-empty target without `/`, the count and order are the same, later `en`/`es` segments are untouched, and the path starts with `/`. |
| Language.SecondSwitchWins | js/main.js:110-119 | When the first target is `en` or `es`, switching to it and then to any second target gives the same path as switching straight to the second. With equal `en`/`es` targets, switching is idempotent. For other targets it is not: `fr` twice takes `/en/es` to `/fr/es` and then `/fr/fr`. |
| Language.LowerChar | js/main.js:172 | The result is never an upper-case ASCII letter. Upper-case letters move down by 32 and every other character is kept. |
| Language.ToLower | js/main.js:170-172 | The length is kept. Only upper-case ASCII letters change, each to its lower-case letter. |
| Language.PreferredLanguage | js/main.js:170-181 | A stored `en`/`es` wins. Otherwise a missing or empty `lang` attribute gives `en`, and a non-empty one gives that attribute in lower case. |
| Language.PreferredLanguageProperties | js/main.js:170-181 | The chosen language has no upper-case ASCII letter. Two stored values that are not `en`/`es`, or a storage error, lead to the same choice. |
| ContactForm.LooksLikeEmail | js/main.js:72 | The check based on the first `@` accepts exactly the strings that match `^[^\s@]+@[^\s@]+\.[^\s@]+$`. |
| ContactForm.NoAtNoMatch | js/main.js:72 | A string with no `@` never matches the pattern. |
| ContactForm.EmailCheckAt | js/main.js:72 | With the first `@` at a given index, the pattern matches exactly when a non-empty part precedes the `@` and a domain with an inner dot follows it. |
| ContactForm.DomainGivesMatch | js/main.js:72 | A part, then `@`, then a domain, matches the pattern. |
| ContactForm.MatchGivesDomain | js/main.js:72 | In a match, the `@` is the first and only one, and what follows it is a domain. |
| ContactForm.Validate | js/main.js:55-80 | Each field gets at most one message, which depends on its trimmed value. An empty email gets "Please enter your email." and never "invalid". A non-empty non-matching email gets "Please enter a valid email address." |
| ContactForm.Submit | js/main.js:54-97 | The form is accepted exactly when the trimmed name and message are non-empty and the trimmed email matches the pattern. This happens exactly when no field shows an error. An accepted form is reset and shows the thanks status. A rejected form keeps its fields and shows the fix-the-fields status. |
| ContactForm.ValidateIgnoresSurroundingWhitespace | js/main.js:55-57 | Whitespace padding does not change any message. Each field may have its own padding, and the padding before and after a field may differ. |
| ContactForm.TrimPadded | js/main.js:55-57 | Trimming removes whitespace-only padding. The leading and trailing padding are independent strings. |
| Strings.Split | js/main.js:110 | `split` on one character gives at least one part, and no part contains the separator. |
| Strings.JoinSplit | js/main.js:110-118 | Joining the parts of a split gives back the original string. |
| Strings.SplitAppend | js/main.js:140 | A separator splits a string into the parts before it followed by the parts after it. |
| Strings.SplitNoSeparator | js/main.js:140 | A string without the separator splits into itself alone. |
| Strings.SplitJoin | js/main.js:118 | Splitting a join of separator-free parts gives the parts back. |
| Strings.DropEmpty | js/main.js:110 | `filter(Boolean)` keeps only non-empty parts, all from the input. |
| Strings.DropEmptyAppend | js/main.js:110 | Dropping empty parts distributes over concatenation. |
| Strings.DropEmptyKeepsNonEmpty | js/main.js:110 | Parts that are all non-empty are kept as they are. |
| Strings.IndexOfFrom | js/main.js:163 | The result is the least index at or after the start where the pattern occurs, or none when it occurs nowhere there. |
| Strings.IndexOf | js/main.js:163 | The result is the first occurrence of the pattern, present exactly when the pattern occurs somewhere. |
| Strings.Includes | js/projects.js:15 | `includes` is true exactly when the pattern occurs at some index of the string. |
| Strings.ReplaceFirst | js/main.js:163 | A string without the pattern is unchanged. Otherwise only the first occurrence is replaced, and the text around it is kept. |
| Strings.ReplaceFirstKeepsLaterOccurrences | js/main.js:163 | A later, non-overlapping occurrence survives the replacement, shifted by the change in length. |
| Strings.NatToString | js/main.js:163 | `String(n)` is a non-empty digit string with no leading zero, whose decimal value is `n`. |
| Strings.IntToString | js/main.js:163 | `String(year)` gives a minus sign and the digits of a negative year, or the digits of any other year. There is no leading zero except in `"0"` itself. It never contains `$` or `{`. |
| Strings.TrimStartIndex | js/main.js:55-57 | The result is the first non-whitespace index at or after the start, and everything skipped is whitespace. |
| Strings.TrimEndIndex | js/main.js:55-57 | The result is just past the last non-whitespace character, and everything cut is whitespace. |
| Strings.Trim | js/main.js:55-57 | `trim` never lengthens the input, and a non-empty result neither starts nor ends with whitespace. |
| Strings.TrimIsSlice | js/main.js:55-57 | The trimmed string is a slice of the input, and everything cut off on either side is whitespace. |
| Strings.TrimEmptyIffAllWhitespace | js/main.js:64-77 | A trimmed field is empty exactly when the raw field is all whitespace. |
| ProjectFilter.Shows | js/main.js:33-34 | Filter `all` shows every card. Any other filter shows a card exactly when the filter is a substring of its tags, with a missing `data-tags` read as the empty string. |
| ProjectFilter.ActivateOnly | js/projects.js:10-11 | After the update, exactly the clicked button is active, and every filter value is kept. |
| ProjectFilter.ShowMatching | js/projects.js:13-17 | Each card's visibility becomes its filter verdict, and its tags are kept. |
| ProjectFilter.Click | js/projects.js:5-20 | With no cards, no handler is attached and nothing changes. Otherwise exactly the clicked button is active, and each card is visible exactly when the clicked filter shows it. |
| ProjectFilter.ClickAllShowsEverything | js/projects.js:15-16 | After a click on `all`, every card is visible. |
| ProjectFilter.MissingTagsAndEmptyFilter | js/projects.js:14-15 | A card without `data-tags` is hidden by every non-empty filter other than `all`. An empty filter shows every card. |
| ProjectFilter.ClickIgnoresPriorState | js/main.js:25-38 | The state after a click depends only on the clicked button, the filters and the tags. It does not depend on earlier active or visible flags. |
| ProjectFilter.ClickIdempotent | js/projects.js:7-18 | Clicking the same button twice gives the same state as clicking it once. |
| Scenarios.NestedKeysResolve | js/main.js:139-149 | `a.b.c` resolves to `"hello"` in `{a: {b: {c: "hello"}}}`. |
| Scenarios.ArrayIndexResolves | js/main.js:142-145 | In `{a: {b: ["x", "y"]}}`, `a.b.0` resolves to `"x"` and `a.b.5` resolves to absent. |
| Scenarios.NullIntermediateResolvesToNothing | js/main.js:141 | `a.b` resolves to absent in `{a: null}`. |
| Scenarios.CopyrightYearFilled | js/main.js:163 | `"Copyright {year}"` with year 2025 becomes `"Copyright 2025"`. |
| Scenarios.OnlyFirstTokenFilled | js/main.js:163 | `"{year}-{year}"` with year 2025 becomes `"2025-{year}"`. |
| Scenarios.EnglishProjectsToSpanish | js/main.js:109-119 | Switching `/en/projects` to `es` gives `/es/projects`. |
| Scenarios.JavaMatchesJavascript | js/projects.js:15 | The filter `java` shows a card tagged `javascript, react`. |
| Scenarios.EmailShapes | js/main.js:72 | `me@site.dev` matches the email pattern. `me@localhost` does not. |

## Left out

- The navigation toggle, the listener wiring and every other DOM access (js/main.js:4-12, 42-48). These are browser plumbing, so elements are plain records here.
- The footer year stamp (js/main.js:15-18) and `new Date()`. The clock is outside the model, so the year is a parameter.
- `fetch`, `response.ok`, `response.json()`, `console.error` and the `async` flow. These are network I/O. Only the settled outcome (`Translation.FetchOutcome`) is modelled.
- `localStorage`, `window.location`, `new URL` parsing, and the percent-encoding or normalisation that the browser applies when `url.pathname` is assigned. The model works on the pathname string alone.
- The colour written to the status line and the absence of a status or field-error element (js/main.js:46-47, 83-95). These are presentation only. `ContactForm.Submit` assumes both elements exist, and that `form.reset()` restores empty default values.
- The `data-filter` attribute missing (`null`). JavaScript would then compare against the string `"null"`, which is coercion behaviour. Filters are strings here.
- Translation.Step: on an array, a segment that is not whitespace-padded digits finds nothing; any segment on a string, number, boolean or null finds nothing; an object finds only its own keys. In JavaScript, property access on a leaf can reach things such as `"abc"["0"]` (a character), an array's `length`, or prototype members like `toString`. The model does not represent these.
- Translation.IsIndexSegment: only whitespace-padded decimal digits count as indices. `Number()` also accepts `+1`, `1e1`, `0x1`, `0b1`, `0o1` and `-0`. Negative numbers and `Infinity` find nothing in JavaScript anyway. Fractions can only come from exponent forms such as `1e-1`, and an array finds nothing at a fractional index in JavaScript either.
- Language.ToLower: folds ASCII `A`-`Z` only. JavaScript's `toLowerCase` also folds other Unicode letters.
- Language.LowerChar: the per-character step of `Language.ToLower`, with the same ASCII-only folding. Non-ASCII upper-case letters are kept unchanged.
- Strings.ReplaceFirst: requires a replacement without `$`. JavaScript gives `$` patterns a special meaning, but `String(year)` never contains `$`.
- Json.Node numbers are kept as `real`, and no floating-point arithmetic is modelled. Nothing in the script computes with them.
