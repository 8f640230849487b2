# IPC section search — a verified model of the search core

The system is a small search engine over the sections of the Indian Penal
Code. It loads one dataset row per section, with the id, title, chapter,
legal text, explanation, illustration, exception, punishment and keywords.
Its request-time core is in `utils.py`:

- `_row` serialises a row into the dictionary callers receive.
- `search_ipc` is the search. An all-digit query is answered by a fast path
  that matches the section id by prefix. Any other query is ranked by
  TF-IDF similarity over the `search_text` column, with a relevance floor
  of 0.02.
- `get_section_by_id` looks a section up by its exact id.
- `autocomplete_ipc` suggests sections whose id starts with the typed text
  or whose title contains it.

The web layer in `app.py` adds `make_snippet`, the excerpt shown under each
search hit, and a section page that reads the fields of a serialised row.

The model is pure Dafny: functions over an immutable corpus
(`seq<Section>`), with lemmas beside them. No modelled function updates
state; the one-time column writes at load (utils.py:18-25) are left out.
The files are:

- `strings.dfy` (`Strings`) holds the Python string operations the core
  relies on: `strip`, `lower`, `isdigit`, `startswith` and `find`.
- `select.dfy` (`Select`) holds Python slicing with its bound rules, `[::-1]`,
  the first row a mask selects, and the rows a mask selects in order.
- `ranking.dfy` (`Ranking`) holds `scores.argsort()[::-1][:top_k]`. It is
  stated for every order a (non-stable) argsort may return. A reference
  insertion sort shows that such an order always exists.
- `utils.dfy` (`Utils`) holds the data model, the serialiser, the search,
  the lookup and the autocomplete.
- `app.dfy` (`App`) holds the snippet and the section page's field reads.

Facts about the code that the model keeps:

- Ties in the ranking are broken however numpy's unstable argsort leaves
  them. The model does not assume a stable order by index.
- The indexed text is the title, the law text and the keywords joined by
  single spaces.
- Ids are not assumed unique. The lookup and the fast path both return the
  first matching row.
- `top_k` follows Python slicing, negative values included. When the slice
  keeps nothing, `ranked[0]` raises `IndexError`, and the model returns that
  as a result value.
- Autocomplete compares the raw id with the lower-cased query (see
  Findings).
- The lookup returns the `_row` dictionary with its renamed keys
  (`section`, `title`, `punishment`, …).

## Model

| member | source | states |
|---|---|---|
| Strings.Strip | utils.py:65 | `strip()`: empty exactly when the input is all whitespace; otherwise the piece between the leading and trailing whitespace, with no whitespace at either end |
| Strings.LeadingSpaces | utils.py:65 | the leading run of whitespace: all spaces before it, a non-space right after it |
| Strings.TrailingStart | utils.py:65 | the trailing run of whitespace: all spaces from it on, a non-space right before it |
| Strings.Lower | utils.py:97 | `lower()`: same length, character by character, no upper-case letter left |
| Strings.LowerChar | app.py:85-86 | one character lower-cased: A–Z moved by 32, every other character kept |
| Strings.IsSpace | utils.py:65 | the whitespace `strip()` removes: the space is one, and none lies above it |
| Strings.LowerIdempotent | utils.py:103 | lower-casing twice equals lower-casing once |
| Strings.LowerSlice | app.py:85-88 | lower-casing commutes with slicing, so an index found in the lower-cased text indexes the original text |
| Strings.StripLowerCommute | utils.py:97 | `lower().strip()` equals `strip().lower()` |
| Strings.StripNoSpace | utils.py:65 | a string without whitespace is its own `strip()` |
| Strings.AlnumNotMeta | utils.py:103 | helper: letters and digits are never regular-expression metacharacters |
| Strings.FindFrom | app.py:88 | the scan behind `find`: returns an occurrence at or after `from` with none before it, or -1 when there is none from `from` on |
| Strings.Find | app.py:88 | `find`: the lowest index of an occurrence; -1 exactly when there is none |
| Strings.AbsentCharNotContained | utils.py:103 | a query whose first character never appears in the title is not contained in it |
| Strings.IsDigits | utils.py:69 | `isdigit()`: a digit string is non-empty, holds no whitespace, and is unchanged by `lower()` |
| Strings.StartsWith | utils.py:102 | `startswith(prefix)` holds exactly when the prefix occurs at index 0 |
| Strings.Contains | utils.py:103 | `contains` on a plain pattern holds exactly when the pattern occurs somewhere |
| Select.Bound | utils.py:77 | helper: a normalised slice bound never exceeds the length (the rule is stated by `Slice`'s contract) |
| Select.Slice | utils.py:77 | `s[start:stop]`: length and elements given by the normalised bounds, empty when they cross |
| Select.SlicePrefix | app.py:90 | `s[:k]` keeps `min(k, len)` elements for `k >= 0` and drops `-k` for `k < 0` |
| Select.SliceWithin | app.py:95 | within bounds, a Python slice is the plain subsequence |
| Select.Reverse | utils.py:77 | `[::-1]`: the same length, element `i` taken from position `len-1-i` |
| Select.FirstIndex | utils.py:70-72 | `df[mask].iloc[0]`: the first index the mask selects; none exactly when it selects no row |
| Select.Positions | utils.py:101-104 | `df[mask]`: the selected indices in increasing order, each selected and every selected one present; empty exactly when the mask selects nothing |
| Select.PositionsAgree | utils.py:101-104 | two masks that agree on every row select the same rows |
| Ranking.IsArgsort | utils.py:77 | a result of `argsort()` lists one row index per score, each within range, with the scores never decreasing from one entry to the next |
| Ranking.TopK | utils.py:77 | `argsort()[::-1][:top_k]`: as many distinct rows as the slice keeps, scores non-increasing, no left-out row above a kept one, the first kept row holds the maximum score |
| Ranking.TopKSelects | utils.py:77 | the same facts for any prefix of the reversed argsort order |
| Ranking.LeftOutScoresLower | utils.py:77 | a row outside the kept prefix scores no higher than any kept row |
| Ranking.Argsort | utils.py:77 | every score vector has an order meeting `IsArgsort` (a permutation sorted by ascending score) |
| Ranking.SortPrefix | utils.py:77 | indices `0..m-1` as a permutation sorted by ascending score |
| Ranking.InsertSorted | utils.py:77 | inserting the next index at its place keeps a sorted permutation |
| Ranking.InsertPos | utils.py:77 | the insertion point: no higher scores before it, only higher scores after it |
| Utils.RowOf | utils.py:46-59 | `_row`: exactly the eleven keys, the punishment column under "punishment" and never "punishment_text" |
| Utils.RowOfReadsBack | utils.py:46-59 | no field is lost: reading the eleven keys back gives the original row |
| Utils.RowOfInjective | utils.py:46-59 | two different rows never serialise to the same dictionary |
| Utils.SearchText | utils.py:25-29 | the indexed text: title, law text and keywords, two characters longer than the three together, with a single space right after the title and right after the law text |
| Utils.SearchTextCovers | utils.py:25-29 | any occurrence in the title, law text or keywords is an occurrence in the indexed text, at a known offset |
| Utils.SearchTextPieces | utils.py:25-29 | the title, law text and keywords sit at offsets 0, `len(title)+1` and `len(title)+len(law)+2` of the indexed text |
| Utils.CoveredAt | utils.py:25-29 | an occurrence inside a piece of the indexed text is an occurrence in the indexed text |
| Utils.RowsAt | utils.py:82 | the serialised rows at the ranked indices, in ranked order |
| Utils.RankedSearch | utils.py:75-82 | the ranked path: raises exactly when `[:top_k]` is empty; returns nothing exactly when every score is below 0.02; otherwise the `TopK` rows, never more than `top_k` |
| Utils.SearchIpc | utils.py:64-82 | `search_ipc`: an empty stripped query gives `[]`; the only error comes from an empty `[:top_k]`; the result holds rows of the corpus only, at most one or at most `top_k` |
| Utils.RankedRowsFromCorpus | utils.py:82 | every row the ranked path returns is a row of the corpus |
| Utils.SearchNumericFastPath | utils.py:69-72 | an all-digit query returns exactly the first row whose id starts with it, for any `top_k` and any scores |
| Utils.SearchFallsThroughToRanking | utils.py:69-77 | a non-empty query that misses the fast path (not all digits, or no id match) is answered by the ranked path |
| Utils.RankedSearchOrder | utils.py:77-82 | returned rows follow the ranked indices, scores non-increasing, no row twice |
| Utils.SearchNeverRaises | utils.py:77-79 | with at least one row and `top_k > 0`, the search never raises |
| Utils.GetSectionById | utils.py:87-91 | `get_section_by_id`: `None` exactly when no id equals the argument; otherwise the first row with that exact id, serialised |
| Utils.GetSectionByIdFindsRow | utils.py:87-91 | looking up a row's own id returns that row when no earlier row shares the id, and it reads back unchanged |
| Utils.SuggestionOf | utils.py:106-109 | a suggestion holds exactly the id and the title |
| Utils.Suggests | utils.py:101-103 | the autocomplete filter: the query occurs at the start of the raw id or anywhere in the lower-cased title; the empty query matches every row |
| Utils.MatchingRows | utils.py:101-103 | the autocomplete filter in corpus order: every kept row matches, every matching row is kept, and nothing is kept exactly when no row matches |
| Utils.SuggestionsAt | utils.py:104-109 | `.head(limit)` of the matches turned into suggestions, in order |
| Utils.SuggestionsOf | utils.py:106-109 | one suggestion per kept row, in the same order |
| Utils.AutocompleteIpc | utils.py:96-109 | `autocomplete_ipc`: a cleaned query under two characters gives `[]`; otherwise the suggestions for the first matching rows, at most `limit` and at most the corpus size |
| Utils.MatchingRowsBounded | utils.py:101-104 | there are never more matches than rows |
| Utils.IncreasingBelowBound | utils.py:101-104 | a strictly increasing list of indices below `n` has at most `n` entries |
| Utils.AutocompleteKeepsFirstMatches | utils.py:104 | a matching row left out by `.head(limit)` comes after every row returned |
| Utils.MatchingRowsCorrected | utils.py:101-103 | the corrected filter (id compared case-insensitively): sound, ordered and complete |
| Utils.SuggestsCorrected | utils.py:101-103 | the corrected filter: the query occurs at the start of the lower-cased id or in the lower-cased title; for an id with no upper-case letter it agrees with `Suggests` |
| Utils.MatchingOneRow | utils.py:101-103 | over one row, the filter keeps that row exactly when it matches |
| Utils.SuggestionsOneRow | utils.py:101-109 | over one row and a positive limit, the suggestions are that row's when it matches, none otherwise |
| Utils.AutocompleteOneRow | utils.py:96-109 | over one row, autocomplete returns that row's suggestion exactly when the cleaned query matches it |
| Utils.AutocompleteIpcCorrected | utils.py:96-109 | corrected autocomplete: every row whose lower-cased id starts with the query is among the matches |
| Utils.MatchingCorrectedOneRow | utils.py:101-103 | over one row that the corrected filter matches, that row is kept |
| Utils.AutocompleteCorrectedOneRow | utils.py:96-109 | over one row that the corrected filter matches, the corrected autocomplete suggests it |
| Utils.AutocompleteCorrectionConservative | utils.py:101-102 | when no id holds an upper-case letter, the corrected autocomplete equals the original |
| Utils.CleanedQuery | utils.py:97-103 | `lower().strip()` gives the same query as `strip().lower()`, and the cleaned query is already lower-case, so it is compared with the lower-cased title without regard to case |
| Utils.AutocompleteMissesSuffixedId | utils.py:97-102 | typing "498A" exactly as stored suggests nothing for section 498A |
| Utils.AutocompleteCorrectedFindsSuffixedId | utils.py:97-102 | the corrected autocomplete suggests section 498A for "498A" |
| Utils.LowerLiteral498A | utils.py:97 | helper: the query "498A" is cleaned to "498a" |
| Utils.ScenarioSearchById | utils.py:69-72 | searching "302" returns section 302 alone |
| Utils.ScenarioSearchByWord | utils.py:75-82 | a word query whose row scores above the floor returns that row |
| Utils.RankedSearchOneRow | utils.py:77-82 | over one row scoring at least 0.02, any positive `top_k` returns that row |
| Utils.TopKOneRow | utils.py:77 | a single row is ranked first by any positive `top_k` |
| Utils.ScenarioSearchNoMatch | utils.py:79-80 | a query whose row scores 0 returns `[]` |
| Utils.ScenarioAutocomplete | utils.py:96-109 | "Mur" suggests section 302, "Murder" |
| App.MakeSnippet | app.py:84-95 | `make_snippet`: always ends in "..."; without a case-insensitive match it is the first 300 characters plus "..."; with one at `idx` and `window >= 0` it is a window of the text around `idx` framed in "...", at most `2*window+6` long |
| App.FallbackSnippet | app.py:89-90 | `text[:300] + "..."`, at most 303 characters |
| App.WindowSnippet | app.py:92-95 | for `window >= 0`, the window `[max(0, idx-window), min(len, idx+window))` lies inside the text, around `idx`, framed in "..." |
| App.SnippetWindowHoldsMatch | app.py:88-93 | when the query fits in the window, the window holds the whole match, which equals the query up to case |
| App.SnippetShowsMatch | app.py:88-95 | for a match at `idx` no longer than the window, the snippet shows the matched stretch of the original text, `idx - start` characters after the opening "..." |
| App.SnippetIsWindow | app.py:88-95 | a query that is found lies inside the text, and the snippet is the window around its match |
| App.WindowShows | app.py:92-95 | the window snippet shows any stretch of up to `window` characters from `idx`, shifted by the opening "..." and `idx - start` |
| App.MatchInText | app.py:85-88 | a match found in the lower-cased text lies within the text |
| App.FramedStretch | app.py:95 | helper: a stretch of the window reappears in the framed snippet, shifted by three |
| App.SliceOfSlice | app.py:95 | helper: a stretch of `text[start:end]` is the same stretch of `text` |
| App.Framed | app.py:95 | helper: framing in "..." shifts each stretch by three |
| App.SnippetEmptyQuery | app.py:88-95 | the empty query is found at 0, so its snippet is the first `window` characters framed in "..." |
| App.HitDescription | app.py:111 | the search route's description of a hit, with the default window 150: at most 306 characters, ending in "...", and the first 300 characters of the row's law text when the query does not occur in it |
| App.FieldOrEmpty | app.py:135-138 | `d.get(key) or ""`: the stored value when the key is present, "" otherwise |
| App.HtmlBreaks | app.py:135-138 | `.replace("\n", "<br><br>")`: a lone line feed becomes "<br><br>", any other lone character is kept; no line feed is left, the result is empty exactly when the input is, and text without a line feed is kept as it is |
| App.HtmlBreaksAppend | app.py:135-138 | the replacement of a concatenation is the concatenation of the replacements, so with the one-character cases of `HtmlBreaks` every character is replaced on its own, in order |
| App.PageField | app.py:135-138 | `(d.get(key) or "").replace("\n", "<br><br>")`: "" for a missing key, otherwise the stored value with line feeds replaced; empty exactly when the key is missing or its value is empty |
| App.PagePunishment | app.py:138 | as written, the page reads the key "punishment_text": its value with line feeds replaced when present, and "" for every dictionary carrying exactly the keys `_row` emits |
| App.PagePunishmentCorrected | app.py:138 | corrected, the page reads the key "punishment": for a dictionary `_row` emits, the stored punishment with line feeds replaced |
| App.PagePunishmentAlwaysEmpty | app.py:138 | as written, the section page's punishment is "" for every row found |
| App.PagePunishmentLost | app.py:138 | section 302 has a punishment, yet the page shows "" |
| App.PagePunishmentCorrectedShown | app.py:138 | reading the key `_row` emits returns the looked-up row's punishment with line feeds replaced, non-empty exactly when the punishment is |
| App.PageFieldsShown | app.py:135-137 | the page's reads of main text, explanation and illustration return the row's stored fields with line feeds replaced |

## Left out

- TF-IDF weighting, stop words, n-grams and cosine similarity (utils.py:34-41, 75-76) are computed by a library. The scores are an input to `SearchIpc`, one per row. The model states what is done with them, not how they are computed.
- The order numpy's `argsort` returns is an input as well. Any order meeting `IsArgsort` is allowed, so every tie order is covered.
- Loading the CSV, `fillna("")` and adding missing columns (utils.py:8-20) are not modelled. The corpus is taken as given, every field a string.
- `str(section_id)` is not modelled. A row's id is the string form that the code compares.
- The FastAPI routes, the HTML the section page builds around its fields and `app.js` are not modelled.
- Strings.Strip, Strings.Lower and Strings.IsDigits cover ASCII only. Unicode whitespace, case mappings beyond A–Z and non-ASCII digits are not modelled.
- AutocompleteIpc: requires a query with no regular-expression metacharacter. pandas `str.contains` reads the query as a regular expression, and its regex semantics are not modelled. For such queries it is a plain substring test. A malformed pattern such as "(a" makes the source raise `re.error` at utils.py:103; the requires excludes that error path, which the model does not represent.
- App.MakeSnippet, App.WindowSnippet: a negative window is computed with Python slice rules, as the source does, but for it only the closing ellipsis and the fallback case are stated; the window bounds and the `2*window+6` length are stated for `window >= 0`.
- SearchIpc: states which path answers and what each path returns. It does not relate the scores to the query text, because the vectoriser is not modelled.

## Findings

| source | as written | input that shows it | evidently intended | confidence | as-written member | corrected member |
|---|---|---|---|---|---|---|
| app.py:138 | the section page reads `d.get("punishment_text")`, but `_row` (utils.py:57) stores the punishment under "punishment" | any section, e.g. 302 with punishment "Death, or imprisonment for life, and fine": the page's punishment is "" | read `d.get("punishment")` and show the row's punishment | high, not executed | App.PagePunishmentLost | App.PagePunishmentCorrectedShown |
| utils.py:97-102 | the query is lower-cased, but the id is compared by `startswith` without lower-casing | id "498A" with title "Cruelty by husband", query "498A": cleaned to "498a", no id or title matches, result `[]` | compare the lower-cased id, so that a suffixed section can be found by its id | medium, not executed | Utils.AutocompleteMissesSuffixedId | Utils.AutocompleteIpcCorrected |
