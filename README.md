# resume-builder: the resume store and the project recommender

This project models the core of a small HTTP service that stores resumes and recommends projects. Everything the service does beyond transport lives in `main.go`.

- **The resume store** (`Store`) is a table from email address to resume. It is the process-wide `resumes` map. Three handlers use it:
  - create refuses an email that is already a key, and otherwise files the resume under its email;
  - get returns the resume for an email, or reports that it is not found;
  - add-project reports an unknown email, or copies the record, appends the project to its project list and writes the record back.

  After each successful change, the whole table is written to `resumes.json`. The model keeps that file's contents as the field `snapshot` of the `ResumeStore` class. The class's methods change `resumes` and `snapshot` in place, as the handlers do. Each method is proved against a pure transition function (`Lookup`, `Insert`, `AddProject`), and the lemmas about those functions relate the operations to one another.
- **The recommender** (`Recommend`) takes a catalog, a role string and a limit `topN`. It behaves as follows:
  - an empty catalog fails;
  - the role is lower-cased and split into white-space-separated words;
  - each catalog project, in order, is kept if its lower-cased description contains any role word; the first word that matches stops the test, so a project is kept at most once;
  - every kept project gets a random score;
  - the list is cut to its first `topN` entries.

  `RecommendProjects` is the handler's nested loop, with its `break`. It is proved equal to the function `Recommendation`, and the lemmas state what a recommendation promises.
- **Text** models the three functions of Go's `strings` package that the filter calls: `ToLower`, `Fields` and `Contains`. `Contains` is proved equal to a reference definition of substring occurrence. `Fields` is pinned down on every string by two results together. First, any layout of words with white space (any non-empty white space between words, any white space before the first word and after the last) splits back into exactly those words. Second, every string is such a layout of the words `Fields` yields, with its own white-space gaps.
- **Records** holds the `Resume` and `Project` records, the error kinds and a `Result` type.

Inputs that are I/O or randomness in the source are parameters here:
- the catalog that `loadProjects` reads from `projects.json` is the `catalog` argument;
- whether `resumes.json` could be created is the `writeOk` argument;
- the values of `rand.Float64()` are `draw(0)`, `draw(1)`, …, so the k-th project kept in a request is scored `10 * draw(k)`.

The catalog is a value (`seq`), so nothing a recommendation does can change it. This matches the source, where `proj` is a per-iteration copy.

Notes on the source:
- `resumes.json` is written but never read back. After a restart the table is empty, and the first successful create overwrites whatever the file held. The constructor `ResumeStore(onDisk)` makes this visible: the table starts empty whatever `onDisk` is.
- In Go, `recommended[:input.TopN]` panics for any negative `top_n`, whatever the number of matches, because every length is greater than a negative limit. The server's recovery handler turns the panic into an HTTP 500. The model returns `Err(NegativeLimit)` in that case. The empty-catalog check runs first, so an empty catalog with a negative limit still reports `Unavailable`.
- A duplicate email is answered with HTTP 400, not 409. The model calls this error `Conflict`.

## Model

| member | source | states |
|---|---|---|
| Text.ToLower | main.go:113 | The result has the input's length and contains no upper-case ASCII letter. Each upper-case letter is moved by the distance from 'A' to 'a', which gives its lower-case letter, and every other character is kept |
| Text.ToLowerIdempotent | main.go:117 | Lower-casing an already lower-cased string changes nothing |
| Text.Fields | main.go:113 | Every word is non-empty and contains no white space |
| Text.FieldsEmptyIffAllSpace | main.go:113 | A string yields no words exactly when every character is white space (including the empty string) |
| Text.FieldsJoinWords | main.go:113 | Splitting words joined by single spaces gives the same words back, in order |
| Text.FieldsCharsFrom | main.go:113 | Every character of every word comes from the split string |
| Text.FieldsOfSpaced | main.go:113 | Words laid out with any white space before, between (non-empty) and after them split back into exactly those words, in order |
| Text.GapsAreLayout | main.go:113 | The white space of any string, cut at its words, is a valid layout for the words `Fields` yields: all gaps are white space, and every gap between two words is non-empty |
| Text.SpacedGapsRebuilds | main.go:113 | Any string is exactly its words laid out with its own gaps, so no character is dropped or reordered. Together with the two rows above, this determines `Fields` on every string |
| Text.Contains | main.go:117 | True exactly when the word occurs at some position in the text (the reference definition `IsSubstring`) |
| Store.Lookup | main.go:89-96 | Succeeds exactly when the email is a key, returning the stored resume; otherwise NotFound |
| Store.Insert | main.go:76-81 | Conflict exactly when the email is already a key; otherwise the key set grows by that email alone, it maps to the given resume, and every old key keeps its record |
| Store.WithProject | main.go:149 | Name, email, skills and experience unchanged; the project list grows by one, keeps its old entries in order as a prefix, and ends with the new project |
| Store.AddProject | main.go:143-150 | NotFound exactly when the email is not a key; otherwise the key set is unchanged, that key's record gains the project at the end, and no other record changes |
| Store.CreateThenGet | main.go:76-96 | Creating under a fresh email succeeds, a later get of that email returns the resume, and gets of other emails are unaffected |
| Store.AddProjectThenGet | main.go:89-96 | After adding a project to a known email, a get of that email returns the extended record |
| Store.AddProjectKeepsCreateOutcome | main.go:76-79 | Adding a project never changes whether a later create conflicts |
| Store.TransitionsKeepFiling | main.go:81 | Create and add-project keep every resume filed under its own email |
| Store.AddProjectsInOrder | main.go:143-150 | A run of add-project requests for a known email appends the projects in request order and changes no other record |
| Store.AddProjectsUnknown | main.go:143-147 | Add-project requests for an unknown email fail with NotFound |
| Store.ResumeStore.constructor | main.go:38 | The table starts empty and the snapshot is whatever was on disk |
| Store.ResumeStore.Save | main.go:57-66 | The snapshot becomes the whole table when the file can be written; otherwise it stays as it was |
| Store.ResumeStore.CreateResume | main.go:76-84 | A duplicate email returns Conflict and changes neither the table nor the snapshot; otherwise the table becomes `Insert` of the old table, and the snapshot equals the new table if the write succeeds |
| Store.ResumeStore.GetResume | main.go:89-96 | Returns `Lookup` of the current table and changes nothing. A resume it returns carries the email it was asked for |
| Store.ResumeStore.AddProjectToResume | main.go:143-153 | An unknown email returns NotFound and changes neither the table nor the snapshot; otherwise the table becomes `AddProject` of the old table, and the snapshot equals the new table if the write succeeds |
| Recommend.RoleWords | main.go:113 | The role's words are non-empty, white-space free and contain no upper-case letter |
| Recommend.Matching | main.go:115-123 | At most as many projects as the catalog, each passing the filter |
| Recommend.Scored | main.go:118-119 | Same length; each project differs from its original only in its score, which is ten times the draw for its position |
| Recommend.Truncate | main.go:126-128 | The result has length min(length, limit) and is a prefix of the input |
| Recommend.Recommendation | main.go:107-128 | Fails with Unavailable exactly when the catalog is empty, and with NegativeLimit exactly when the catalog is non-empty and the limit is negative |
| Recommend.RecommendProjects | main.go:107-130 | The nested scan, its early exit and the final slice compute exactly `Recommendation` |
| Recommend.ScanKeeps | main.go:115-121 | A scanned project that passes the filter is appended to the result so far, with the score of the next draw |
| Recommend.ScanSkips | main.go:115-123 | A scanned project that fails the filter leaves the result so far unchanged |
| Recommend.MatchingAppend | main.go:115-123 | Filtering a concatenation is the concatenation of the filtered parts |
| Recommend.PositionsSelect | main.go:115-123 | The kept projects are the catalog read at the listed positions |
| Recommend.PositionsAscend | main.go:115-121 | The listed positions strictly ascend, so the result follows catalog order and no entry is kept twice |
| Recommend.PositionsExact | main.go:115-123 | A position is listed exactly when the catalog entry there passes the filter |
| Recommend.BlankRoleHasNoWords | main.go:113 | An empty or all-white-space role has no words |
| Recommend.MatchingNoWords | main.go:116 | With no role words, no project is kept |
| Recommend.EmptyCatalogFails | main.go:107-110 | An empty catalog fails with Unavailable for every role and limit |
| Recommend.RecommendedHaveWitness | main.go:116-119 | Every recommended project's lower-cased description has some role word as a substring |
| Recommend.RecommendedInCatalogOrder | main.go:115-128 | The result has length min(number of matches, topN); its k-th entry is the catalog entry at the k-th matching position, apart from the score; the positions ascend and are exactly the matching ones |
| Recommend.FewMatchesAllReturned | main.go:126-128 | With at most topN matches, every match is returned, scored, in catalog order |
| Recommend.BlankRoleRecommendsNothing | main.go:113-123 | A non-empty catalog and a blank role give an empty, successful result |
| Recommend.ScoresInRange | main.go:118 | When every draw lies in [0, 1), every recommended score lies in [0, 10) |
| Recommend.FirstTwoOfThree | main.go:115-128 | With matches at catalog positions 0, 2 and 3 and a limit of 2, the result is the entries at positions 0 and 2, scored with the first two draws |
| Recommend.BackendTopTwo | main.go:107-128 | The role "backend" with limit 2, over a catalog where three of four descriptions mention "backend" in any letter case, returns the first two of them in catalog order |

## Left out

- Request binding and JSON responses in the gin handlers (main.go:69-74, 84, 130, 138-141, 153): these are transport. The outcomes are `Result` values. A malformed body (HTTP 400 "Invalid request body") is not modelled.
- HTTP status codes: the error kinds carry them only as comments.
- No matches: Go encodes the `nil` slice as JSON `null`; the model returns the empty sequence.
- `loadProjects` (main.go:42-54): file I/O and JSON decoding. The catalog is an input sequence. The model does not capture that a decoding error can leave a partly filled catalog.
- `saveResumes` (main.go:57-66): JSON encoding and file writing. A save is "snapshot := table", or no change when the file cannot be created (`writeOk` false). Encoding errors and partial writes are not modelled.
- `rand.Float64()` (main.go:118): non-deterministic. Its values are the parameter `draw`, and scores are exact `real` arithmetic, not float64.
- Text.ToLower: does not model Unicode case mapping beyond the ASCII letters. Go's `strings.ToLower` also lower-cases other scripts.
- Strings are sequences of Unicode scalar values. Byte strings that are not valid UTF-8 are not modelled.
- `top_n` is Go's 64-bit `int`. The model uses an unbounded `int`, since values out of range fail at binding.
- The unlocked shared map: concurrent requests race in the source. The model is sequential.
- `main` (main.go:156-167): routing and server start-up.
- ML-recommender/tfidf_project_recommender.py: TF-IDF and cosine similarity over a foreign library, behind a separate web service.
- elasticsearch.go: commented out entirely, and a network client.
- config.go: environment-variable loading.
- Round trip of persisting and reloading the snapshot: the source never reads `resumes.json` back, so there is no reload to model.
