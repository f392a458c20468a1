# Reverent-mass parish directory: a Dafny model

The repository is a small web directory of Catholic parishes. A browser client
(`app.js`) ranks parishes by a "reverence score", filters them by a location/ZIP query
and by liturgical detail tags, and lets visitors add community notes that are kept in
browser storage. A small Node server (`server.js`) serves the static files and refuses
request targets whose resolved path does not start with the root directory as a string.

This project models the core of both programs as pure Dafny functions over immutable
data and proves what they promise:

- `Parishes`: the parish record, the slider weights, and the three seed records of
  `app.js`. JavaScript numbers are exact reals.
- `Scoring`: `normalize` and `buildReverenceScore`. The score is a whole percentage
  when the inputs are non-negative. Signals past their ceiling add nothing, and raising
  any signal never lowers the score. The seed parishes score 83, 57 and 40 under
  weights 3/2/2.
- `Ranking`: the copy-and-sort in `render`. This is a stable sort by descending score.
  It is modelled as an insertion sort and proved to be a permutation, to be sorted and
  to be stable. It is also proved to be the only list with all three properties.
- `Search`: `applySearch`. It is an order-preserving filter whose survivors are exactly
  the parishes that match the trimmed, lower-cased query and carry every selected tag.
- `Notes`: `mergeSavedNotes` and the note form's submit handler. Validation, the
  append, the store update, and the fact that a saved note survives a reload.
- `Labels`: `formatDetailLabel`, described character by character.
- `Text` and `Seqs`: the JavaScript string and array operations these use. These are
  `trim`, `toLowerCase`, `includes`, `startsWith`, `split`, `join` and `filter`, with
  their round-trip lemmas.
- `PosixPath`: the part of Node's `path.resolve` the server relies on. It covers the
  segment normaliser, and the string-prefix test against a root made of directory
  names.
- `StaticServer`: `safeResolve`, the 400 answer, and the Content-Type lookup. This
  includes Node's `path.extname` loop as a method proved equal to a declarative
  definition.

The root test of `safeResolve` is a raw string-prefix test, and the model shows exactly
what that admits. `StaticServer.AcceptedIffWithinOrSibling` states that a target is
accepted exactly when it resolves inside the root, or inside a sibling directory whose
name starts with the root's last name. `StaticServer.SiblingExample` instantiates this.
With the root `/srv/app`, the target `/../app2/x` is accepted as `/srv/app2/x`, which
lies outside the root. The model keeps this behaviour as written.

## Model

| member | source | states |
|---|---|---|
| Text.Trim | app.js:280 | the trimmed text is empty exactly when the input is all whitespace, otherwise it starts and ends with non-whitespace, and it occurs inside the input |
| Text.TrimBetween | app.js:280 | trimming a string that is not all whitespace yields exactly the slice from its first to its last non-whitespace character |
| Text.ToLower | app.js:280 | ASCII `toLowerCase`: same length, each upper-case letter moved 32 code points up to its lower-case letter, every other character kept, and no upper-case letter left in the result |
| Text.ToLowerIdempotent | app.js:280 | lower-casing an already lower-cased query or location changes nothing |
| Text.Split | app.js:158 | splitting always yields at least one piece |
| Text.SplitPiecesFree | app.js:158 | no piece contains the separator |
| Text.SplitWithoutSeparator | server.js:17 | a string without the separator splits into itself alone |
| Text.JoinSplit | app.js:158-160 | joining the pieces with the separator gives back the original string |
| Text.Join | app.js:160 | `join(" ")`: no pieces give "", otherwise the first piece leads, a separator follows it when there are more, and the length is the pieces' total plus one separator per gap |
| Text.SplitJoin | app.js:158-160 | splitting a join of separator-free pieces gives back the pieces |
| Text.SplitConcat | server.js:17 | splitting around one separator concatenates the splits of both sides |
| Text.SplitHead | server.js:17 | the first piece is the text before the first separator, or all of it when there is none |
| Text.JoinAppend | app.js:160 | joining two lists joins their joins with one separator between two non-empty sides |
| Seqs.Filter | app.js:282-290 | the kept elements are exactly those of the input satisfying the predicate, each as often as in the input |
| Seqs.FilterIsSubsequence | app.js:282 | filtering keeps the survivors in their input order |
| Seqs.FilterKeepAll | app.js:282 | a predicate that holds everywhere keeps the whole list unchanged |
| Seqs.FilterConcat | app.js:282 | filtering distributes over concatenation |
| Scoring.Normalize | app.js:95-97 | the share of the ceiling, capped at 1: value/max below the ceiling, 1 from it on, never negative for a non-negative value |
| Scoring.SumRatings | app.js:106 | the sum of ratings in 1..5 lies between n and 5n |
| Scoring.CrowdAverage | app.js:105-107 | 0 without notes; between 1 and 5 when every rating is in 1..5 |
| Scoring.Round | app.js:114 | `Math.round`: the integer within half of the value, halves rounded up |
| Scoring.Component | app.js:100-103 | a non-negative signal contributes between 0 and its weight |
| Scoring.CrowdScore | app.js:108 | 0 without notes; between 0 and 2 for non-negative ratings |
| Scoring.MaxPossible | app.js:111-112 | with non-negative weights the denominator is at least the fixed crowd weight 2 |
| Scoring.ReverenceScore | app.js:99-115 | `buildReverenceScore` is defined whenever the maximum is non-zero and, for non-negative weights and signals, is a whole percentage in 0..100 |
| Scoring.PercentInRange | app.js:114 | a total between 0 and the maximum rounds to a percentage between 0 and 100 |
| Scoring.ScoreInRange | app.js:99-115 | with non-negative weights and signals the score lies in 0..100 |
| Scoring.CeilingsSaturate | app.js:95-103 | a signal at or past its ceiling (10, 40, 5, 5) scores the same as the ceiling itself |
| Scoring.ComponentMonotone | app.js:95-103 | a component never shrinks when its signal grows |
| Scoring.PercentMonotone | app.js:114 | the rounded percentage is monotone in the total |
| Scoring.ScoreMonotone | app.js:99-115 | raising any signal, notes unchanged, never lowers the score under non-negative weights |
| Scoring.StJohnVianneyScore | app.js:99-115 | St. John Vianney scores 83 under weights 3/2/2 |
| Scoring.HolyTrinityScore | app.js:99-115 | Holy Trinity scores 57 under weights 3/2/2 |
| Scoring.OurLadyOfTheAngelsScore | app.js:99-115 | Our Lady of the Angels scores 40 under weights 3/2/2 |
| Scoring.NoNotesExample | app.js:105-108 | without notes the crowd share is 0: St. John Vianney's signals alone score 67 |
| Ranking.Insert | app.js:175-177 | inserting adds exactly one element, and keeps a sorted list sorted |
| Ranking.SortDesc | app.js:175-177 | the sorted list is a permutation of the input with non-increasing keys |
| Ranking.InsertWithKey | app.js:177 | inserting puts the element at the front of its key class and leaves every other class unchanged |
| Ranking.SortStable | app.js:175-177 | within each key class the sorted list keeps the input order |
| Ranking.SortedByClassesUnique | app.js:175-177 | two lists with non-increasing keys and the same key classes are equal, so there is only one stable descending sort |
| Ranking.Rank | app.js:175-177 | the listed order is a permutation of the parishes, by non-increasing reverence score |
| Ranking.RankStable | app.js:175-177 | parishes with equal scores keep their input order |
| Ranking.RankIsTheStableSort | app.js:175-177 | any list sorted by descending score that keeps equal scores in input order is exactly the listed order |
| Ranking.ThreeInOrder | app.js:175-177 | three parishes already in descending score order keep that order |
| Ranking.SeedRanking | app.js:175-177 | the seed parishes (83, 57, 40 under 3/2/2) are listed in their seed order |
| Search.NormalizedQuery | app.js:280 | the normalised query is empty exactly when the raw query is blank |
| Search.ApplySearch | app.js:279-291 | an order-preserving sub-list holding exactly the parishes whose location or ZIP matches and which carry every selected tag, each as often as in the input |
| Search.BlankSearchKeepsAll | app.js:284 | a blank query with no tags keeps every parish in order |
| Search.Found | app.js:282-290 | every matching parish of the input is in the result (a corollary of the right-to-left half of `ApplySearch`'s membership clause, stated for one parish) |
| Search.LatinAndTongueExample | app.js:288 | tags "latin" and "tongue" keep only St. John Vianney of the seeds |
| Search.ZipExample | app.js:286 | a query that trims to "75039", such as "  75039 ", finds Holy Trinity by ZIP |
| Search.CaseInsensitiveLocationExample | app.js:285 | a query that normalises to "dallas", such as "DALLAS", finds St. John Vianney in "Dallas, TX" |
| Notes.MergeSavedNotes | app.js:240-246 | same length; each parish changes only in its notes, which become the saved list exactly when one is saved and non-empty |
| Notes.MergeWithEmptyStore | app.js:240-246 | merging an empty store changes nothing |
| Notes.MergeIdempotent | app.js:240-246 | merging twice with the same store is merging once |
| Notes.SubmitNote | app.js:217-231 | rejected exactly when the trimmed comment is empty or the rating lies outside 1..5; otherwise the note is appended (trimmed comment, rating) and the whole list is saved under the parish id, other ids untouched |
| Notes.RejectedExamples | app.js:223-225 | a blank comment, a rating of 0 or a rating of 6 is rejected |
| Notes.SubmitThenReload | app.js:227-230 | after an accepted note, merging the updated store gives parishes with that id the list ending in the new note and leaves every other parish as before |
| Notes.SubmitKeepsRatingsValid | app.js:223-227 | accepted notes keep every rating in 1..5 |
| Labels.FormatDetailLabel | app.js:156-161 | the label is as long as the tag; hyphens become spaces, the first letter of each piece is upper-cased, every other character is kept |
| Labels.Capitalize | app.js:159 | only the first character of a piece can change: a lower-case ASCII letter becomes its capital (32 code points down), any other first character is kept |
| Labels.SplitMapJoinFrom | app.js:157-160 | split, capitalise and join equals a single left-to-right pass over the tag |
| Labels.LabelFromChars | app.js:156-161 | that pass changes exactly the characters the label description names |
| Labels.AdOrientemLabel | app.js:156-161 | "ad-orientem" becomes "Ad Orientem" |
| Labels.AltarRailLabel | app.js:156-161 | "altar-rail" becomes "Altar Rail" |
| PosixPath.ResolveSegments | server.js:19 | the resolved segments are all names: no empty, "." or ".." segment survives |
| PosixPath.Resolve | server.js:19 | `path.resolve` yields an absolute path whose segments are the normalised ones |
| PosixPath.Step | server.js:19 | one segment of the normaliser shrinks or grows the kept list by at most one, keeps its other entries in place, appends only the segment itself, and keeps a list of names a list of names |
| PosixPath.NormalizeFrom | server.js:19 | normalising never produces more segments than were kept plus those read |
| PosixPath.NormalizeKeepsNames | server.js:19 | normalising slash-free segments from names leaves only names |
| PosixPath.NormalizeConcat | server.js:19 | normalising in two parts is normalising the whole |
| PosixPath.NormalizeNames | server.js:19 | plain names are appended as they are |
| PosixPath.NormalizeWithoutParent | server.js:19 | without ".." the normaliser only adds to what was kept |
| PosixPath.ParentAtRoot | server.js:19 | ".." at the filesystem root is ignored |
| PosixPath.NormalizeJoined | server.js:19 | names joined with "/" normalise to the kept list followed by those names |
| PosixPath.ResolveFromRoot | server.js:19 | resolving against a root made of names continues the normaliser from those names |
| PosixPath.JoinedPrefix | server.js:20 | one joined name list starts another as a string exactly when it is inside it or in a sibling whose name extends the last name |
| PosixPath.PathPrefix | server.js:20 | the same for the absolute paths of the two lists |
| PosixPath.PrefixOfSlashed | server.js:20 | a slash-free first name followed by "/" starts another such path exactly when the first names agree and the rests do |
| StaticServer.RequestPath | server.js:17 | the request path is the target (or "/" when missing) up to its first "?", and holds no "?" |
| StaticServer.CleanPath | server.js:18 | the bare root "/" is never resolved as such: it becomes "/index.html"; any other target is kept, and an absolute one stays absolute |
| StaticServer.Candidate | server.js:19 | the resolved candidate is an absolute path |
| StaticServer.SafeResolve | server.js:16-22 | a returned path is absolute, starts with the root and is made of plain names only (no empty, "." or ".." segment is left), and nothing is returned when the resolved path does not start with the root; which targets that admits is characterised by `AcceptedIffWithinOrSibling` |
| StaticServer.AcceptedIffWithinOrSibling | server.js:20 | for a root made of names, a target is accepted exactly when it resolves inside the root or inside a sibling whose name extends the root's last name |
| StaticServer.QueryIgnored | server.js:17 | appending "?query" to a target does not change the result |
| StaticServer.IndexDefault | server.js:17-18 | "/" and a missing target both resolve to the root's index.html and are accepted |
| StaticServer.IndexWithQuery | server.js:17-18 | "/?" followed by any query also resolves to the root's index.html and is accepted |
| StaticServer.NoParentAccepted | server.js:16-22 | a target starting with "/" whose path part has no percent-escape and no ".." segment is accepted and resolves inside the root |
| StaticServer.SiblingAccepted | server.js:20 | "/../<sibling>/<file>" reaches a file outside the root and is accepted whenever the sibling's name extends the root's last name |
| StaticServer.SiblingExample | server.js:20 | with root "/srv/app", "/../app2/x" is accepted as "/srv/app2/x", which is not inside the root |
| StaticServer.ClimbAboveRoot | server.js:19 | "/../../../a/b" under a two-level root climbs to the filesystem root and reaches "/a/b" |
| StaticServer.ClimbRefused | server.js:20 | that climb is refused when it leaves the root's top directory |
| StaticServer.EscapeRefused | server.js:16-22 | with root "/srv/app", "/../../../etc/passwd" is refused |
| StaticServer.FallbackNotInTable | server.js:9-14 | the fallback type is none of the table's four types |
| StaticServer.MimeFor | server.js:34 | the fallback is returned exactly when the extension is not in the table; otherwise a table type |
| StaticServer.ContentType | server.js:33-34 | a served file gets one of the four table types or the fallback, and a file without an extension always gets `application/octet-stream` |
| StaticServer.Handle | server.js:25-34 | a refused target, and only a refused one, is answered with status 400 and the plain-text body "Bad request"; a served path is absolute, made of plain names and starts with the root, and its Content-Type is always one of the four table types or `application/octet-stream` |
| StaticServer.Extname | server.js:33 | the extension is empty or a "." with no other "." and no "/", and it ends the last segment |
| StaticServer.ExtnameScan | server.js:33 | Node's right-to-left `extname` scan computes exactly `Extname` |
| StaticServer.ScanBack | server.js:33 | the scan's loop stops at the start of the last segment with its end, its last "." and what precedes that "." |
| StaticServer.BaseNameOfPath | server.js:33 | the last segment of a resolved path is its last name |
| StaticServer.ServedContentType | server.js:33-34 | a served file's type depends only on its own name's lower-cased extension |
| StaticServer.ServedFallback | server.js:34 | a name whose lower-cased extension is not in the table is served as application/octet-stream |
| StaticServer.ServedFromTable | server.js:34 | a name whose lower-cased extension is in the table is served with that entry |
| StaticServer.UpperCaseExample | server.js:33 | "INDEX.HTML" is served as HTML: the extension is lower-cased first |
| StaticServer.DotfileExample | server.js:33-34 | the dotfile ".html" has no extension and is served as application/octet-stream |
| StaticServer.UnknownExtensionExample | server.js:34 | "logo.png" is served as application/octet-stream |
| StaticServer.LastExtensionExample | server.js:33 | "app.min.js" is served as JavaScript: only the last "." counts |

## Left out

- The DOM, rendering, sliders and form widgets of `app.js` are left out as user interface. The weights and the form's field values are parameters.
- `localStorage`, `fetch`, the `/api/...` endpoints and the build stamp are I/O. The store is a parameter and a result, a map from parish id to note list.
- Re-rendering after a submission is not modelled. The submission returns the updated parish and store.
- JavaScript array aliasing is not modelled. After `push`, the stored list and the parish share one array; here they are two equal values.
- The free-text `liturgyNotes` and `webSignals` seed fields are only displayed, so they are not part of the data model.
- Floating point is modelled as exact reals. NaN, infinities and -0 are not covered.
- Notes.MergeSavedNotes, Notes.MergeWithEmptyStore, Notes.SubmitNote, Notes.SubmitThenReload: the store is a map, so a lookup finds only ids that were saved. In the browser the parsed store is a plain object that inherits `Object.prototype`, so ids that name one of its properties ("constructor", "__proto__", "toString", …) are not modelled. For "constructor", `stored[id]?.length` reads the inherited `Object` function, whose length is 1, and the merge would install it as the notes. Writing under "__proto__" replaces the prototype instead of storing a list.
- Notes.SubmitNote: the rating is an exact real, so a non-numeric rating field is not modelled. In JavaScript it becomes NaN, which passes both range comparisons and would be appended.
- Scoring.ReverenceScore: only weights whose denominator is 0 are excluded, where JavaScript would divide by zero.
- `toLowerCase` and `toUpperCase` are modelled for ASCII letters only.
- `decodeURIComponent` is taken as the identity. Targets with percent-escapes, and its exception on malformed escapes, are not modelled.
- The server's `ROOT` (`__dirname`) is a parameter. The lemmas about the root test assume a root made of plain directory names, as a canonical `__dirname` is.
- `fs.readFile`, the fallback to `index.html` and the 404 answer are I/O. `Handle` stops at "serve this path with this type".
- The HTTP server itself and the port and host settings are runtime configuration.
- `path.resolve` is modelled for the call the server makes: an absolute root and a relative path starting with ".". Other forms, and the working-directory lookup, are not modelled.
- StaticServer.ExtnameScan follows Node's own `path.extname` loop. That loop is Node library code and is not part of this repository.
- The data-merge scripts under `scripts/` are not part of this model.
