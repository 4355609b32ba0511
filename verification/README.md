# Dictionary-page extraction engine, modelled in Dafny

The service behind `/translate` loads a dictionary page for an English word in
a headless browser and runs one page script over the rendered document. That
script reads the input section (source text, phonetic, default translation),
walks the definitions section once to build sense definitions grouped by part
of speech, walks the translations table (when there is one) to build
translation variants grouped by part of speech, and returns one record, or
`null` when the bottom section of the page is missing.

This project models that page script. Every CSS-selector lookup is replaced
by an already-classified node (`Dom`): a child of the definitions section is
early fields, a part-of-speech marker, a definition entry (visible or
collapsed, handled alike) or something else; a translation row has an
optional part-of-speech cell, an optional visible cell and an optional
collapsed cell. On those nodes:

- `Fields` is the field renderer: each tag upper-cased and written `(TAG) `.
- `Definitions` is the definitions pass, a loop carrying the pending field
  prefix (`earlyFields`), the open group and the first non-empty label.
- `Translations` is the translations pass: the fallback group without a
  table, otherwise one group per `tbody` that has rows, with the default
  translation reconciled into the group of `tbody` 0.
- `Extraction` assembles the record, or gives not-found.

Each loop of the script, and the script body itself, is a method
(`ScrapeFields`, `ScrapeDefinitions`, `ScrapeTranslations`, `Scrape`) proved equal to a specification function
(`Render`, `Definitions.Extract`, `Translations.Translations`,
`Extraction.Extract`). `Definitions.Extract` folds `Definitions.Step`, the
transition for one child, over the children. `Translations.Translations`
is built from `TransFrom` (the outer loop over `tbody` groups), `GroupOut`
(one `tbody`), `Rest` (rows 1 and up) and `Reconcile` (row 0 with the
default translation). The lemmas state what the script promises about those
functions. Where the script would throw on a lookup that matched nothing, the
model returns a `Fault` instead, and the whole extraction gives
`Malformed(fault)`.

Behaviour followed from the code:

- Part-of-speech labels are copied exactly as the page shows them; nothing
  capitalises them.
- A missing definitions section does not give not-found. Only a missing
  bottom section does. Without a definitions section the record has no
  definition groups, and its fallback translation group has the label `""`.
- A `tbody` without rows gives no group. The default translation is put
  ahead of a group only for `tbody` index 0, not for the first group
  produced. So when the first `tbody` has no rows, the default translation
  is put ahead of no group; it can still appear as an ordinary row text
  (`Translations.FirstTbodyEmptyNoReconciliation`). When no `tbody` has rows,
  there is no translation group at all (`Translations.EmptyGroupsGiveNothing`).
- Reconciliation compares the default translation with row 0 only. When
  row 1 repeats the default, the first group starts with two copies of it
  (`Translations.DefaultRepeatedByLaterRow`).
- The pending prefix is reset by any definition entry, and a marker's own
  field wrapper replaces it (it is not added to it).

## Model

| member | source | states |
|---|---|---|
| `Fields.Render` | index.js:115-124 | the prefix is empty exactly when there are no field tags; each tag adds at least `(`, `)` and a space |
| `Fields.ScrapeFields` | index.js:115-124 | the loop that appends one `(TAG) ` per field element returns the rendering of all tags in document order |
| `Fields.RenderAppend` | index.js:119-121 | rendering is a concatenation: two lists of tags rendered one after the other give the rendering of both lists joined |
| `Fields.RenderFirst` | index.js:119-121 | the first tag's `(TAG) ` comes first in the prefix (document order) |
| `Definitions.ScrapeEntry` | index.js:191-221 | a definition object's text is the pending prefix, then the entry's own fields, then its definition; its example is the example or `""`; the pending prefix is used up |
| `Definitions.ScrapeDefinitions` | index.js:165-226 | the loop over the section's children, updating the pending prefix, the open group, the first label and the groups, ends in the state `Extract` gives, or in the same fault; `Extract` folds `Step`, which models the per-child rules at index.js:169-224 |
| `Definitions.AppendToLast` | index.js:223 | adding a definition changes only the open (last) group: same number of groups, the others unchanged, same label, one more definition at the end |
| `Definitions.FirstNonEmpty` | index.js:182-184 | the fallback label is `""` exactly when every marker label is empty, and otherwise the first non-empty label: every label before it is empty |
| `Definitions.GroupsFollowMarkers` | index.js:172-184 | there is one group per part-of-speech marker, labelled as the markers in document order, and `firstPart` is the first non-empty marker label |
| `Definitions.ExtractSucceedsIff` | index.js:191-223 | the pass fails exactly when some definition entry has no part-of-speech marker before it |
| `Definitions.DefinitionsInDocumentOrder` | index.js:166-225 | all definitions of all groups, group after group, are the entries in document order, each with text = pending prefix + own fields + definition and example or `""`; the prefix left pending at the end is the latest field list not yet used by an entry |
| `Definitions.EntryStep` | index.js:193-223 | an entry after a marker gets text = pending + own fields + definition, goes to the end of the open group only, all other groups are unchanged, and nothing stays pending |
| `Definitions.MarkerStep` | index.js:172-190 | a marker opens a new empty group after the others; its own field wrapper replaces the pending prefix, and without one the pending prefix carries over; the first non-empty label is kept |
| `Definitions.GroupsBeforeMarker` | index.js:172-223 | grouping: the groups before the marker at index i hold exactly the definitions of the entries before i, so every entry lands in the group of the nearest marker before it |
| `Definitions.PendingUsedOnce` | index.js:169-204 | after early fields, of two entries in a row only the first carries the rendered prefix |
| `Translations.ScrapeTranslations` | index.js:229-277 | the nested loops over `tbody` groups and their rows, with their visible-then-collapsed lookups, give exactly the groups `Translations` gives, or the same fault; `Translations` is the fallback group or `TransFrom` (outer loop, 240-276), built from `GroupOut` (one `tbody`, 244-275), `Rest` (rows 1 and up, 267-274), `Reconcile` (262-266) and `CellText` (257-260, 268-271) |
| `Translations.ExpectedGroup` | index.js:248-274 | a group holds one text per row, plus one when the default translation is put ahead in `tbody` 0; groups after the first hold exactly their rows' texts |
| `Translations.RestMeaning` | index.js:267-274 | rows 1 and up succeed exactly when each has a cell, and then give their texts in order |
| `Translations.GroupOutMeaning` | index.js:244-275 | a `tbody` succeeds exactly when it is empty or row 0 has a label and every row a cell; empty gives no group, otherwise its expected group |
| `Translations.TransSucceedsIff` | index.js:240-276 | the table pass fails exactly when some `tbody` has a row 0 without label or a row without any translation cell |
| `Translations.TransGroupCount` | index.js:240-276 | the number of groups equals the number of `tbody` groups that have rows |
| `Translations.TransPrefix` | index.js:240-276 | a later `tbody` only appends groups; the earlier ones are kept as they were |
| `Translations.TransGroupsPointwise` | index.js:240-276 | special case of `GroupAt`: when every `tbody` has rows, there are as many groups as `tbody` groups and group k is the expected group of `tbody` k (reconciliation in group 0 only) |
| `Translations.DefaultTranslationKept` | index.js:262-266 | when the first `tbody` has rows, the default translation is the first text of the first group, placed there once by reconciliation, followed by that `tbody`'s row texts without row 0's text when it equals the default; a later row equal to the default still repeats it |
| `Translations.DefaultRepeatedByLaterRow` | index.js:262-273 | worked case: with default `kucing` and a `tbody` whose rows 0 and 1 both read `kucing`, the first group is `[kucing, kucing]`, since reconciliation looks at row 0 only |
| `Translations.GroupAt` | index.js:240-276 | in an accepted table, a `tbody` with rows gives the group right after those of the non-empty `tbody` groups before it, and that group is its expected group |
| `Translations.VisibleCellPreferred` | index.js:257-271 | in any accepted table, the output text for row j of `tbody` k, in that `tbody`'s group (after the default translation when it was put ahead), is the visible cell's text whenever that cell exists, and the collapsed cell's text only when it does not |
| `Translations.FirstTbodyEmptyNoReconciliation` | index.js:240-266 | when `tbody` 0 has no rows, no group gets the default translation put ahead: every group holds exactly the row texts of some later `tbody` |
| `Translations.EmptyGroupsGiveNothing` | index.js:238-246 | a table with no rows in any `tbody` gives no translation group at all |
| `Extraction.Scrape` | index.js:126-279 | the page script gives not-found, the record or the fault that `Extract` gives |
| `Extraction.NotFoundIff` | index.js:129-135 | the result is not-found exactly when the bottom section is missing |
| `Extraction.FoundIff` | index.js:129-279 | a record comes back exactly when the bottom section exists, no entry precedes every marker, and the table, if any, is well formed |
| `Extraction.FoundRecord` | index.js:143-279 | a record carries the source text, the default translation, the phonetic or `""`, one definition group per marker, every entry in document order, and every entry in the group of the nearest marker before it |
| `Extraction.NoTableFallback` | index.js:230-235 | without a table the translation groups are exactly one group: the first non-empty marker label (or `""`) with only the default translation |
| `Extraction.MissingDefinitionsStillFound` | index.js:130-165 | a bottom section without a definitions section still gives a record, with no definition groups |
| `Extraction.CatWithoutTable` | index.js:165-235 | worked case: one noun sense and no table give that sense and the group `Noun: [kucing]` |
| `Extraction.CatTableAgrees` | index.js:240-276 | worked case: a table whose first row equals the default translation gives `Noun: [kucing, meong]`, no duplicate |
| `Extraction.CatTableDiffers` | index.js:257-266 | worked case: a collapsed first row `kucing` and default `kucing betina` give `Noun: [kucing betina, kucing]` |
| `Extraction.OrphanEntryIsMalformed` | index.js:223 | worked case: a definition entry before any marker is a fault, not a record |

## Left out

- The Express app: the `/translate` route, the query-parameter check and its 400 response, the 404 and JSON responses, CORS and `app.listen` (index.js:6-17, 284-295). HTTP plumbing, not extraction logic.
- The browser session: connecting to the remote browser, opening the page, waiting for network idle, the optional "expand" clicks, the one-second wait and closing the browser (index.js:28-71, 282). Remote I/O and timing.
- Console forwarding and logging (index.js:100-104, 108, 164, 229). Side effects only.
- CSS selectors, `querySelector`, `innerText` and `.value` (index.js:74-98, 126-145). The page's DOM is a foreign library; the model receives classified nodes and optional leaf strings. The `childElementCount > 0` guard on the translations wrapper becomes "table present or absent".
- Lookups the script reads without a guard beyond those modelled as faults: the label of a definitions marker, the number and definition of an entry, and the source-text and default-translation leaves are taken as always present. The input section being missing, which would throw, is not modelled.
- Unicode `toUpperCase`: `Fields.Upper` maps ASCII `a`-`z` only, since full Unicode case mapping belongs to the JavaScript runtime.
