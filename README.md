# Portfolio gallery: a Dafny model of its project-list state machine

The `Portfolio` React component (`src/components/Portfolio.js`) shows a
gallery of project cards. A user picks a PDF or an image. A commit button
turns the pending pick into a new project record at the end of the list. Each
card can be deleted or downloaded. The component's state is the list of
project records, two pending-upload slots (`selectedFile` for the document,
`selectedImage` for the image) and the `localStorage` keys that mirror them.

The model has four modules:

- `Wrappers`: `Option`, standing for JavaScript's `null`.
- `Decimal`: the decimal rendering of an id, as the template literal
  `` `Project ${newId}` `` produces it, with its inverse `ParseNat`.
- `Projects` (pure): the `Project` record, the two record shapes the upload
  flows build, the record invariant `WellFormed`, id allocation (`NextId`, the
  list length plus one), deletion by id (`Delete`, the `filter` of the
  source) and the choice of what a card downloads (`DownloadTarget`). Lemmas
  state what deletion keeps, and the id facts: ids equal positions while
  nothing is deleted, and after a deletion the next id collides.
- `PortfolioState` (imperative): class `Portfolio` with one method per event
  handler. Each handler is one atomic transition computed from the state it
  read. `ReplayFromMount` dispatches a sequence of user actions to the
  handlers, as the rendered controls do. `DuplicateIdTrace` replays the
  trace that produces a duplicate id.

`URL.createObjectURL` is modelled as `CreateObjectURL(file) == Blob(file)`.
Files are opaque values carrying a `name`. The alert is the `Alerted(message)`
outcome of a commit. Local storage is the set of keys present.

Behaviour of the code that the model keeps as written:

- Ids are allocated as `projects.length + 1`, so after a deletion they repeat.
  After seed, image commit, document commit and deleting id 2, the list holds
  two records, so the next commit gets id 3. That is the document record's id,
  and the ids become `[1, 3, 3]`. `DeleteThenAllocateCollides` proves this
  in general and `CommitAfterDeletingSecond` for this trace. The allocation is not corrected.
- Deletion removes every record with the id, not only the first. After the
  trace above, deleting id 3 removes both records (`DuplicateIdTrace`).
- A pick's storage write mirrors the previous selection. The storage helper
  runs right after the slot setter but reads the slot values from before the
  pick. A first pick into empty slots writes nothing.

## Model

| member | source | states |
|---|---|---|
| `Decimal.NatToString` | src/components/Portfolio.js:68-69 | the rendered id is a non-empty string of decimal digits, with no leading zero unless the id is 0 |
| `Decimal.ParseNatToString` | src/components/Portfolio.js:68-69 | reading the rendered id back gives the id |
| `Decimal.NatToStringInjective` | src/components/Portfolio.js:68-69 | different ids render as different strings, so titles `Project n` tell ids apart |
| `Projects.Title` | src/components/Portfolio.js:68 | a title is "Project " followed by a numeral that reads back as the id and has no leading zero unless the id is 0 |
| `Projects.Description` | src/components/Portfolio.js:69 | a description is the title followed by " Description" |
| `Projects.NextId` | src/components/Portfolio.js:65 | while ids equal positions + 1, the allocated id is larger than every id in the list |
| `Projects.SeedProject` | src/components/Portfolio.js:5-14 | the initial list's one record has id 1, no document, and satisfies the record invariant |
| `Projects.PdfRecord` | src/components/Portfolio.js:66-73 | a document record has the given id, the file's object URL as document URL, the file's name as document name and the placeholder image, and satisfies the record invariant (title and description from the id) |
| `Projects.ImageRecord` | src/components/Portfolio.js:86-93 | an image record has the given id, the image's object URL as image, neither document URL nor name, and satisfies the record invariant |
| `Projects.Delete` | src/components/Portfolio.js:104 | a record is in the result exactly when it was in the list and its id differs from the deleted id; the list never grows |
| `Projects.DeleteIsSubsequence` | src/components/Portfolio.js:104 | the kept records keep their original relative order |
| `Projects.DeleteCounts` | src/components/Portfolio.js:104 | every record with the deleted id disappears; every other record stays as many times as it was there |
| `Projects.DeleteConcat` | src/components/Portfolio.js:104 | deleting from a concatenation deletes from each part |
| `Projects.DeleteAbsent` | src/components/Portfolio.js:104 | deleting an id no record carries leaves the list unchanged |
| `Projects.DeleteIdempotent` | src/components/Portfolio.js:104 | deleting the same id twice is deleting it once |
| `Projects.ExtendKeepsIdsAreIndices` | src/components/Portfolio.js:65-74 | appending a record with id length + 1 keeps every record's id equal to its position + 1 |
| `Projects.IdsAreIndicesUnique` | src/components/Portfolio.js:7 | while ids equal positions + 1, no two records share an id |
| `Projects.DeleteIndexedId` | src/components/Portfolio.js:103-106 | while ids equal positions + 1, deleting id k removes exactly the k-th record |
| `Projects.DeleteThenAllocateCollides` | src/components/Portfolio.js:85 | after deleting any record but the last from a list whose ids are 1..n, the next allocated id equals the last remaining record's id |
| `Projects.DownloadTarget` | src/components/Portfolio.js:184-205 | a well-formed record always yields a download file name |
| `Projects.DownloadOfPdfRecord` | src/components/Portfolio.js:184-192 | a document card downloads the document's object URL under the document's own name |
| `Projects.DownloadOfImageRecord` | src/components/Portfolio.js:193-205 | an image card downloads the image's object URL under "Project n.png" |
| `Projects.ImageDownloadNamesFollowIds` | src/components/Portfolio.js:195-199 | two image cards get the same download name exactly when they have the same id |
| `PortfolioState.SavedKeys` | src/components/Portfolio.js:20-27 | the storage mirror writes the `selectedFile` key exactly when a document is pending and the `selectedImage` key exactly when an image is pending, and no other key |
| `PortfolioState.Portfolio.constructor` | src/components/Portfolio.js:5-17 | mounting starts with the one seeded record, ids equal positions, both slots empty; storage keeps the keys an earlier session left |
| `PortfolioState.Portfolio.HandleFileUpload` | src/components/Portfolio.js:49-53 | the document slot becomes the pick (last write wins); the project list and the image slot are unchanged; the keys written come from the slots as they were before the pick |
| `PortfolioState.Portfolio.HandleImageUpload` | src/components/Portfolio.js:56-60 | the image slot becomes the pick; the project list and the document slot are unchanged; the keys written come from the slots as they were before the pick |
| `PortfolioState.Portfolio.AddProjectWithPdf` | src/components/Portfolio.js:63-80 | with no document pending: the "select a file" alert and no change at all; otherwise exactly one record appended at the end with id old length + 1, earlier records unchanged and in order, title and description from the id, placeholder image, the document's object URL and name; the document slot is emptied and its storage key removed; the image slot is untouched |
| `PortfolioState.Portfolio.AddProjectWithImage` | src/components/Portfolio.js:83-100 | with no image pending: the "select an image" alert and no change at all; otherwise exactly one record appended at the end with id old length + 1, earlier records unchanged, the image's object URL as image and no document; the image slot is emptied and its storage key removed; the document slot is untouched |
| `PortfolioState.Portfolio.DeleteProject` | src/components/Portfolio.js:103-106 | no record with the id remains; the rest are kept in order; an absent id changes nothing; slots and storage are untouched |
| `PortfolioState.SuccessfulCommits` | src/components/Portfolio.js:63-100 | counts the commit actions that find their slot filled, tracking each slot: a pick fills or empties it, a commit empties it; never more than the number of actions |
| `PortfolioState.ReplayFromMount` | src/components/Portfolio.js:122-182 | returns the gallery after dispatching the actions from mount, and its ids; without a deletion the first record is still the seed and the gallery holds 1 + the number of successful commits records, and the ids are exactly 1, 2, ..., n, so pairwise distinct |
| `PortfolioState.CommitTwiceThenDeleteSecond` | src/components/Portfolio.js:63-106 | seed, image commit, document commit, delete id 2 leaves the seed and the document record with id 3 |
| `PortfolioState.CommitAfterDeletingSecond` | src/components/Portfolio.js:83-100 | after the first half of the trace, one more image commit leaves the gallery holding the seed, the document record with id 3 and a new image record with id 3: ids [1, 3, 3] |
| `PortfolioState.DuplicateIdTrace` | src/components/Portfolio.js:103-106 | deleting id 3 from that gallery removes both records with id 3 and leaves only the seed |
| `PortfolioState.ValidCardsHaveDownloadNames` | src/components/Portfolio.js:184-205 | in a gallery keeping the record invariant, every card's download has a file name |

## Left out

- Rendering (JSX markup, CSS classes, button labels, lines 118-213): presentation. Only the download-target choice and the wiring of controls to handlers are modelled.
- The DOM side of `downloadProject` (lines 109-116): creating, clicking and removing an anchor is browser I/O. Only the URL and file name chosen are modelled.
- `URL.createObjectURL` (lines 71, 90): a browser call. It is modelled as `CreateObjectURL(file) == Blob(file)`. The browser returns a fresh URL on every call, and the model does not tell two URLs for the same file apart. Object URLs are never released, in the source as in the model.
- Stored values, `JSON.stringify`/`JSON.parse`, `loadFromLocalStorage` and its `useEffect` (lines 20-46): what a browser `File` becomes after serialisation is host behaviour. Storage is modelled as the set of keys present, which is enough to state when a key is written or removed. The restore on mount is not modelled: the constructor starts with empty slots.
- A failing storage write: storage writes always succeed in the model.
- React's asynchronous, batched state updates: each handler is one atomic transition from the state it read.
- `alert` (lines 78, 98): a UI side effect, modelled as the `Alerted` outcome carrying the message.
- Numbers: ids are unbounded naturals. JavaScript numbers lose precision above 2^53, a list length never reached here.
- PortfolioState.ReplayFromMount: once a deletion has happened, states neither the values of the ids nor the length of the list. That case is covered by `DeleteThenAllocateCollides` and `DuplicateIdTrace`.
