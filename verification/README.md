# FANIC models

Verified models of the stateful cores of FANIC, a comic and fanart archive: the comic editor, the search
indexes, admission control, accounts, and the stores that have to stay consistent. Check everything with
`dafny verify dfyconfig.toml`.

- **Comic editor** (`PageOrder`, `WorkModel`, `Editor`, `Pages`, `Chapters`, `ChapterRows`, `EditorProofs`,
  `CbzImport`, `EditorRuns`, `EditorEffects`, `RepeatedNames`, `CutShort`, `Recovery`, `RatingRuns`,
  `WorkEditor`). A work is its numbered page rows, its chapter rows with their member lists, its rating and its
  version snapshots. `Editor` says what every action does to these tables; `WorkEditor` runs the statements of
  each action on a class that holds the tables and ends in that state. `EditorEffects` states the outcome of each
  action row by row and column by column, and `CutShort` how far an action comes that breaks a key. The invariant
  over whole runs, undoing, reordering and the version history are proved about the specification;
  `RepeatedNames` and `RatingRuns` say exactly when an invariant or an Explicit rating is lost, and `Recovery`
  what is kept all the same and how an invariant comes back.
- **Search indexes** (`SearchView`, `SearchProofs`, `SearchIndex`, `FanartIndex`). The view is recomputed from
  the base tables; the classes hold base tables and index and run each statement with its triggers, row by row.
  `kept` has, for each row whose uploader was deleted, the display name the row still shows.
- **Admission control** (`IngestQueue`, `SlidingWindow`, `RateLimits`). The queue is a state machine over the
  stretches of code under its lock, with the two counters as a class beside it. The limiters are classes with
  pruned lists, each compared with the rule on the full history; time is a real number and never goes back.
- **Accounts** (`FreshNames`, `AccountModel`, `AccountProofs`, `AccountEffects`, `AccountTables`). Users and Auth0
  identities, the login with its three branches, what each operation leaves in every column, and the loops that
  find a free name.
- **Stores** (`TagStore`, `BlobStore`, `ProgressStore`, `UploadPool`, `Rating`). Tag links with usage counts,
  content-addressed blobs shared by fanart rows with the events that leave one behind, the two-level progress
  cache, the pool of media uploads, and ratings.
- **Import order** (`Orders`, `NaturalSort`). The sort keys of archive members and the order they give.

Things outside the program are parameters: what moderation suggests, the clock, drawn ids, which uploads and
deletions fail, which files cannot be unlinked. A raised error is a `false`, a `None` or an unchanged state.
Text is ASCII.

Where the code does less than its tables suggest, the models follow the code and say exactly when it falls
short, with an input for each case:

- Image names are content-addressed, so a picture that comes in twice puts one filename on two pages.
  `RepeatedNames.InvariantIffFresh` says when an action keeps the invariant; `RepeatedNameStops`,
  `ReplaceRepeatedStops` and `ImportStopsIff` say when the member table's key then cuts it short, before any
  snapshot; `SamePictureTwice` and `BlankPagesTwice` are the inputs. The history of snapshots is not affected
  (`EditorRuns.EveryHistory`), and a clean import or a complete reorder restores the invariant
  (`Recovery.ImportRecovers`, `ReorderRecovers`).
- An Explicit rating is locked against edits, but a page sent through the upload page can lower it, as that hands
  in "Not Rated" for a blank rating beside a title and a summary, and so can importing the work again
  (`RatingRuns.ExplicitStepIff`, `ExplicitStays`, `UploadPageLowers`, `ImportLowers`).
- No trigger runs when a user is deleted, so the search indexes keep that user's display name until a trigger
  selects the row again. `SearchIndex.SearchTables.Run` and `FanartIndex.FanartTables.Run` say what each row
  then shows and when the index still equals the view; `DeletedNameLingers` is the input.
- Natural sort keys of names that start with a digit do not compare with keys of names that do not
  (`NaturalSort.NoTypeErrorIff`, `MixedNamesStop`).
- A fanart upload that fails after a blob is put, or a deletion whose blob removal fails, leaves a blob no row
  uses, until a later upload of the same content adopts it (`BlobStore.StraysNext`, `StraysAfter`,
  `FailedUploadLeaves`).
- With no superadmin email configured, a first login without an email makes a superadmin
  (`AccountProofs.SuperadminIff`, `FirstLoginWithoutEmail`).

## Model

| member | source | states |
|---|---|---|
| EditorRuns.EveryWorkKeeps | src/fanic/cylinder_sites/fanicsite/comic.ex.post.py:234-509 | From the moment a work is created, any sequence of imports and editor actions (each bringing in only new filenames, on a clock that moves forward) leaves pages numbered 1..n with page_count n, chapters numbered 1..k, every chapter a non-empty increasing run through the page order whose range is exactly its first and last member, and a newest snapshot with just those pages, chapters, rating and page count |
| EditorRuns.StepKeeps | src/fanic/cylinder_sites/fanicsite/comic.ex.post.py:234-509 | Each action completes exactly when a condition on its arguments holds, and then keeps the editor invariant; otherwise it changes nothing at all |
| EditorRuns.StepHistory | src/fanic/repository/works.py:996-1054 | Whatever the filenames, and whether an action completes, is refused or is cut short: a completed one adds one snapshot, under a version id not yet taken, with the page rows, the chapter rows and members, the rating and the page count it ends with, and any other leaves the history alone |
| EditorRuns.StepRecords | src/fanic/repository/works.py:996-1054 | Whatever the filenames, under a later version id a completed action ends with a newest snapshot that has its pages, chapters with members, rating and page count; every older snapshot is unchanged and no other appears |
| EditorRuns.RunHistory | src/fanic/repository/works.py:996-1054 | Over any run at all, repeated filenames and cut short actions included, the history is the snapshots there were and exactly those the completed actions took; none is changed, dropped or replaced |
| EditorRuns.EachCompletedIsKept | src/fanic/repository/works.py:996-1054 | Over any run, the snapshot of each completed action is there at the end and has the pages, chapters with members, rating and page count as that action left them |
| EditorRuns.NoOtherSnapshots | src/fanic/repository/works.py:996-1054 | And every snapshot a run adds is that of one of its completed actions |
| EditorRuns.NewestIsLastCompleted | src/fanic/repository/works.py:996-1054 | Over any run on a clock that moves forward, the newest snapshot has the pages, chapters with members, rating and page count as the last completed action left them |
| EditorRuns.EveryHistory | src/fanic/repository/works.py:996-1054 | Both hold of every work from its creation, with no condition on what it is sent; the second on such a clock |
| EditorRuns.FreshStepRecords | src/fanic/cylinder_sites/fanicsite/comic.ex.post.py:234-509 | With new filenames and a later version id an action completes exactly when its arguments allow it, and the newest snapshot equals the tables after every action, completed or not |
| EditorRuns.RunKeeps | src/fanic/repository/works.py:996-1054 | Over whole runs that bring in only new filenames on a clock that moves forward, the invariant holds and the newest snapshot equals the current tables; that no snapshot ever changes needs neither condition (RunHistory) |
| Recovery.StepTables | src/fanic/cylinder_sites/fanicsite/comic.ex.post.py:234-509 | Every action keeps page numbering, chapter numbering, unique chapter ids and member lists without repeats, whatever the filenames and whether or not it is cut short |
| Recovery.RunTables | src/fanic/cylinder_sites/fanicsite/comic.ex.post.py:234-509 | So does any run |
| Recovery.ImportRestores | src/fanic/ingest.py:1194-1243 | From any tables that keep those keys, an import with distinct filenames under an unused version id completes with the full editor invariant and its own snapshot |
| Recovery.ImportRecovers | src/fanic/ingest.py:1194-1243 | After any run whatever from the creation of a work, such an import therefore restores the invariant; under a later id its snapshot is the newest |
| Recovery.ReorderRestores | src/fanic/ingest.py:1914-1996 | From any tables that keep those keys, a gallery reorder completes if and only if it names every filename there is, and then leaves one page of each name, in the order in which the request first mentions them, and the full editor invariant |
| Recovery.ReorderRecovers | src/fanic/ingest.py:1914-1996 | After any run whatever from the creation of a work, such a reorder by its owner therefore restores the invariant and drops the repeated pages |
| EditorRuns.MoveUndone | src/fanic/ingest.py:1871-1905 | Moving a page from i to j and then from j to i restores every page row, every chapter row and the page count exactly |
| EditorRuns.AddUndone | src/fanic/ingest.py:1506-1523 | Adding a page with a new filename and deleting the page after the one named, or the last where none is named, restores every page row, every chapter row and the page count exactly |
| EditorRuns.ReorderPermutes | src/fanic/ingest.py:1914-1958 | After a gallery reorder the pages come in the order in which the request first mentions their names, and every row keeps its data under its filename |
| EditorRuns.ReorderMembers | src/fanic/ingest.py:1960-1988 | After a reorder a chapter the request does not mention has the same set of pages as before, and a mentioned one the requested pages that exist; a chapter is gone exactly when that leaves it none |
| EditorRuns.DeleteMembers | src/fanic/ingest_editor_service.py:51-76 | Deleting a page takes that page out of every chapter and no other; a chapter goes exactly when it held nothing else |
| RepeatedNames.SelectRepeated | src/fanic/ingest.py:1387-1404 | With one filename on two pages, a chapter can be written back without breaking the member key if and only if it does not hold that filename |
| RepeatedNames.RepeatedNameStops | src/fanic/ingest.py:1506-1627 | Adding an image whose content-addressed name is already on a page always breaks the invariant, and is cut short, pages rewritten but no snapshot taken, if and only if some chapter holds that page |
| RepeatedNames.ReplaceRepeatedStops | src/fanic/ingest.py:1793-1831 | Replacing an image by one that is already on another page always breaks the invariant, and is cut short with no snapshot if and only if some chapter holds one of the two pages |
| RepeatedNames.ImportStopsIff | src/fanic/ingest.py:584-627 | Whatever the filenames, the chapters of an archive are all made if and only if no directory repeats a name, among its own pages or in the page range it spans |
| RepeatedNames.ImportCompletesIff | src/fanic/ingest.py:1194-1243 | An import is snapshotted if and only if that holds of its directories, and its page rows are written either way |
| CutShort.RefitStopsAt | src/fanic/ingest.py:1377-1404 | A reconciliation or reorder that is cut short stops at the first chapter that would get a repeated filename: those before it are rewritten, it has its new range but its old members, and those after it at most a new index |
| CutShort.RemapStopsAt | src/fanic/ingest.py:1808-1822 | A renaming that is cut short stops at the first member list it would make repeat a name: the lists before it are renamed, that one and the rest are not |
| CutShort.ReplaceCutShort | src/fanic/ingest.py:1793-1831 | A replacement that is cut short has its new page row, and chapters as far as the renaming or the reconciliation came; rating, page count and history stay |
| CutShort.AddChapterCutShort | src/fanic/repository/works.py:1104-1135 | A chapter over a range that repeats a name is left in the table without members, and without a snapshot |
| CutShort.UpdateChapterCutShort | src/fanic/ingest.py:2028-2063 | An update to such a range leaves title and range as asked and the members as they were |
| CutShort.ImportStopsAt | src/fanic/ingest.py:584-627 | An import that is cut short stops at the first directory that repeats a name: those before it are chapters of their own pages, its own has the pages it spans, or none if those repeat a name, and those after it have no chapter |
| CutShort.PositionsMean | src/fanic/ingest.py:584-627 | The range of a directory runs from the first to the last place of its pages, the last place counting for a repeated name |
| RepeatedNames.InvariantIffFresh | src/fanic/ingest.py:1370-1404 | An allowed action keeps the invariant if and only if the filenames it brings in are new to the work and differ from one another |
| RepeatedNames.SamePictureTwice | src/fanic/ingest.py:1506-1627 | A new work gets a page and a chapter of it, and then the same picture once more from its owner: two page rows have one name, the invariant is lost, and no snapshot is taken |
| RepeatedNames.BlankPagesTwice | src/fanic/ingest.py:584-627 | Two copies of one picture in one directory of an archive leave both page rows and no snapshot |
| RatingRuns.StepRating | src/fanic/cylinder_sites/fanicsite/comic.ex.post.py:478-509 | The stored rating after every action: a page by its owner elevates the rating handed in with it, or the stored one where none is, by the suggestion; a completed replacement elevates the stored one and a cut short one leaves it; an edit that passes the lock stores what was asked; an import stores that of the import; nothing else changes it |
| RatingRuns.ExplicitStepIff | src/fanic/ingest.py:1570-1575 | An import or an action of a user leaves an Explicit work Explicit if and only if it is neither a page added with a rating below Explicit handed in and no Explicit suggestion, nor an import without an Explicit rating in it |
| RatingRuns.ExplicitStays | src/fanic/cylinder_sites/fanicsite/comic_post_service.py:48-64 | Over any run of imports and user actions a work rated Explicit is Explicit throughout if and only if none of them lowers it in those two ways |
| RatingRuns.EditPageKeeps | src/fanic/cylinder_sites/fanicsite/comic.ex.post.py:234-509 | The edit page, which hands in the rating the work has, never lowers it |
| RatingRuns.UploadPageLowers | src/fanic/cylinder_sites/fanicsite/comic/upload.ex.post.py:180-222 | The upload page posted with title and summary but a blank rating hands in Not Rated, and without a suggestion the work is Not Rated afterwards, whatever it was |
| RatingRuns.ImportLowers | src/fanic/ingest.py:1160-1180 | A one-page archive that says Not Rated, imported again over any work without a suggestion, leaves it Not Rated |
| EditorProofs.AddPageKeeps | src/fanic/ingest.py:1506-1627 | Adding a page under a new filename completes with the invariant; the new name stands right after the page named, or last where none is named, and the chapters are reconciled to that order |
| EditorEffects.OwnedStep | src/fanic/cylinder_sites/fanicsite/comic.ex.post.py:234-509 | The owner of a work, and anyone where it has none or a blank one, gets each editor action done with the arguments sent; a page added to a work without owner claims it first |
| EditorEffects.OwnerEffect | src/fanic/repository/works.py:440-470 | Only a page added or an import gives a work an owner, and only one that has none; no other action changes it |
| EditorEffects.AddPageEffect | src/fanic/ingest.py:1506-1523 | Whatever the filenames: the new row goes right after the page named, or last where none is named; every other row keeps filename, thumbnail, width and height, and rows are numbered 1, 2, ... |
| EditorEffects.DeletePageEffect | src/fanic/ingest_editor_service.py:22-48 | The row at the index goes, and the later rows move up one place with all their columns |
| EditorEffects.MovePageEffect | src/fanic/ingest.py:1871-1905 | The row at `from` ends at `to`, the rows in between move one place the other way, and no row loses a column |
| EditorEffects.ReplacePageEffect | src/fanic/ingest.py:1793-1831 | The row at the index takes all new columns, and no other row changes |
| EditorEffects.ReorderEffect | src/fanic/ingest.py:1914-1958 | Repeated filenames included: one row of each name, in the order in which the request first mentions them, with the columns of the last row of that name |
| EditorEffects.AddPageChapters | src/fanic/ingest.py:1525-1627 | A page that is added goes into no chapter; every chapter keeps its id, index, title and pages |
| EditorEffects.MovePageChapters | src/fanic/ingest.py:1871-1905 | A move takes no page out of a chapter and puts none in |
| EditorEffects.ReplacePageChapters | src/fanic/ingest.py:1793-1831 | In every member list the new filename stands where the old one stood, and nothing else of a chapter changes |
| EditorEffects.AddChapterEffect | src/fanic/ingest.py:2003-2025 | The chapter added is the last, with the title and range asked for, the pages of that range and an id no other has |
| EditorEffects.DeleteChapterEffect | src/fanic/repository/works.py:1159-1178 | The chapter with the id goes, the later ones move up one index, and nothing else of them changes |
| EditorEffects.SeedMeans | src/fanic/ingest.py:1354-1367 | A chapter without members stands for its page range, each end moved to the nearest page there is |
| EditorEffects.SeededFits | src/fanic/ingest.py:1377-1386 | And is given those pages, less the removed one, at the next change of pages |
| EditorEffects.EditMetadataEffect | src/fanic/cylinder_sites/fanicsite/comic_post_service.py:48-64 | The lock turns away exactly the demotion of an Explicit work and a promotion to Explicit from below Mature, for who is no admin; any other edit stores the stripped rating, or Not Rated for a blank one, and changes nothing else |
| EditorEffects.ImportEffect | src/fanic/ingest.py:1194-1243 | After an import the rows of the archive are the pages, in order and numbered, under the rating of the import |
| EditorProofs.DeletePageKeeps | src/fanic/ingest_editor_service.py:51-76 | Deleting completes exactly for an existing page index, with the row at that position gone and the chapters reconciled without it |
| EditorProofs.MovePageKeeps | src/fanic/ingest.py:1871-1905 | Moving completes exactly for two indices in range |
| EditorProofs.ReorderKeeps | src/fanic/ingest.py:1914-1996 | A reorder succeeds if and only if there are pages and the list names every one of them; otherwise nothing is written |
| EditorProofs.ReplacePageKeeps | src/fanic/ingest.py:1793-1831 | Replacing an image by one with a new filename keeps every chapter in place: the new name takes the old one's position in each member list |
| EditorProofs.AddChapterKeeps | src/fanic/ingest.py:2003-2025 | Adding a chapter succeeds exactly for a range inside the work, keeps the invariant, and appends one chapter that holds the pages of the range |
| EditorProofs.UpdateChapterKeeps | src/fanic/ingest.py:2028-2063 | Updating succeeds exactly for a range inside the work and an id that exists, keeps the invariant, and rewrites title, range and members of that chapter and of no other |
| EditorProofs.DeleteChapterKeeps | src/fanic/ingest.py:2066-2077 | Deleting succeeds exactly for an id that exists, takes out that one chapter and numbers the others without a gap |
| EditorProofs.NewOrderPermutes | src/fanic/ingest.py:1928-1937 | The length test on the deduplicated list is the test that every page is named, and then the list is a permutation of the pages |
| Chapters.FitFits | src/fanic/ingest.py:1387-1403 | A reconciled chapter holds exactly the wanted names that still exist, in page order, and its range is the position of its first and last one; it is dropped exactly when none exists |
| Chapters.RefitCompletes | src/fanic/ingest.py:1377-1404 | With distinct filenames the row-by-row loop (update, rewrite, delete, renumber) never breaks a key and ends where refitting all chapters at once ends |
| Chapters.RefitEstablishes | src/fanic/ingest.py:1377-1404 | From any chapter table whatever, reconciliation against distinct filenames goes through and establishes the chapter part of the invariant, with ids still unique |
| Chapters.ReconcileIdentity | src/fanic/ingest.py:1370-1404 | On a table that already fits the page order, reconciliation changes nothing |
| Chapters.ReconcileIdempotent | src/fanic/ingest.py:1370-1404 | From any chapter table, reconciling twice is reconciling once |
| Chapters.ReconcileThereAndBack | src/fanic/ingest.py:1370-1404 | Reconciling to another order that has all the names, and back, restores every chapter row |
| Chapters.RefitStopsIff | src/fanic/ingest.py:1377-1404 | Without any assumption on filenames, the loop goes through if and only if no chapter comes out with a repeated member |
| PageOrder.SelectFollows | src/fanic/ingest.py:1388 | Picking the kept names out of the page order gives a strictly increasing subsequence |
| PageOrder.SelectOwnNames | src/fanic/ingest.py:1388 | A strictly increasing subsequence is recovered from its set of names alone |
| Pages.DistinctUpdate | src/fanic/ingest.py:1793-1807 | Overwriting one filename leaves the list without repeats if and only if no other page has the new name |
| Pages.MoveThereAndBack | src/fanic/ingest.py:1881-1896 | Pop and insert, and the same back, restore every page row |
| Pages.MentionsComplete | src/fanic/ingest.py:1930-1937 | The deduplicated request is as long as the page set if and only if it names every page |
| CbzImport.ImportKeeps | src/fanic/ingest.py:1194-1243 | On tables that keep their keys, as all tables do that actions lead to (Recovery.RunTables), an import with distinct filenames completes, and replaces pages and chapters by the imported ones |
| CbzImport.ImportedTablesFit | src/fanic/ingest.py:584-627 | After an import the editor invariant holds and there is one chapter per directory with pages, in order of first appearance |
| CbzImport.DirectoryBecomesChapter | src/fanic/ingest.py:559-627 | Every directory with pages becomes a chapter titled after it that holds exactly its pages, in page order |
| CbzImport.GroupedUnder | src/fanic/ingest.py:559-576 | Grouping files under each directory exactly its pages, in order |
| EditorEffects.PagesOfMeans | src/fanic/ingest.py:559-576 | The pages of a directory are the named ones whose archive member lies in it |
| EditorEffects.TitleMeans | src/fanic/ingest.py:579-581 | A chapter is called after its directory, less the blanks and slashes on both sides, or "Untitled Chapter" where nothing is left |
| EditorEffects.ImportedInOrder | src/fanic/ingest.py:584-627 | The chapters of an import come in the order of their first pages |
| WorkEditor.WorkTables.RefitChapters | src/fanic/ingest.py:1377-1404 | The statement-level loop over the table as it was read ends in the state of the specified refit, whether or not it breaks a key |
| WorkEditor.WorkTables.ReplaceMembers | src/fanic/repository/works.py:1085-1101 | Inserting the members one by one succeeds exactly when no filename repeats, and is rolled back otherwise |
| WorkEditor.WorkTables.DeleteChapterRow | src/fanic/repository/works.py:1159-1178 | The row goes and the later rows move up one index each, in place |
| WorkEditor.WorkTables.CloseGap | src/fanic/repository/works.py:1159-1178 | Moving the rows up one UPDATE at a time ends with the indices 1, 2, ... and never sets an index another row still has |
| WorkEditor.WorkTables.ClaimOwner | src/fanic/repository/works.py:440-470 | A work without an uploader gets the one handed in, and any other keeps its own |
| WorkEditor.WorkTables.AddChapterRow | src/fanic/repository/works.py:1104-1135 | The new row goes last, and its members are the page range, clipped as the slice clips it |
| WorkEditor.WorkTables.ImportChapters | src/fanic/ingest.py:584-627 | Creating the chapters directory by directory ends in the specified table, whether or not a key is broken on the way |
| WorkEditor.WorkTables.Apply | src/fanic/cylinder_sites/fanicsite/comic.ex.post.py:234-509 | Every request, run statement by statement on the tables, ends in exactly the state and the success of the specified step |
| WorkEditor.PlanDelete | src/fanic/ingest_editor_service.py:22-48 | The plan holds the remaining rows renumbered and the removed filename, or nothing when no row has the index |
| Rating.FoldIsMaximum | src/fanic/ingest.py:822-836 | Elevating by each suggestion in turn ends at the highest rank among the current rating and the suggestions, and moves off the current rating only to a canonical one |
| Rating.ImportRatingOrderFree | src/fanic/ingest.py:1166-1171 | The rating an import stores depends only on which ratings were suggested, not on page order |
| Rating.ElevateNormal | src/fanic/ingest.py:822-836 | Elevation is the maximum by rank of the two normalised ratings |
| Rating.NormalizeMeans | src/fanic/ingest.py:186-225 | A rating is read, without the blanks around it and in any letter case, as the level it is an alias of; a blank one is Not Rated, and one that is no alias is kept as written |
| Rating.RanksRise | src/fanic/ingest.py:822-836 | Not Rated and texts no alias knows rank lowest, then General, Teen, Mature and Explicit in that order |
| Rating.ElevateTakesHigher | src/fanic/ingest.py:822-836 | An elevation takes the suggestion if that ranks above the current rating and otherwise keeps the current one, each in its canonical spelling |
| Rating.ImportRatingHighest | src/fanic/ingest.py:1166-1171 | The rating of an import ranks as the highest of the metadata rating and what the pages suggest, or the fallback where no page suggests one |
| Rating.ElevateIdempotent | src/fanic/ingest.py:822-836 | Elevating twice by the same suggestion gives the same stored text as elevating once |
| Rating.ImportExplicitIff | src/fanic/ingest.py:1166-1171 | The rating an import stores is Explicit if and only if the metadata rating normalises to it, or a page suggestion does, or, where no page has a suggestion, the fallback does |
| Rating.CanonicalRoundTrip | src/fanic/ingest.py:186-225 | Each of the five canonical ratings is read back as itself |
| Rating.NormalizeRoundTrip | src/fanic/ingest.py:186-225 | Normalising a stored normalised rating changes nothing, for any text |
| Rating.ElevateKeepsExplicit | src/fanic/ingest.py:822-836 | An Explicit rating stays Explicit under any suggestion, however it was spelled |
| Rating.ElevateExplicitIff | src/fanic/ingest.py:822-836 | An elevation ends at Explicit if and only if one of the two ratings normalises to it |
| Rating.LockExact | src/fanic/cylinder_sites/fanicsite/comic_post_service.py:48-64 | A non-admin edit passes the lock if and only if it keeps an Explicit work Explicit, or makes a work Explicit only from Mature |
| SearchView.IndexIsViewIff | src/fanic/db.py:796-827 | The index equals the view recomputed from the tables if and only if every display name kept for a deleted uploader is the username, which the view shows |
| SearchView.RowColumns | src/fanic/db.py:545-575 | The view row of a work has its id, title, summary and uploader; each fandom name as often as there are links from the work to a tag of that name and of type fandom; and the display name of an uploader who has one, or else the username |
| SearchView.FandomCounts | src/fanic/db.py:545-575 | The fandom names of a row count the links to tags of type fandom, and to no other |
| SearchView.SurvivingLinks | src/fanic/db.py:520-528 | The links that survive a deletion are exactly those of other works, or to other tags |
| SearchView.LinkTouchesItsWork | src/fanic/db.py:576-661 | A tag link affects the view row of its own work only |
| SearchView.TagTouchesItsWorks | src/fanic/db.py:662-706 | A change of a tag affects the view rows of the works linked to it only |
| SearchView.UserTouchesItsWorks | src/fanic/db.py:707-787 | A change of a display name affects the view rows of that uploader only |
| SearchProofs.RefreshAgrees | src/fanic/db.py:576-787 | Dropping and reselecting a set of rows brings the index back in step, and forgets the names kept for them, if the change could touch no row outside the set |
| SearchProofs.TagLinkCascaded | src/fanic/db.py:619-661 | While the links of a deleted tag are removed one by one, every work already unlinked has a correct index row |
| SearchProofs.LinkDeleted | src/fanic/db.py:619-661 | The trigger on a removed link leaves the index in agreement with the view |
| SearchProofs.UserRefreshed | src/fanic/db.py:707-787 | Both user triggers leave the index in agreement, and no name kept in the rows of that uploader |
| SearchProofs.UserDeleted | src/fanic/repository/users.py:780-794 | After a user is deleted the index is exactly the new view but for the rows of that uploader, which show the display name the user had |
| SearchProofs.DeletedUserLingers | src/fanic/repository/users.py:780-794 | Deleting an uploader whose display name is neither blank nor the username always leaves the index different from the view |
| SearchIndex.SearchTables.DeleteWork | src/fanic/db.py:520-528 | Deleting a work removes its links one trigger at a time and ends with neither the row, the links nor the index row; the links of all other works stay |
| SearchIndex.SearchTables.UpdateWork | src/fanic/db.py:529-575 | Changing the indexed columns of a work succeeds unless its id is taken or referred to, and re-indexes that row |
| SearchIndex.SearchTables.DeleteTag | src/fanic/db.py:619-661 | Deleting a tag takes exactly the links to it along and leaves the index in agreement |
| SearchIndex.SearchTables.DeleteUser | src/fanic/repository/users.py:780-794 | No trigger runs: the index stays, and for each work of that user the display name shown is recorded as kept |
| SearchIndex.SearchTables.Run | src/fanic/db.py:473-787 | After any sequence of inserts, updates and deletes on works, links, tags and users every index row is exactly the view row, or that row with the display name kept since its uploader was deleted; index and view are equal if and only if each kept name is the username; and only deletions of users add kept names |
| SearchIndex.DeletedNameLingers | src/fanic/repository/users.py:780-794 | A user with a display name, one work, and the user deleted: the index then shows the name where the view shows the username |
| SearchIndex.SearchTables.RebuildIfMiscounted | src/fanic/db.py:789-830 | The startup rebuild repairs any index whose row count is off, and touches no other |
| FanartIndex.UserCurrent | src/fanic/db.py:360-425 | Both user triggers bring the fanart rows of that uploader in step under the new display name, clear the names kept for them, and touch no other row |
| FanartIndex.UserGone | src/fanic/repository/users.py:780-794 | Deleting a user changes no fanart index row, and exactly the rows of that uploader then show a kept name |
| FanartIndex.IndexIsViewIff | src/fanic/db.py:427-456 | The fanart index equals the recomputed view if and only if every kept name is the username |
| FanartIndex.DeletedUserLingers | src/fanic/repository/users.py:780-794 | Deleting an uploader of fanart whose display name is neither blank nor the username always leaves the index different from the view |
| FanartIndex.FanartTables.Run | src/fanic/db.py:276-425 | After any sequence of statements every fanart index row is exactly the view row, or that row with the display name kept since its uploader was deleted; equality with the view is characterised as for works |
| FanartIndex.DeletedNameLingers | src/fanic/repository/users.py:780-794 | A user with a display name, one picture, and the user deleted: the index keeps the name |
| FanartIndex.FanartTables.RebuildIfMiscounted | src/fanic/db.py:427-456 | The startup rebuild repairs any fanart index whose row count is off, and touches no other |
| IngestQueue.EveryInterleavingSafe | src/fanic/cylinder_sites/common/rate_limit.py:263-317 | In every interleaving of arrivals, wakeups, timeouts and ends, with barging: active never exceeds the maximum and counts the open sessions, waiting counts the queued threads, and no wakeup is lost |
| IngestQueue.NextKeeps | src/fanic/cylinder_sites/common/rate_limit.py:263-317 | Each stretch of code under the lock keeps those three facts |
| IngestQueue.VerdictHonest | src/fanic/cylinder_sites/common/rate_limit.py:275-307 | A thread is admitted only into a free slot, with the position of its last pass before waiting or zero; it is refused only when the deadline has passed and every slot is taken, with the number of those waiting, itself included; and a thread that waits is told that number, at least one |
| IngestQueue.EndPicksFirst | src/fanic/cylinder_sites/common/rate_limit.py:310-317 | The end of a session frees one slot and notifies the thread that has been asleep longest, if there is one |
| IngestQueue.OthersKeepPlace | src/fanic/cylinder_sites/common/rate_limit.py:275-307 | A thread that goes to sleep does so behind all others, and one that is admitted or refused leaves every other in its place |
| IngestQueue.AnnouncedStays | src/fanic/cylinder_sites/common/rate_limit.py:279-307 | The position a queued thread was told stays as it is until that thread runs again |
| IngestQueue.SleepingMeansFull | src/fanic/cylinder_sites/common/rate_limit.py:275-307 | A thread asleep with nobody notified means every slot is in use, by some session that will notify |
| IngestQueue.DrainBounded | src/fanic/cylinder_sites/common/rate_limit.py:263-317 | Without new arrivals and timeouts the queue comes to rest within a number of steps known beforehand |
| IngestQueue.DrainComplete | src/fanic/cylinder_sites/common/rate_limit.py:263-317 | And it comes to rest only with nobody queued and no session open |
| IngestQueue.IngestQueueState.Enter | src/fanic/cylinder_sites/common/rate_limit.py:263-307 | The code from the call to its admission, refusal or first wait, on the two counters, is the arrival step of the state machine |
| IngestQueue.IngestQueueState.Wake | src/fanic/cylinder_sites/common/rate_limit.py:275-307 | The code after a wait, notified or timed out, is the resume step |
| IngestQueue.IngestQueueState.Leave | src/fanic/cylinder_sites/common/rate_limit.py:310-317 | Ending a session is the end step, with one notification |
| SlidingWindow.AdmitIffSpaced | src/fanic/cylinder_sites/common/rate_limit.py:227-246 | A request is let in if and only if the history with it still has more than a window between any limit + 1 admissions |
| SlidingWindow.WindowHoldsAtMost | src/fanic/cylinder_sites/common/rate_limit.py:168-260 | No closed window of the configured length holds more admissions than the limit |
| SlidingWindow.AdmittedIff | src/fanic/cylinder_sites/common/rate_limit.py:320-344 | After a refusal with nothing admitted since, a request gets in if and only if the oldest counted admission has left the window |
| SlidingWindow.RetryAfterHonest | src/fanic/cylinder_sites/common/rate_limit.py:330-333 | retry_after is one if the wait is below a second, and otherwise the wait in whole seconds, rounded down: asking before it is over is refused, and asking one second after it is over succeeds |
| SlidingWindow.NoneAdmittedWhileWaiting | src/fanic/cylinder_sites/common/rate_limit.py:320-344 | After a refusal with a wait of a second or more, no series of requests up to now + retry_after gets any of them in |
| SlidingWindow.RecentTwice | src/fanic/cylinder_sites/common/rate_limit.py:227-228 | Filtering by an earlier window floor first does not change what a later floor keeps |
| UploadRule.EveryRunBounded | src/fanic/cylinder_sites/common/rate_limit.py:220-260 | However one user begins and ends uploads, no window holds more than the limit and no more sessions are open than allowed |
| UploadRule.AllowedIff | src/fanic/cylinder_sites/common/rate_limit.py:227-246 | A begin is refused only when one of the two limits would be broken |
| UploadRule.RefusedBy | src/fanic/cylinder_sites/common/rate_limit.py:227-246 | A begin is refused for concurrency exactly with all sessions open, and for the rate exactly with a session free and the window full, with the wait until its oldest admission leaves |
| UploadRule.SessionsBalance | src/fanic/cylinder_sites/common/rate_limit.py:220-260 | When every end belongs to an open session, the open sessions are those admitted less those ended |
| RateLimits.AgreesWithout | src/fanic/cylinder_sites/common/rate_limit.py:186-199 | Forgetting a key whose newest entry is two windows old changes no later decision |
| RateLimits.PostLimiter.Check | src/fanic/cylinder_sites/common/rate_limit.py:320-344 | Until a key is evicted over the cap, the pruned limiter answers as the full history does; the table never holds more than one key over the cap |
| RateLimits.PostLimiter.Prune | src/fanic/cylinder_sites/common/rate_limit.py:168-184 | Pruning forgets exactly the addresses whose newest entry is two windows old, and beyond the cap those whose newest entry is oldest |
| RateLimits.PostLimiter.WindowsBounded | src/fanic/cylinder_sites/common/rate_limit.py:320-344 | Until an eviction no closed window holds more admitted requests of an address than the limit |
| RateLimits.PostLimiter.WaitIsHonest | src/fanic/cylinder_sites/common/rate_limit.py:330-344 | Until an eviction, the wait an address is told is one second if the true wait is below that, and else the true wait rounded down; then no series of requests within it gets any in, and a request one second after it gets in |
| RateLimits.UploadLimiter.Prune | src/fanic/cylinder_sites/common/rate_limit.py:186-211 | Pruning never drops a user with an open upload; up to the cap it forgets exactly the users without one whose newest entry is two windows old, and changes no later decision |
| RateLimits.UploadLimiter.Begin | src/fanic/cylinder_sites/common/rate_limit.py:220-246 | Until keys are evicted over the cap, the pruned limiter decides and books exactly as the full-history rule; a blank name is let in unrecorded |
| RateLimits.UploadLimiter.End | src/fanic/cylinder_sites/common/rate_limit.py:249-260 | Ending closes one session of that user, if one is open, and touches nobody else |
| RateLimits.UploadLimiter.InFlightIsOpen | src/fanic/cylinder_sites/common/rate_limit.py:220-260 | The in-flight counter equals the open sessions and never exceeds the limit, even after evictions |
| RateLimits.UploadLimiter.WindowsBounded | src/fanic/cylinder_sites/common/rate_limit.py:220-246 | Until an eviction no closed window holds more admissions of a user than the limit |
| FreshNames.CandidateInjective | src/fanic/repository/users.py:201-210 | No name is tried twice: the decimal suffixes tell the tries apart |
| FreshNames.FirstFree | src/fanic/repository/users.py:201-210 | The search ends within as many tries as there are names in use, and one more, at the first name not in use |
| FreshNames.NextGallerySlug | src/fanic/repository/fanart.py:311-335 | The gallery loop ends within (slugs in use) + 1 tries with the base if the uploader does not have it, and else the first free of base-2, base-3, ... |
| FreshNames.FreshNameMeans | src/fanic/repository/users.py:201-210 | A fresh name is the base if that is free, and else the first free of the base with 2, 3, ... behind it |
| AccountProofs.NextNameFree | src/fanic/repository/users.py:201-210 | The display name found is letters and digits only and nobody else's in any letter case; a valid name nobody else has is kept as it is |
| AccountProofs.NextNameIsFirst | src/fanic/repository/users.py:201-210 | And it is the seed less everything but letters and digits, or "User" where nothing is left, if nobody else has that, and else the first free one of that with 2, 3, ... behind it |
| AccountProofs.LoginSound | src/fanic/repository/users.py:497-605 | On sound tables Auth0 login never fails: it signs the subject in as an active user, keeps roles managed, names valid, display names and emails unique and identities pointing at users, and changes no other user and no other identity |
| AccountEffects.LoginFinds | src/fanic/repository/users.py:509-549 | A login signs in the user of its identity, else a user with its email, else a new one |
| AccountEffects.LoginRole | src/fanic/repository/users.py:521-585 | The role after a login is superadmin if the email is the configured one (for a known user, not blank), else the role the user had, and for a new user that of an ordinary user |
| AccountEffects.LoginColumns | src/fanic/repository/users.py:521-605 | A known user keeps age and age gate, and once onboarded the display name; a new one has neither age nor age gate; a user not yet onboarded is given the next available display name for the name of the login, or else for the name there was; and the user is active |
| AccountEffects.LoginEmail | src/fanic/repository/users.py:521-605 | The user gets the email of the login unless it is blank or another user has it, and otherwise keeps the email there was; the identity records the user, that email and whether it was verified |
| AccountProofs.LoginIdempotent | src/fanic/repository/users.py:497-605 | Logging in again with the same details, through whichever branch the first went, returns the same user and changes nothing |
| AccountProofs.StepSound | src/fanic/repository/users.py:150-198 | Every account operation keeps the tables sound |
| AccountProofs.RunSound | src/fanic/repository/users.py:231-795 | So does any run of them |
| AccountProofs.SameUserUntilDeleted | src/fanic/repository/users.py:509-549 | A subject that has an identity gets the same user name at every later login, whatever happened in between, until that user is deleted |
| AccountEffects.SettingsEffect | src/fanic/repository/users.py:650-795 | Setting a role or the activity of a user changes that column of that user only, and nothing for a name nobody has or for the guest role |
| AccountEffects.NamesEffect | src/fanic/repository/users.py:650-795 | A rename, a profile and an onboarding store the stripped name, and the last two the age and the age gate, exactly if the name is valid and nobody else has it in any letter case (and, for an onboarding, the user has not been through it), and change nothing else |
| AccountEffects.DeleteEffect | src/fanic/repository/users.py:780-794 | A user goes with exactly the identities that point at it |
| AccountEffects.WriteEffect | src/fanic/repository/users.py:150-271 | A row is written, with stripped display name and normalised email, exactly if its role is managed and nobody else has the name or the email in any letter case; a creation also needs a new user name; nothing else changes |
| AccountTables.UserStore.FindDisplayName | src/fanic/repository/users.py:201-210 | The loop over suffixes returns the specified name within (other users) + 1 tries |
| AccountProofs.SuperadminIff | src/fanic/repository/users.py:521-585 | A login leaves its user a superadmin if and only if the user was one, or the login email is the configured one and is not blank unless the user is new |
| AccountProofs.FirstLoginWithoutEmail | src/fanic/repository/users.py:584-605 | With no superadmin email configured, a first login without an email always makes a superadmin |
| AccountTables.UserStore.UpsertUser | src/fanic/repository/users.py:150-198 | For any user name, display name and email as given: the row is written, normalised, exactly when the role is managed, the stripped name valid and held by no other user, and the normalised email held by no other; otherwise an error leaves the table alone |
| AccountTables.UserStore.CreateUser | src/fanic/repository/users.py:231-271 | The same under the stripped user name, which must be neither blank nor taken |
| AccountTables.UserStore.LogInWith | src/fanic/repository/users.py:497-605 | The three branches, on the tables, end in exactly the specified state and user name, whose columns AccountEffects states |
| AccountTables.UserStore.DeleteUser | src/fanic/repository/users.py:780-794 | The user goes together with its identities and nothing else |
| TagStore.TagTables.EnsureTag | src/fanic/repository/works.py:497-518 | The tag found or made has the slug of the name; nothing is added if there was one, and otherwise one tag with that slug, the name and the kind asked for; slugs stay unique |
| TagStore.TagPairsMean | src/fanic/repository/works.py:541-556 | A name is asked for as a tag of a kind exactly if it stands, not blank, in the metadata field of that kind |
| TagStore.PairSlugsMean | src/fanic/repository/works.py:541-556 | The slugs asked for are those of the names that are not blank in any of the fields |
| TagStore.TermsMean | src/fanic/repository/fanart.py:157-158 | The terms of a comma-separated text are its parts between commas, stripped, that are not blank |
| TagStore.TagTables.ReplaceWorkTags | src/fanic/repository/works.py:535-582 | The work then holds exactly the tags whose slugs come from its metadata, all other links are kept, slugs stay unique, and each tag's count exceeds its holders by one more exactly if the work dropped it; every new tag has slug, name and kind of the first name asked for with that slug, which stands in the metadata field of its kind |
| TagStore.TagTables.ReplaceItemTags | src/fanic/repository/fanart.py:208-245 | The same for a fanart item, case-insensitive repeats included; work links and the lower bound on counts are kept; a new tag is a fandom if a fandom term has its slug and else a freeform, under the first term with that slug |
| TagStore.TagTables.DeleteWork | src/fanic/repository/works.py:1206-1216 | The work goes with its links; no count falls below its holders |
| TagStore.TagTables.Backfill | src/fanic/repository/tags.py:158-183 | Every tag's count becomes exactly the number of works holding it |
| TagStore.HeldReplace | src/fanic/repository/works.py:560-581 | Replacing one work's links moves each tag's number of holders by exactly what that work gained or lost |
| TagStore.UniqueTerms | src/fanic/repository/fanart.py:194-205 | The kept terms differ in more than letter case, and no slug is lost with the dropped ones |
| TagStore.UniqueSlugs | src/fanic/repository/works.py:557 | Dropping repeated pairs loses no slug |
| Text.SlugifyLower | src/fanic/utils.py:5-10 | Names that differ only in letter case have one slug |
| Text.SlugOfWord | src/fanic/utils.py:5-10 | The slug of a word of letters and digits is the word in small letters |
| Text.SlugJoins | src/fanic/utils.py:5-10 | The slug of two texts with a gap of other characters between them is their slugs joined by one dash |
| Text.SlugIgnoresEnds | src/fanic/utils.py:5-10 | Other characters before and behind a text do not change its slug |
| Text.DecimalInjective | src/fanic/repository/users.py:208 | Different counters print as different numerals |
| BlobStore.StraysNext | src/fanic/fanart.py:263-308 | After an upload or a deletion the stored blobs no row uses are those before, less the one a new row adopts, plus exactly what the event leaves behind: a blob put for a row that did not go in, or one whose removal failed, if no other row uses it |
| BlobStore.StraysAfter | src/fanic/repository/fanart.py:1028-1058 | Over any run, a blob is stored and unused if and only if some event left it behind and no later row adopted it |
| BlobStore.OnlyReferencedIff | src/fanic/repository/fanart.py:1028-1058 | Starting empty, exactly the referenced blobs are stored if and only if everything left behind was adopted later |
| BlobStore.FailedUploadLeaves | src/fanic/fanart.py:263-308 | Starting empty, an upload whose row is not inserted leaves its blob as the one stray, and a second upload of the same content adopts it |
| BlobStore.ReadsNext | src/fanic/fanart.py:143-190 | An event leaves every row with its own bytes if and only if it is not an upload that meets other content under its own address and either leaves it there for its new row or writes over it although a row uses it |
| BlobStore.ReadsThroughoutIff | src/fanic/fanart.py:143-190 | Over any run every row has its own bytes throughout if and only if no upload is of that kind |
| BlobStore.InjectiveClear | src/fanic/fanart.py:143-147 | Under an injective digest no upload of any run is of that kind |
| BlobStore.FanartStore.Upload | src/fanic/fanart.py:263-308 | Both blobs are put before the row, and the row goes in under the two content addresses exactly if nothing failed; each folder takes the step of its event, failed uploads included, with or without the check for a blob that is there already |
| BlobStore.FanartStore.Delete | src/fanic/repository/fanart.py:1005-1060 | The row goes, and each folder takes the removal step: the blob goes unless another row uses it or its removal failed |
| BlobStore.FanartStore.RowsReadBack | src/fanic/repository/fanart.py:1005-1060 | In every reachable state each row's image and thumbnail are stored, whatever the digest; they are the bytes it was uploaded with if no upload met other content under its own address, so always under an injective digest |
| BlobStore.FanartStore.OnlyReferenced | src/fanic/repository/fanart.py:1028-1058 | In every reachable state each folder holds exactly the referenced blobs if and only if everything its events left behind was adopted by a later upload |
| BlobStore.AddressIsDigest | src/fanic/fanart.py:143-147 | Two contents share an address if and only if they share the digest, for digests of any length |
| BlobStore.AddressInjective | src/fanic/fanart.py:143-147 | Under an injective digest, two contents never share an address |
| BlobStore.SomeInjective | src/fanic/fanart.py:143-147 | There is an injective digest |
| ProgressStore.LookupIsLastPut | src/fanic/ingest_progress.py:131-195 | The plain map with expiry answers with the last value set under the token if it is no older than the limit, and with nothing otherwise |
| ProgressStore.Store.Run | src/fanic/ingest_progress.py:131-195 | Over any sequence of sets, gets and restarts in time order, every get answers as the plain map of the sets before it |
| ProgressStore.Store.GetProgress | src/fanic/ingest_progress.py:167-195 | Memory and files together answer exactly as that map, across restarts and whatever files could not be unlinked |
| ProgressStore.Store.SetProgress | src/fanic/ingest_progress.py:131-164 | Setting is an update of that map; an empty token changes nothing |
| UploadPool.Pool.ImportPages | src/fanic/ingest.py:1105-1197 | In any completion order the import goes on if and only if no upload failed, and then every image and thumbnail key of the rows is stored before the database is written |
| UploadPool.Pool.Drain | src/fanic/ingest.py:759-773 | After a drain the pool is below max(8, 4 * workers) with every unfinished key still in it, unless a failure was seen; a pool below that bound is left as it is |
| UploadPool.Pool.WaitForAll | src/fanic/ingest.py:812-819 | Waiting ends with an empty pool and every key stored, unless some upload failed |
| NaturalSort.ComparableIff | src/fanic/ingest.py:534-543 | Two natural keys compare without a type error if and only if both start with a number, both with text, or one is empty |
| NaturalSort.KeyLessMeans | src/fanic/ingest.py:534-543 | Keys compare at the first element that differs, numbers as numbers and text as text, and a key comes after its beginnings |
| NaturalSort.TextLeMeans | src/fanic/ingest.py:534-543 | Text compares at the first character that differs, and comes after its beginnings |
| NaturalSort.PartsCut | src/fanic/ingest.py:534-543 | The key of a name is put together from the keys of the pieces between which it changes from digits to other characters or back |
| NaturalSort.PartsOfOneKind | src/fanic/ingest.py:534-543 | A piece without digits is one text of the key, and one of digits only is one number |
| NaturalSort.ValueOfDecimal | src/fanic/ingest.py:534-543 | The number of a numeral is the number it spells |
| NaturalSort.BaseNameMeans | src/fanic/ingest.py:920-937 | The name that is sorted by is what follows the last slash |
| NaturalSort.KeyIgnoresCase | src/fanic/ingest.py:534-543 | Letter case does not count |
| NaturalSort.RankMeans | src/fanic/ingest.py:928-935 | A name listed in page_order ranks by its first place there, one that is not listed at 999999, and without a list all rank alike |
| NaturalSort.PartsAlternate | src/fanic/ingest.py:534-543 | A key alternates numbers and text, and starts with a number exactly when the name starts with a digit |
| NaturalSort.NoTypeErrorIff | src/fanic/ingest.py:920-937 | No comparison of two members can fail if and only if all names outside page_order start in one class |
| NaturalSort.MixedNamesStop | src/fanic/ingest.py:920-937 | Two pages whose names start in different classes stop an import, unless page_order lists one of them |
| NaturalSort.ImportOrderSorted | src/fanic/ingest.py:920-937 | The imported order is a permutation of the members, ascending under Python's own comparison, with ties in archive order |
| NaturalSort.ListedFirst | src/fanic/ingest.py:928-935 | Members named in page_order come before all others, in its order |
| Orders.StableSortUnique | src/fanic/ingest.py:928-937 | A list with those properties is the only one, so any stable sort gives the modelled order |

## Left out

- Image decoding, AVIF encoding, style classification, moderation and its review queue: only the ratings they suggest enter, as arbitrary inputs.
- HTTP handling, authorization predicates, rendering and settings parsing: the models start at the dispatch of an accepted request.
- SQLite itself: tables are maps and sequences, and each repository function is one step. Requests do not interleave, except in the ingest queue and the upload pool.
- SHA-256, UUIDs and JSON: any digest function, ids not yet in use, and a faithful round trip stand for them. That no two contents share a digest is nowhere required; what depends on it says so. Non-ASCII text (case folding, NFKD in slugs) is not modelled.
- Title, summary, status and the other metadata columns of a work, timestamps, `cover_page_index`, and the sidecar TOML file of a work: no invariant of the editor mentions them.
- The chapter table is a sequence in `chapter_index` order with the members inside each row; `created_at` is dropped.
- Thumbnail conversion, which rewrites snapshot files in place, and several processes on one versions directory. A version id that is already taken makes the snapshot fail, as the directory then exists.
- `set_work_rating` and admin edits: the Explicit rating is followed over what users do.
- Single entries of the table of rating aliases: the table is data of the program, read as it stands, and only the five canonical names are followed through it.
- The page limit of an import and the archive size checks: an archive that passes them is the input.
- The id of a user apart from the user name: every caller of `upsert_user` passes the same value for both. A change of user name, which no search trigger watches, does not occur for the same reason.
- Fanart galleries beyond their slugs, comments, notifications, reading progress and bookmarks: single-row writes.
- Row ids of works and fanart items are stable in the models; SQLite may renumber them on `VACUUM`.
- The queue with a maximum of zero or less, where every caller is let in without being counted, and calls of `end_comic_ingest_session` without a session.
- RateLimits.UploadLimiter.Prune: does not say which idle keys go once the cap is exceeded; the sort there fails on an empty list, which a user with an open upload can have. Limits of zero or fewer requests are excluded, as the refusal then reads the first entry of an empty list.
- RateLimits.PostLimiter.Check: after an eviction over the cap only the size bound is kept, since an evicted address starts afresh.
- The lockout after failed logins: it truncates to whole seconds and its pruning can drop recent failures, so it refines no simple rule.
- ProgressStore.Store.SetProgress: does not model a file write that fails after the memory has been updated; nor several processes on one progress directory, each of which keeps its own cached copy.
- AccountProofs.LoginSound: leaves the race between two first logins with one new email to the unique index, as requests do not interleave.
- NaturalSort.ImportOrderSorted: base names are what follows the last slash; other path normalisation is not modelled.
- Backup and restore, scripts, the sidecar, and the TypeScript front end.
