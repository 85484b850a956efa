/**
 What holds of a work's tables after any run at all, cut short actions and repeated filenames included: the
 keys are kept, and an import with distinct filenames, or a reorder that names every filename, brings the whole
 editor invariant back.
*/
module Recovery {
  import opened Wrappers
  import opened Rating
  import opened PageOrder
  import opened WorkModel
  import opened Editor
  import opened Pages
  import opened ChapterRows
  import opened EditorProofs
  import opened CbzImport
  import opened EditorRuns

  // ---- The page rows

  lemma {:induction false} FoundAt(pages: seq<Page>, index: int)
    ensures PageAt(pages, index).Some? ==> PageAt(pages, index).value.index == index
  {
    if pages != [] && pages[0].index != index {
      FoundAt(pages[1..], index);
    }
  }

  lemma ReplacedNumbered(pages: seq<Page>, index: int, row: Page)
    requires Numbered(pages) && row.index == index
    ensures Numbered(Replaced(pages, index, row))
  {
  }

  // ---- The actions

  /** The chapter side of `TablesOk`. */
  ghost predicate ChapterTablesOk(w: Work) {
    0 < w.nextChapterId && ChaptersNumbered(w.chapters) && RowsOk(w.chapters, w.nextChapterId)
  }

  lemma TablesParts(w: Work)
    ensures TablesOk(w) <==> Numbered(w.pages) && ChapterTablesOk(w)
  {
    hide IdsOk, ChaptersNumbered, Numbered, Distinct;
  }

  lemma FinishTables(w: Work, names: seq<set<Name>>, stamp: nat)
    requires |names| == |w.chapters| && Numbered(w.pages) && ChapterTablesOk(w)
    ensures TablesOk(Finish(w, RefitFrom(Order(w.pages), [], w.chapters, names), stamp).work)
  {
    hide IdsOk, ChaptersNumbered, Numbered, RefitFrom, RowsOk, Distinct;
    assert [] + w.chapters == w.chapters;
    RefitRows(Order(w.pages), [], w.chapters, names, w.nextChapterId);
    var o := Finish(w, RefitFrom(Order(w.pages), [], w.chapters, names), stamp);
    TablesParts(o.work);
  }

  /** Only the rebuilt chapters get into the work, not the ones it had. */
  lemma FinishReadsRebuilt(w: Work, chapters: seq<Chapter>, rebuilt: Rebuilt, stamp: nat)
    ensures Finish(w.(chapters := chapters), rebuilt, stamp) == Finish(w, rebuilt, stamp)
  {
  }

  lemma MembersOf(chapters: seq<Chapter>, k: nat, next: nat)
    requires RowsOk(chapters, next) && k < |chapters|
    ensures Distinct(chapters[k].members)
  {
    hide IdsOk, Distinct;
    assert chapters[k] in chapters;
  }

  lemma AddPageTables(w: Work, row: Page, after: int, handed: string, suggested: string, stamp: nat)
    requires TablesOk(w)
    ensures TablesOk(DoAddPage(w, row, after, handed, suggested, stamp).work)
  {
    TablesParts(w);
    var k := InsertPosition(|w.pages|, after);
    var pages := Renumber(InsertAt(w.pages, k, row));
    RenumberNumbers(InsertAt(w.pages, k, row));
    hide TablesOk, Finish, Renumber, Numbered, PageRating, RefitFrom, RowsOk, ChaptersNumbered, KeptNames;
    var w1 := w.(pages := pages, pageCount := |pages|, rating := PageRating(w.rating, handed, suggested));
    FinishTables(w1, KeptNames(Order(pages), "", w.chapters), stamp);
  }

  lemma ReplacePageTables(w: Work, index: int, row: Page, suggested: string, stamp: nat)
    requires TablesOk(w)
    ensures TablesOk(DoReplacePage(w, index, row, suggested, stamp).work)
  {
    TablesParts(w);
    FoundAt(w.pages, index);
    hide TablesOk, Finish, Replaced, Numbered, Elevate, RefitFrom, RemapFrom, RowsOk, ChaptersNumbered, KeptNames;
    match PageAt(w.pages, index)
    case None =>
    case Some(current) =>
      var pages := Replaced(w.pages, index, row.(index := current.index));
      ReplacedNumbered(w.pages, index, row.(index := current.index));
      var remapped := RemapFrom([], w.chapters, current.image, row.image);
      assert [] + w.chapters == w.chapters;
      RemapRows([], w.chapters, current.image, row.image, w.nextChapterId);
      TablesParts(w.(pages := pages, chapters := remapped.chapters));
      var rebuilt := Reconcile(Order(pages), "", remapped.chapters);
      var w1 := w.(pages := pages, rating := if rebuilt.ok then Elevate(w.rating, suggested) else w.rating);
      FinishTables(w1.(chapters := remapped.chapters), KeptNames(Order(pages), "", remapped.chapters), stamp);
      FinishReadsRebuilt(w1, remapped.chapters, rebuilt, stamp);
  }

  lemma DeletePageTables(w: Work, index: int, stamp: nat)
    requires TablesOk(w)
    ensures TablesOk(DoDeletePage(w, index, stamp).work)
  {
    TablesParts(w);
    RenumberNumbers(Without(w.pages, index));
    hide TablesOk, Finish, Renumber, Without, Numbered, RefitFrom, RowsOk, ChaptersNumbered, KeptNames;
    match PageAt(w.pages, index)
    case None =>
    case Some(current) =>
      var pages := Renumber(Without(w.pages, index));
      FinishTables(w.(pages := pages), KeptNames(Order(pages), current.image, w.chapters), stamp);
  }

  lemma MovePageTables(w: Work, from: int, to: int, stamp: nat)
    requires TablesOk(w)
    ensures TablesOk(DoMovePage(w, from, to, stamp).work)
  {
    TablesParts(w);
    hide TablesOk, Finish, Renumber, Numbered, RefitFrom, RowsOk, ChaptersNumbered, KeptNames;
    if 1 <= from <= |w.pages| && 1 <= to <= |w.pages| {
      var pages := Moved(w.pages, from, to);
      RenumberNumbers(InsertAt(RemoveAt(w.pages, from - 1), to - 1, w.pages[from - 1]));
      FinishTables(w.(pages := pages), KeptNames(Order(pages), "", w.chapters), stamp);
    }
  }

  lemma ReorderTables(w: Work, names: seq<Name>, request: map<nat, seq<Name>>, stamp: nat)
    requires TablesOk(w)
    ensures TablesOk(DoReorder(w, names, request, stamp).work)
  {
    TablesParts(w);
    var order := NewOrder(w.pages, names);
    hide TablesOk, Finish, Renumber, Numbered, RefitFrom, RowsOk, ChaptersNumbered, GalleryNames, NewOrder, RowsNamed;
    var pages := Renumber(RowsNamed(w.pages, order));
    RenumberNumbers(RowsNamed(w.pages, order));
    FinishTables(w.(pages := pages), GalleryNames(Order(pages), w.chapters, request), stamp);
  }

  lemma AddChapterTables(w: Work, title: string, start: int, end: int, stamp: nat)
    requires TablesOk(w)
    ensures TablesOk(DoAddChapter(w, title, start, end, stamp).work)
  {
    TablesParts(w);
    TablesParts(DoAddChapter(w, title, start, end, stamp).work);
    hide TablesOk, Numbered, RowsOk, ChaptersNumbered, AddRow;
    AddRowRows(Order(w.pages), w.chapters, w.nextChapterId, title, start, end);
  }

  lemma UpdateChapterTables(w: Work, id: int, title: string, start: int, end: int, stamp: nat)
    requires TablesOk(w)
    ensures TablesOk(DoUpdateChapter(w, id, title, start, end, stamp).work)
  {
    TablesParts(w);
    TablesParts(DoUpdateChapter(w, id, title, start, end, stamp).work);
    hide TablesOk, Numbered, RowsOk, ChaptersNumbered, Distinct, Order;
    var k := ChapterPos(w.chapters, id);
    if RangeOk(w, start, end) && k < |w.chapters| {
      var picked := Order(w.pages)[start - 1..end];
      var row := w.chapters[k].(title := title, start := start, end := end);
      MembersOf(w.chapters, k, w.nextChapterId);
      RewrittenRows(w.chapters, k, if Distinct(picked) then row.(members := picked) else row, w.nextChapterId);
    }
  }

  lemma DeleteChapterTables(w: Work, id: int, stamp: nat)
    requires TablesOk(w)
    ensures TablesOk(DoDeleteChapter(w, id, stamp).work)
  {
    TablesParts(w);
    TablesParts(DoDeleteChapter(w, id, stamp).work);
    hide TablesOk, Numbered, RowsOk, ChaptersNumbered, DeleteRow;
    var k := ChapterPos(w.chapters, id);
    if k < |w.chapters| {
      DeletedRows(w.chapters, k, w.nextChapterId);
    }
  }

  lemma ImportTables(w: Work, rows: seq<Page>, directories: seq<string>, rating: string, stamp: nat)
    requires TablesOk(w) && |rows| == |directories|
    ensures TablesOk(DoImport(w, rows, directories, rating, stamp).work)
  {
    RenumberNumbers(rows);
    GroupedNamed(Order(rows), directories, Order(rows));
    assert ChaptersNumbered([]) && RowsOk([], w.nextChapterId);
    hide IdsOk, RowsOk, ChaptersNumbered, Numbered, ImportFrom, Grouped, GroupsNamed, Renumber;
    ImportRows(Order(rows), Grouped(directories, Order(rows)), [], w.nextChapterId);
    TablesParts(DoImport(w, rows, directories, rating, stamp).work);
  }

  lemma ClaimTables(w: Work, uploader: Option<string>)
    requires TablesOk(w)
    ensures TablesOk(Claim(w, uploader)) && Claim(w, uploader).versions == w.versions
  {
    hide Numbered, ChaptersNumbered, IdsOk, Distinct;
  }

  lemma PageTables(w: Work, actor: string, a: Action, stamp: nat)
    requires TablesOk(w) && (a.AddPage? || a.ReplacePage? || a.DeletePage? || a.MovePage? || a.Reorder?)
    ensures TablesOk(Owned(w, actor, a, stamp).work)
  {
    hide DoAddPage, DoReplacePage, DoDeletePage, DoMovePage, DoReorder, TablesOk, Claim;
    match a
    case AddPage(row, after, handed, suggested) =>
      ClaimTables(w, Some(actor));
      AddPageTables(Claim(w, Some(actor)), row, after, handed, suggested, stamp);
    case ReplacePage(index, row, suggested) => ReplacePageTables(w, index, row, suggested, stamp);
    case DeletePage(index) => DeletePageTables(w, index, stamp);
    case MovePage(from, to) => MovePageTables(w, from, to, stamp);
    case Reorder(names, request) => ReorderTables(w, names, request, stamp);
  }

  lemma ChapterTables(w: Work, actor: string, a: Action, stamp: nat)
    requires TablesOk(w) && (a.AddChapter? || a.UpdateChapter? || a.DeleteChapter?)
    ensures TablesOk(Owned(w, actor, a, stamp).work)
  {
    hide DoAddChapter, DoUpdateChapter, DoDeleteChapter, TablesOk;
    match a
    case AddChapter(title, start, end) => AddChapterTables(w, title, start, end, stamp);
    case UpdateChapter(id, title, start, end) => UpdateChapterTables(w, id, title, start, end, stamp);
    case DeleteChapter(id) => DeleteChapterTables(w, id, stamp);
  }

  /** The keys survive every action: completed, refused or cut short, whatever the filenames. */
  lemma StepTables(w: Work, actor: string, a: Action, stamp: nat)
    requires TablesOk(w)
    ensures TablesOk(Step(w, actor, a, stamp).work)
  {
    hide Owned, DoImport, ImportRating, LocksDemotion, Resolve;
    if a.ImportCbz? {
      ClaimTables(w, a.uploader);
      hide TablesOk, Claim;
      if |a.rows| == |a.directories| {
        var rating := ImportRating(a.metadata, a.suggestions, a.fallback);
        ImportTables(Claim(w, a.uploader), a.rows, a.directories, rating, stamp);
      }
    } else if !a.EditMetadata? {
      hide TablesOk;
      if a.AddChapter? || a.UpdateChapter? || a.DeleteChapter? {
        ChapterTables(w, actor, a, stamp);
      } else {
        PageTables(w, actor, a, stamp);
      }
    }
  }

  lemma {:induction false} RunTables(w: Work, events: seq<Event>)
    requires TablesOk(w)
    ensures TablesOk(Run(w, events))
    decreases |events|
  {
    hide TablesOk, Step;
    if events != [] {
      StepTables(w, events[0].actor, events[0].action, events[0].stamp);
      RunTables(After(w, events[0]).work, events[1..]);
    }
  }

  // ---- The way back

  /** The archive has pages, and its filenames are all different. */
  ghost predicate CleanImport(a: Action) {
    a.ImportCbz? && |a.rows| == |a.directories| && a.rows != [] && Distinct(Order(a.rows)) && "" !in Order(a.rows)
  }

  lemma ImportIsStep(w: Work, actor: string, a: Action, stamp: nat)
    requires CleanImport(a)
    ensures Step(w, actor, a, stamp)
      == DoImport(Claim(w, a.uploader), a.rows, a.directories,
                  ImportRating(a.metadata, a.suggestions, a.fallback), stamp)
    ensures Claim(w, a.uploader).versions == w.versions
  {
    hide DoImport, ImportRating, Distinct, Order;
  }

  /** From any tables that keep their keys, such an import leads back to the invariant, with its own snapshot. */
  lemma ImportRestores(w: Work, actor: string, a: Action, stamp: nat)
    requires TablesOk(w) && CleanImport(a)
    ensures Completed(w, Step(w, actor, a, stamp), stamp)
  {
    var claimed := Claim(w, a.uploader);
    ClaimTables(w, a.uploader);
    ImportIsStep(w, actor, a, stamp);
    hide TablesOk, DoImport, ImportRating, EditorInvariant, Distinct, Order, Claim, Step;
    ImportKeeps(claimed, a.rows, a.directories, ImportRating(a.metadata, a.suggestions, a.fallback), stamp);
  }

  /**
   Whatever a work has been through since it was created, an import with distinct filenames under an unused version
   id completes and restores the invariant, and under a later id the newest snapshot is of the new tables.
  */
  lemma ImportRecovers(owner: Option<string>, events: seq<Event>, actor: string, a: Action, stamp: nat)
    requires CleanImport(a) && stamp !in Run(EmptyWork(owner), events).versions
    ensures var w := Run(EmptyWork(owner), events);
      var o := Step(w, actor, a, stamp);
      && o.ok && EditorInvariant(o.work) && Adds(w.versions, o, stamp)
      && (Later(w, stamp) ==> Recorded(o.work))
  {
    assert TablesOk(EmptyWork(owner));
    hide Run, TablesOk, Step, EditorInvariant, CleanImport, Recorded, Later, EmptyWork;
    RunTables(EmptyWork(owner), events);
    var w := Run(EmptyWork(owner), events);
    ImportRestores(w, actor, a, stamp);
    if Later(w, stamp) {
      StepRecords(w, actor, a, stamp);
    }
  }

  lemma NamedOrder(pages: seq<Page>, names: seq<Name>)
    ensures var order, known := NewOrder(pages, names), Names(Order(pages)) - {""};
      && Distinct(order) && "" !in order
      && (|order| == |known| <==> known <= Names(names))
      && (|order| == |known| ==> Names(order) == known)
  {
    var known := Names(Order(pages)) - {""};
    MentionsKnown(names, known, {});
    MentionsComplete(names, known);
    hide FirstMentions, Distinct;
  }

  /**
   A gallery reorder is the other way back: from any tables that keep their keys it completes exactly if it names
   every filename there is, and then leaves one page of each name, so that pages of a repeated name are dropped.
  */
  lemma ReorderRestores(w: Work, names: seq<Name>, request: map<nat, seq<Name>>, stamp: nat)
    requires TablesOk(w)
    ensures var o, known := DoReorder(w, names, request, stamp), Names(Order(w.pages)) - {""};
      if w.pages != [] && known <= Names(names) then
        && Completed(w, o, stamp)
        && Follows(names, Order(o.work.pages)) && Names(Order(o.work.pages)) == known
      else o == Outcome(w, false)
  {
    NamedOrder(w.pages, names);
    NewOrderFollows(w.pages, names);
    var order := NewOrder(w.pages, names);
    var pages := Renumber(RowsNamed(w.pages, order));
    RenumberNumbers(RowsNamed(w.pages, order));
    OrderRowsNamed(w.pages, order);
    hide NewOrder, RowsNamed, Renumber, Numbered, Distinct, RefitFrom, EditorInvariant, GalleryNames, Follows;
    if w.pages != [] && Names(Order(w.pages)) - {""} <= Names(names) {
      FinishCompletes(w, w.(pages := pages), GalleryNames(Order(pages), w.chapters, request), stamp);
    }
  }

  lemma ReorderIsStep(w: Work, actor: string, names: seq<Name>, request: map<nat, seq<Name>>, stamp: nat)
    requires Owns(w, actor)
    ensures Step(w, actor, Reorder(names, request), stamp) == DoReorder(w, names, request, stamp)
  {
    hide DoReorder, Owns;
  }

  /** So after any run whatever, a reorder by the owner that names every filename restores the invariant. */
  lemma ReorderRecovers(owner: Option<string>, events: seq<Event>, actor: string, names: seq<Name>,
                        request: map<nat, seq<Name>>, stamp: nat)
    requires var w := Run(EmptyWork(owner), events);
      Owns(w, actor) && stamp !in w.versions && w.pages != [] && Names(Order(w.pages)) - {""} <= Names(names)
    ensures var w := Run(EmptyWork(owner), events);
      var o := Step(w, actor, Reorder(names, request), stamp);
      && o.ok && EditorInvariant(o.work) && Names(Order(o.work.pages)) == Names(Order(w.pages)) - {""}
      && (Later(w, stamp) ==> Recorded(o.work))
  {
    assert TablesOk(EmptyWork(owner));
    hide Run, TablesOk, DoReorder, EditorInvariant, Recorded, Later, EmptyWork, Order, Owns, NewOrder, Step, Names;
    RunTables(EmptyWork(owner), events);
    var w := Run(EmptyWork(owner), events);
    ReorderIsStep(w, actor, names, request, stamp);
    ReorderRestores(w, names, request, stamp);
    if Later(w, stamp) {
      StepRecords(w, actor, Reorder(names, request), stamp);
    }
  }
}
