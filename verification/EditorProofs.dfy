/** Every editor action keeps the editor invariant, and exactly when it completes. */
module EditorProofs {
  import opened Wrappers
  import opened Rating
  import opened PageOrder
  import opened WorkModel
  import opened Editor
  import opened Pages
  import opened Chapters

  /** The filenames an action brings in are new to the work. */
  ghost predicate FreshFor(w: Work, a: Action) {
    match a
    case AddPage(row, _, _, _) => row.image != "" && row.image !in Order(w.pages)
    case ReplacePage(index, row, _) =>
      row.image != "" && (1 <= index <= |w.pages| ==> row.image !in RemoveAt(Order(w.pages), index - 1))
    case ImportCbz(_, rows, _, _, _, _) => Distinct(Order(rows)) && "" !in Order(rows)
    case _ => true
  }

  /** When an action completes, in terms a caller can check beforehand. */
  ghost predicate Allowed(w: Work, actor: string, a: Action) {
    match a
    case AddPage(_, _, _, _) => Owns(w, actor)
    case ReplacePage(index, _, _) => Owns(w, actor) && 1 <= index <= |w.pages|
    case DeletePage(index) => Owns(w, actor) && 1 <= index <= |w.pages|
    case MovePage(from, to) => Owns(w, actor) && 1 <= from <= |w.pages| && 1 <= to <= |w.pages|
    case Reorder(names, _) => Owns(w, actor) && w.pages != [] && Names(Order(w.pages)) <= Names(names)
    case AddChapter(_, start, end) => Owns(w, actor) && 1 <= start <= end <= |w.pages|
    case UpdateChapter(id, _, start, end) =>
      Owns(w, actor) && 1 <= start <= end <= |w.pages| && exists c :: c in w.chapters && c.id == id
    case DeleteChapter(id) => Owns(w, actor) && exists c :: c in w.chapters && c.id == id
    case EditMetadata(isAdmin, raw) => !LocksDemotion(isAdmin, w.rating, Resolve(raw))
    case ImportCbz(_, rows, directories, _, _, _) => |rows| == |directories| && rows != []
  }

  /** The tables of `w` with the snapshot left out. */
  ghost predicate SamePagesAndChapters(a: Work, b: Work) {
    && a.owner == b.owner && a.pages == b.pages && a.pageCount == b.pageCount && a.rating == b.rating
    && a.chapters == b.chapters && a.nextChapterId == b.nextChapterId
  }

  /** What a completed action leaves: its own tables, and a snapshot of them unless the name is taken. */
  ghost predicate Completed(before: Work, o: Outcome, stamp: nat) {
    && EditorInvariant(o.work)
    && (o.ok <==> stamp !in before.versions)
    && (o.ok ==> stamp in o.work.versions && Describes(o.work.versions[stamp], o.work)
                 && o.work.versions - {stamp} == before.versions)
    && (!o.ok ==> o.work.versions == before.versions)
  }

  ghost predicate Became(o: Outcome, pages: seq<Page>, chapters: seq<Chapter>) {
    o.work.pages == pages && o.work.chapters == chapters
  }

  lemma SnapshotCompletes(before: Work, w: Work, stamp: nat)
    requires EditorInvariant(w) && before.versions == w.versions
    ensures Completed(before, Snapshot(w, stamp), stamp) && SamePagesAndChapters(Snapshot(w, stamp).work, w)
  {
  }

  /** The shared tail of the page actions: any refit to a page order without repeats completes. */
  lemma FinishCompletes(before: Work, w: Work, names: seq<set<Name>>, stamp: nat)
    requires before.versions == w.versions
    requires |names| == |w.chapters| && Numbered(w.pages) && Distinct(Order(w.pages)) && "" !in Order(w.pages)
    requires ChaptersNumbered(w.chapters) && IdsOk(w.chapters, w.nextChapterId) && 0 < w.nextChapterId
    ensures var rebuilt := RefitFrom(Order(w.pages), [], w.chapters, names);
      && Completed(before, Finish(w, rebuilt, stamp), stamp)
      && Became(Finish(w, rebuilt, stamp), w.pages, rebuilt.chapters)
  {
    RefitEstablishes(Order(w.pages), w.chapters, names, w.nextChapterId);
    var rebuilt := RefitFrom(Order(w.pages), [], w.chapters, names);
    SnapshotCompletes(before, w.(chapters := rebuilt.chapters, pageCount := |w.pages|), stamp);
  }

  lemma AddPageBecomes(w: Work, row: Page, after: int, handed: string, suggested: string, stamp: nat)
    requires EditorInvariant(w) && row.image != "" && row.image !in Order(w.pages)
    ensures Completed(w, DoAddPage(w, row, after, handed, suggested, stamp), stamp)
    ensures var pages := Renumber(InsertAt(w.pages, InsertPosition(|w.pages|, after), row));
      Became(DoAddPage(w, row, after, handed, suggested, stamp), pages,
             Reconcile(Order(pages), "", w.chapters).chapters)
  {
    hide PageRating, Completed;
    var k := InsertPosition(|w.pages|, after);
    var pages := Renumber(InsertAt(w.pages, k, row));
    RenumberNumbers(InsertAt(w.pages, k, row));
    OrderInsert(w.pages, k, row);
    DistinctInsert(Order(w.pages), k, row.image);
    InsertNames(Order(w.pages), k, row.image);
    var w1 := w.(pages := pages, pageCount := |pages|, rating := PageRating(w.rating, handed, suggested));
    FinishCompletes(w, w1, KeptNames(Order(pages), "", w.chapters), stamp);
  }

  /** A page with a new filename goes right after the one named, or last where that names none. */
  lemma AddPageKeeps(w: Work, row: Page, after: int, handed: string, suggested: string, stamp: nat)
    requires EditorInvariant(w) && row.image != "" && row.image !in Order(w.pages)
    ensures var o := DoAddPage(w, row, after, handed, suggested, stamp);
      && Completed(w, o, stamp)
      && o.work.chapters == Reconcile(Order(o.work.pages), "", w.chapters).chapters
      && Order(o.work.pages)
         == if 1 <= after <= |w.pages| then Order(w.pages)[..after] + [row.image] + Order(w.pages)[after..]
            else Order(w.pages) + [row.image]
  {
    hide DoAddPage, Reconcile, EditorInvariant, Completed;
    AddPageBecomes(w, row, after, handed, suggested, stamp);
    var k := InsertPosition(|w.pages|, after);
    RenumberNumbers(InsertAt(w.pages, k, row));
    OrderInsert(w.pages, k, row);
  }

  /** Who owns the work has no part in the invariant. */
  lemma ClaimKeeps(w: Work, uploader: Option<string>)
    requires EditorInvariant(w)
    ensures EditorInvariant(Claim(w, uploader))
            && SamePagesAndChapters(Claim(w, uploader), w.(owner := Claim(w, uploader).owner))
    ensures Claim(w, uploader).versions == w.versions
  {
  }

  lemma DeletePageKeeps(w: Work, index: int, stamp: nat)
    requires EditorInvariant(w)
    ensures if 1 <= index <= |w.pages| then Completed(w, DoDeletePage(w, index, stamp), stamp)
            else DoDeletePage(w, index, stamp) == Outcome(w, false)
    ensures 1 <= index <= |w.pages| ==>
      var pages := Renumber(RemoveAt(w.pages, index - 1));
      Became(DoDeletePage(w, index, stamp), pages,
             Reconcile(Order(pages), w.pages[index - 1].image, w.chapters).chapters)
  {
    hide Completed, Fits, RefitFrom, Numbered;
    PageAtNumbered(w.pages, index);
    if 1 <= index <= |w.pages| {
      var pages := Renumber(RemoveAt(w.pages, index - 1));
      RenumberNumbers(RemoveAt(w.pages, index - 1));
      OrderRemove(w.pages, index - 1);
      RemoveDistinct(Order(w.pages), index - 1);
      FinishCompletes(w, w.(pages := pages), KeptNames(Order(pages), w.pages[index - 1].image, w.chapters), stamp);
    }
  }

  lemma MovePageKeeps(w: Work, from: int, to: int, stamp: nat)
    requires EditorInvariant(w)
    ensures if 1 <= from <= |w.pages| && 1 <= to <= |w.pages| then Completed(w, DoMovePage(w, from, to, stamp), stamp)
            else DoMovePage(w, from, to, stamp) == Outcome(w, false)
    ensures 1 <= from <= |w.pages| && 1 <= to <= |w.pages| ==>
      var pages := Moved(w.pages, from, to);
      Became(DoMovePage(w, from, to, stamp), pages, Reconcile(Order(pages), "", w.chapters).chapters)
  {
    hide Completed;
    if 1 <= from <= |w.pages| && 1 <= to <= |w.pages| {
      var pages := Moved(w.pages, from, to);
      OrderMoved(w.pages, from, to);
      MovedNames(w.pages, from, to);
      FinishCompletes(w, w.(pages := pages), KeptNames(Order(pages), "", w.chapters), stamp);
    }
  }

  /** The requested order is accepted exactly when it names every page, and then it is a permutation of them. */
  lemma NewOrderPermutes(pages: seq<Page>, names: seq<Name>)
    requires Distinct(Order(pages)) && "" !in Order(pages)
    ensures var order := NewOrder(pages, names);
      && Distinct(order)
      && (|order| == |Names(Order(pages)) - {""}| <==> Names(Order(pages)) <= Names(names))
      && (Names(Order(pages)) <= Names(names) ==> Names(order) == Names(Order(pages)) && |order| == |pages|)
  {
    var known := Names(Order(pages)) - {""};
    assert known == Names(Order(pages));
    MentionsComplete(names, known);
    DistinctCount(Order(pages));
  }

  lemma ReorderKeeps(w: Work, names: seq<Name>, request: map<nat, seq<Name>>, stamp: nat)
    requires EditorInvariant(w)
    ensures if w.pages != [] && Names(Order(w.pages)) <= Names(names) then
              Completed(w, DoReorder(w, names, request, stamp), stamp)
            else DoReorder(w, names, request, stamp) == Outcome(w, false)
    ensures w.pages != [] && Names(Order(w.pages)) <= Names(names) ==>
      var order := NewOrder(w.pages, names);
      Became(DoReorder(w, names, request, stamp), Renumber(RowsNamed(w.pages, order)),
             RefitFrom(order, [], w.chapters, GalleryNames(order, w.chapters, request)).chapters)
  {
    hide Completed;
    NewOrderPermutes(w.pages, names);
    if w.pages != [] && Names(Order(w.pages)) <= Names(names) {
      var order := NewOrder(w.pages, names);
      var pages := Renumber(RowsNamed(w.pages, order));
      RenumberNumbers(RowsNamed(w.pages, order));
      OrderRowsNamed(w.pages, order);
      hide NewOrder, RowsNamed, Renumber;
      FinishCompletes(w, w.(pages := pages), GalleryNames(Order(pages), w.chapters, request), stamp);
    }
  }

  // ---- Replacing a page image

  /** Renaming one member keeps the list free of repeats if the new name is not another member. */
  lemma RemapDistinct(members: seq<Name>, old_: Name, new_: Name)
    requires Distinct(members) && (new_ == old_ || new_ !in members)
    ensures Distinct(Remap(members, old_, new_))
  {
  }

  lemma {:induction false} RemapCompletes(done: seq<Chapter>, todo: seq<Chapter>, old_: Name, new_: Name)
    requires forall c :: c in todo ==> Distinct(c.members) && (new_ == old_ || new_ !in c.members)
    ensures RemapFrom(done, todo, old_, new_) == Rebuilt(done + RemapAll(todo, old_, new_), true)
    decreases |todo|
  {
    if todo == [] {
      assert done + [] == done;
    } else {
      RemapDistinct(todo[0].members, old_, new_);
      var row := todo[0].(members := Remap(todo[0].members, old_, new_));
      RemapCompletes(done + [row], todo[1..], old_, new_);
      assert done + [row] + RemapAll(todo[1..], old_, new_) == done + RemapAll(todo, old_, new_);
    }
  }

  /** A chapter that fits still fits, in place, once the page and the member are renamed together. */
  lemma RemapFits(order: seq<Name>, k: nat, new_: Name, c: Chapter)
    requires k < |order| && Distinct(order) && Distinct(order[k := new_]) && Fits(order, c)
    ensures Fits(order[k := new_], c.(members := Remap(c.members, order[k], new_)))
  {
    var other := order[k := new_];
    var members := Remap(c.members, order[k], new_);
    forall i | 0 <= i < |members|
      ensures members[i] in other && IndexOf(other, members[i]) == IndexOf(order, c.members[i])
    {
      var p := IndexOf(order, c.members[i]);
      IndexOfUnique(order, k);
      assert other[p] == members[i];
      IndexOfUnique(other, p);
    }
  }

  lemma RemapAllFits(order: seq<Name>, k: nat, new_: Name, chapters: seq<Chapter>)
    requires k < |order| && Distinct(order) && new_ !in RemoveAt(order, k) && AllFit(order, chapters)
    ensures forall c :: c in chapters ==> Distinct(c.members) && (new_ == order[k] || new_ !in c.members)
    ensures AllFit(order[k := new_], RemapAll(chapters, order[k], new_))
  {
    DistinctUpdate(order, k, new_);
    RemoveDistinct(order, k);
    forall c | c in chapters
      ensures Distinct(c.members) && (new_ == order[k] || new_ !in c.members)
    {
      FollowsDistinct(order, c.members);
      assert forall n :: n in c.members ==> n in Names(order);
    }
    var remapped := RemapAll(chapters, order[k], new_);
    forall c | c in remapped ensures Fits(order[k := new_], c) {
      var i :| 0 <= i < |remapped| && remapped[i] == c;
      assert chapters[i] in chapters;
      RemapFits(order, k, new_, chapters[i]);
    }
  }

  /** The two chapter loops of a page replacement amount to renaming the image in every member list. */
  lemma ReplaceRefits(order: seq<Name>, k: nat, new_: Name, chapters: seq<Chapter>)
    requires k < |order| && Distinct(order) && new_ !in RemoveAt(order, k)
    requires AllFit(order, chapters) && ChaptersNumbered(chapters)
    ensures var renamed := RemapAll(chapters, order[k], new_);
      && RemapFrom([], chapters, order[k], new_) == Rebuilt(renamed, true)
      && Reconcile(order[k := new_], "", renamed) == Rebuilt(renamed, true)
  {
    var renamed := RemapAll(chapters, order[k], new_);
    RemapAllFits(order, k, new_, chapters);
    RemapCompletes([], chapters, order[k], new_);
    assert [] + renamed == renamed;
    DistinctUpdate(order, k, new_);
    ReconcileIdentity(order[k := new_], renamed);
  }

  lemma ReplacePageKeeps(w: Work, index: int, row: Page, suggested: string, stamp: nat)
    requires EditorInvariant(w) && row.image != ""
    requires 1 <= index <= |w.pages| ==> row.image !in RemoveAt(Order(w.pages), index - 1)
    ensures var o := DoReplacePage(w, index, row, suggested, stamp);
      if 1 <= index <= |w.pages| then
        && Completed(w, o, stamp)
        && o.work.pages == w.pages[index - 1 := row.(index := index)]
        && o.work.chapters == RemapAll(w.chapters, w.pages[index - 1].image, row.image)
      else o == Outcome(w, false)
  {
    hide Elevate, Fits, Completed;
    PageAtNumbered(w.pages, index);
    if 1 <= index <= |w.pages| {
      var k := index - 1;
      var order := Order(w.pages);
      var pages := Replaced(w.pages, index, row.(index := index));
      OrderReplaced(w.pages, index, row.(index := index));
      DistinctUpdate(order, k, row.image);
      ReplaceRefits(order, k, row.image, w.chapters);
      var chapters := RemapAll(w.chapters, order[k], row.image);
      var w1 := w.(pages := pages, chapters := chapters, rating := Elevate(w.rating, suggested));
      assert "" !in Order(pages);
      FinishCompletes(w, w1, KeptNames(Order(pages), "", chapters), stamp);
    }
  }

  // ---- Chapter rows

  /** A page range is an increasing run that spans exactly its own bounds. */
  lemma RangeFits(order: seq<Name>, c: Chapter)
    requires Distinct(order) && 1 <= c.start <= c.end <= |order| && c.members == order[c.start - 1..c.end]
    ensures Fits(order, c) && Distinct(c.members)
  {
    forall i | 0 <= i < |c.members| ensures c.members[i] in order && IndexOf(order, c.members[i]) == c.start - 1 + i {
      assert c.members[i] == order[c.start - 1 + i];
      IndexOfUnique(order, c.start - 1 + i);
    }
    hide IndexOf;
  }

  lemma SliceInRange(w: Work, title: string, start: int, end: int)
    requires EditorInvariant(w) && RangeOk(w, start, end)
    ensures var picked := Order(w.pages)[start - 1..end];
      Slice(Order(w.pages), start, end) == picked && Distinct(picked) && Distinct(Order(w.pages))
    ensures NextIndex(w.chapters) == |w.chapters| + 1
  {
  }

  lemma ChapterAppended(w: Work, row: Chapter)
    requires EditorInvariant(w) && row.id == w.nextChapterId && row.index == |w.chapters| + 1
    requires Fits(Order(w.pages), row) && Distinct(row.members)
    ensures EditorInvariant(w.(chapters := w.chapters + [row], nextChapterId := w.nextChapterId + 1))
  {
    hide Fits, Distinct;
    var chapters := w.chapters + [row];
    assert forall i :: 0 <= i < |w.chapters| ==> chapters[i] == w.chapters[i];
    assert chapters[|w.chapters|] == row;
    assert forall c :: c in chapters ==> c == row || c in w.chapters;
  }

  lemma AddChapterKeeps(w: Work, title: string, start: int, end: int, stamp: nat)
    requires EditorInvariant(w)
    ensures var o := DoAddChapter(w, title, start, end, stamp);
      if RangeOk(w, start, end) then
        && Completed(w, o, stamp)
        && var added := Chapter(w.nextChapterId, |w.chapters| + 1, title, start, end, Order(w.pages)[start - 1..end]);
           Became(o, w.pages, w.chapters + [added])
      else o == Outcome(w, false)
  {
    hide Fits, EditorInvariant, Slice, Distinct, Completed;
    if RangeOk(w, start, end) {
      var order := Order(w.pages);
      SliceInRange(w, title, start, end);
      var row := Chapter(w.nextChapterId, |w.chapters| + 1, title, start, end, order[start - 1..end]);
      RangeFits(order, row);
      ChapterAppended(w, row);
      SnapshotCompletes(w, w.(chapters := w.chapters + [row], nextChapterId := w.nextChapterId + 1), stamp);
    }
  }

  lemma ChapterPosFinds(chapters: seq<Chapter>, id: int)
    ensures ChapterPos(chapters, id) < |chapters| <==> exists c :: c in chapters && c.id == id
  {
  }

  lemma UpdateChapterKeeps(w: Work, id: int, title: string, start: int, end: int, stamp: nat)
    requires EditorInvariant(w)
    ensures var o := DoUpdateChapter(w, id, title, start, end, stamp);
      if RangeOk(w, start, end) && (exists c :: c in w.chapters && c.id == id) then
        && Completed(w, o, stamp) && o.work.pages == w.pages && |o.work.chapters| == |w.chapters|
        && forall i :: 0 <= i < |w.chapters| ==>
             var c := w.chapters[i];
             o.work.chapters[i] == if c.id != id then c
                                   else c.(title := title, start := start, end := end,
                                           members := Order(w.pages)[start - 1..end])
      else o == Outcome(w, false)
  {
    hide Fits, Completed;
    ChapterPosFinds(w.chapters, id);
    var k := ChapterPos(w.chapters, id);
    if RangeOk(w, start, end) && k < |w.chapters| {
      var order := Order(w.pages);
      var row := w.chapters[k].(title := title, start := start, end := end, members := order[start - 1..end]);
      RangeFits(order, row);
      var chapters := w.chapters[k := row];
      assert forall c :: c in chapters ==> c == row || c in w.chapters;
      SnapshotCompletes(w, w.(chapters := chapters), stamp);
    }
  }

  lemma RemovedIds(chapters: seq<Chapter>, k: nat, next: nat)
    requires k < |chapters| && IdsOk(chapters, next)
    ensures IdsOk(RemoveAt(chapters, k), next)
  {
    var rest := RemoveAt(chapters, k);
    assert forall i :: 0 <= i < |rest| ==> rest[i] == chapters[if i < k then i else i + 1];
  }

  lemma DeleteRowKeeps(order: seq<Name>, chapters: seq<Chapter>, k: nat, next: nat)
    requires k < |chapters| && IdsOk(chapters, next) && AllFit(order, chapters)
    ensures var r := DeleteRow(chapters, k);
      IdsOk(r, next) && ChaptersNumbered(r) && forall c :: c in r ==> Fits(order, c) && Distinct(c.members)
  {
    var rest := RemoveAt(chapters, k);
    forall c | c in rest ensures Fits(order, c) && Distinct(c.members) {
      assert c in chapters;
      FollowsDistinct(order, c.members);
    }
    RemovedIds(chapters, k, next);
    hide IdsOk, Fits, Distinct, RemoveAt;
    RenumberKeeps(order, rest, next);
  }

  lemma DeleteChapterKeeps(w: Work, id: int, stamp: nat)
    requires EditorInvariant(w)
    ensures var o := DoDeleteChapter(w, id, stamp);
      if exists c :: c in w.chapters && c.id == id then
        && Completed(w, o, stamp)
        && exists k :: 0 <= k < |w.chapters| && w.chapters[k].id == id
                       && Became(o, w.pages, RenumberChapters(RemoveAt(w.chapters, k)))
      else o == Outcome(w, false)
  {
    hide Completed;
    ChapterPosFinds(w.chapters, id);
    var k := ChapterPos(w.chapters, id);
    if k < |w.chapters| {
      DeleteRowKeeps(Order(w.pages), w.chapters, k, w.nextChapterId);
      SnapshotCompletes(w, w.(chapters := DeleteRow(w.chapters, k)), stamp);
    }
  }
}
