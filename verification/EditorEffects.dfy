/** What each editor action does to the rows of a work, column by column. */
module EditorEffects {
  import opened Wrappers
  import opened Text
  import opened Rating
  import opened PageOrder
  import opened WorkModel
  import opened Editor
  import opened Pages
  import opened Chapters
  import opened EditorProofs
  import opened CbzImport
  import opened EditorRuns
  import opened RepeatedNames

  /** The columns of a page row that travel with it. */
  predicate SameColumns(a: Page, b: Page) {
    a.image == b.image && a.thumb == b.thumb && a.width == b.width && a.height == b.height
  }

  predicate OwnedAction(a: Action) {
    !a.EditMetadata? && !a.ImportCbz?
  }

  /** Whoever is not the owner of a work that has one changes nothing of it, except by metadata and by imports. */
  lemma OwnerOnly(w: Work, actor: string, a: Action, stamp: nat)
    requires OwnedAction(a) && w.owner.Some? && w.owner.value != "" && w.owner.value != actor
    ensures Step(w, actor, a, stamp) == Outcome(w, false)
  {
    hide Owned;
  }

  lemma ReorderOwner(w: Work, names: seq<Name>, request: map<nat, seq<Name>>, stamp: nat)
    ensures DoReorder(w, names, request, stamp).work.owner == w.owner
  {
    hide RefitFrom, Renumber, NewOrder, RowsNamed, GalleryNames;
  }

  /** Only a page or an import gives a work an owner, and only one that has none. */
  lemma OwnerEffect(w: Work, actor: string, a: Action, stamp: nat)
    ensures var owner := Step(w, actor, a, stamp).work.owner;
      && (w.owner.Some? ==> owner == w.owner)
      && (w.owner.None? && a.AddPage? ==> owner == Some(actor))
      && (w.owner.None? && a.ImportCbz? && |a.rows| == |a.directories| && a.rows != [] ==> owner == a.uploader)
      && (w.owner.None? && !a.AddPage? && !a.ImportCbz? ==> owner == None)
  {
    hide Reconcile, RemapFrom, RefitFrom, Renumber, Replaced, Without, Moved, InsertAt, PageRating, Elevate, NewOrder,
         RowsNamed, GalleryNames, ImportFrom, Grouped, ImportRating, AddRow, DeleteRow, Distinct, LocksDemotion,
           Resolve;
    if a.Reorder? {
      ReorderOwner(w, a.names, a.request, stamp);
      hide DoReorder;
    }
  }

  /** The owner of a work, and anyone where it has none, gets each action done as asked. */
  lemma OwnedStep(w: Work, actor: string, a: Action, stamp: nat)
    requires w.owner == None || w.owner == Some("") || w.owner == Some(actor)
    ensures match a
      case AddPage(row, after, handed, suggested) =>
        Step(w, actor, a, stamp)
        == DoAddPage(if w.owner == None then w.(owner := Some(actor)) else w, row, after, handed, suggested, stamp)
      case ReplacePage(index, row, suggested) =>
        Step(w, actor, a, stamp) == DoReplacePage(w, index, row, suggested, stamp)
      case DeletePage(index) => Step(w, actor, a, stamp) == DoDeletePage(w, index, stamp)
      case MovePage(from, to) => Step(w, actor, a, stamp) == DoMovePage(w, from, to, stamp)
      case Reorder(names, request) => Step(w, actor, a, stamp) == DoReorder(w, names, request, stamp)
      case AddChapter(title, start, end) => Step(w, actor, a, stamp) == DoAddChapter(w, title, start, end, stamp)
      case UpdateChapter(id, title, start, end) =>
        Step(w, actor, a, stamp) == DoUpdateChapter(w, id, title, start, end, stamp)
      case DeleteChapter(id) => Step(w, actor, a, stamp) == DoDeleteChapter(w, id, stamp)
      case _ => true
  {
    hide DoAddPage, DoReplacePage, DoDeletePage, DoMovePage, DoReorder, DoAddChapter, DoUpdateChapter, DoDeleteChapter;
  }

  // ---- The page rows

  /** A page goes right after the one named, or last where that names none; the others keep their columns. */
  lemma AddPageEffect(w: Work, row: Page, after: int, handed: string, suggested: string, stamp: nat)
    ensures var n, pages := |w.pages|, DoAddPage(w, row, after, handed, suggested, stamp).work.pages;
      var k := if 1 <= after <= n then after else n;
      && |pages| == n + 1 && (forall i :: 0 <= i <= n ==> pages[i].index == i + 1)
      && (forall i :: 0 <= i < k ==> SameColumns(pages[i], w.pages[i]))
      && SameColumns(pages[k], row)
      && (forall i :: k < i <= n ==> SameColumns(pages[i], w.pages[i - 1]))
    ensures var n, order := |w.pages|, Order(DoAddPage(w, row, after, handed, suggested, stamp).work.pages);
      order == if 1 <= after <= n then Order(w.pages)[..after] + [row.image] + Order(w.pages)[after..]
               else Order(w.pages) + [row.image]
  {
    hide DoAddPage;
    AddedPages(w, row, after, handed, suggested, stamp);
  }

  lemma DeletedPages(w: Work, index: int, stamp: nat)
    requires Numbered(w.pages)
    ensures DoDeletePage(w, index, stamp).work.pages
      == if 1 <= index <= |w.pages| then Renumber(RemoveAt(w.pages, index - 1)) else w.pages
  {
    PageAtNumbered(w.pages, index);
    hide Reconcile, Renumber, RemoveAt, Without, PageAt, Numbered;
  }

  lemma RemovedRows(pages: seq<Page>, k: nat)
    requires k < |pages|
    ensures var left := Renumber(RemoveAt(pages, k));
      && |left| == |pages| - 1 && (forall i :: 0 <= i < |left| ==> left[i].index == i + 1)
      && forall i :: 0 <= i < |left| ==> SameColumns(left[i], pages[if i < k then i else i + 1])
  {
  }

  lemma RemovedOrder(pages: seq<Page>, k: nat)
    requires k < |pages|
    ensures Order(Renumber(RemoveAt(pages, k))) == Order(pages)[..k] + Order(pages)[k + 1..]
  {
    RenumberNumbers(RemoveAt(pages, k));
    hide Renumber;
  }

  /** The page at the index goes, and the later ones move up one. */
  lemma DeletePageEffect(w: Work, index: int, stamp: nat)
    requires Numbered(w.pages) && 1 <= index <= |w.pages|
    ensures var pages := DoDeletePage(w, index, stamp).work.pages;
      && |pages| == |w.pages| - 1 && (forall i :: 0 <= i < |pages| ==> pages[i].index == i + 1)
      && (forall i :: 0 <= i < |pages| ==> SameColumns(pages[i], w.pages[if i < index - 1 then i else i + 1]))
      && Order(pages) == Order(w.pages)[..index - 1] + Order(w.pages)[index..]
  {
    DeletedPages(w, index, stamp);
    hide *;
    RemovedRows(w.pages, index - 1);
    RemovedOrder(w.pages, index - 1);
  }

  lemma MovedPages(w: Work, from: int, to: int, stamp: nat)
    requires 1 <= from <= |w.pages| && 1 <= to <= |w.pages|
    ensures DoMovePage(w, from, to, stamp).work.pages == Moved(w.pages, from, to)
  {
    hide Reconcile, Moved;
  }

  /** The page at `from` ends at `to`, and those in between move one place the other way. */
  lemma MovePageEffect(w: Work, from: int, to: int, stamp: nat)
    requires 1 <= from <= |w.pages| && 1 <= to <= |w.pages|
    ensures var pages := DoMovePage(w, from, to, stamp).work.pages;
      && |pages| == |w.pages| && (forall i :: 0 <= i < |pages| ==> pages[i].index == i + 1)
      && (forall i :: 0 <= i < |pages| ==>
            var was := if i == to - 1 then from - 1
                       else if from <= i + 1 < to then i + 1
                       else if to <= i < from then i - 1
                       else i;
            SameColumns(pages[i], w.pages[was]))
  {
    hide DoMovePage;
    MovedPages(w, from, to, stamp);
  }

  lemma ReplacedRows(w: Work, index: int, row: Page, suggested: string, stamp: nat)
    requires Numbered(w.pages) && 1 <= index <= |w.pages|
    ensures DoReplacePage(w, index, row, suggested, stamp).work.pages == w.pages[index - 1 := row.(index := index)]
  {
    PageAtNumbered(w.pages, index);
    OrderReplaced(w.pages, index, row.(index := index));
    hide Reconcile, RemapFrom, Elevate, Replaced, PageAt;
  }

  /** The page at the index gets the new columns, and no other page changes. */
  lemma ReplacePageEffect(w: Work, index: int, row: Page, suggested: string, stamp: nat)
    requires Numbered(w.pages) && 1 <= index <= |w.pages|
    ensures var pages := DoReplacePage(w, index, row, suggested, stamp).work.pages;
      && |pages| == |w.pages| && SameColumns(pages[index - 1], row) && pages[index - 1].index == index
      && (forall i :: 0 <= i < |pages| && i != index - 1 ==> pages[i] == w.pages[i])
  {
    hide DoReplacePage;
    ReplacedRows(w, index, row, suggested, stamp);
  }

  /** The row has the columns of the last page with the filename, as later rows of one name replace earlier ones. */
  ghost predicate FromLast(row: Page, pages: seq<Page>, n: Name) {
    exists k :: 0 <= k < |pages| && pages[k].image == n && n !in Order(pages)[k + 1..] && SameColumns(row, pages[k])
  }

  lemma FromLastLonger(row: Page, pages: seq<Page>, n: Name)
    requires pages != [] && pages[|pages| - 1].image != n && FromLast(row, pages[..|pages| - 1], n)
    ensures FromLast(row, pages, n)
  {
    hide SameColumns;
    var last := |pages| - 1;
    var front := pages[..last];
    assert Order(pages)[..last] == Order(front);
    var k :| 0 <= k < last && front[k].image == n && n !in Order(front)[k + 1..] && SameColumns(row, front[k]);
    assert Order(pages)[k + 1..] == Order(front)[k + 1..] + [pages[last].image];
    assert pages[k] == front[k];
  }

  lemma {:induction false} RowNamedIsLast(pages: seq<Page>, n: Name)
    requires n in Order(pages)
    ensures FromLast(RowNamed(pages, n), pages, n)
    decreases |pages|
  {
    var last := |pages| - 1;
    if pages[last].image == n {
      assert Order(pages)[last + 1..] == [];
    } else {
      assert Order(pages)[..last] == Order(pages[..last]);
      RowNamedIsLast(pages[..last], n);
      hide FromLast, SameColumns;
      FromLastLonger(RowNamed(pages, n), pages, n);
    }
  }

  lemma ReorderedPages(w: Work, names: seq<Name>, request: map<nat, seq<Name>>, stamp: nat)
    requires w.pages != [] && Names(Order(w.pages)) - {""} <= Names(names)
    ensures DoReorder(w, names, request, stamp).work.pages == Renumber(RowsNamed(w.pages, NewOrder(w.pages, names)))
    ensures Names(NewOrder(w.pages, names)) == Names(Order(w.pages)) - {""}
    ensures Follows(names, NewOrder(w.pages, names))
  {
    var known := Names(Order(w.pages)) - {""};
    MentionsComplete(names, known);
    MentionsInOrder(names, known, {});
    hide RefitFrom, Renumber, RowsNamed, FirstMentions, GalleryNames, Distinct, Follows;
  }

  lemma FromLastIndex(row: Page, index: nat, pages: seq<Page>, n: Name)
    requires FromLast(row, pages, n)
    ensures FromLast(row.(index := index), pages, n)
  {
    hide Order;
    var k :| 0 <= k < |pages| && pages[k].image == n && n !in Order(pages)[k + 1..] && SameColumns(row, pages[k]);
  }

  lemma RowsNamedLast(pages: seq<Page>, wanted: seq<Name>)
    requires forall n :: n in wanted ==> n in Order(pages)
    ensures var rows := Renumber(RowsNamed(pages, wanted));
      forall i :: 0 <= i < |wanted| ==> rows[i].index == i + 1 && FromLast(rows[i], pages, wanted[i])
  {
    hide FromLast, Order, RowNamed;
    var rows := Renumber(RowsNamed(pages, wanted));
    forall i | 0 <= i < |wanted| ensures FromLast(rows[i], pages, wanted[i]) {
      assert wanted[i] in wanted;
      RowNamedIsLast(pages, wanted[i]);
      FromLastIndex(RowNamed(pages, wanted[i]), i + 1, pages, wanted[i]);
    }
  }

  /**
   The pages come in the order in which the request first mentions their filenames, one page of each filename, with
   the columns of the last page that had it.
  */
  lemma ReorderEffect(w: Work, names: seq<Name>, request: map<nat, seq<Name>>, stamp: nat)
    requires w.pages != [] && Names(Order(w.pages)) - {""} <= Names(names)
    ensures var pages := DoReorder(w, names, request, stamp).work.pages;
      && Follows(names, Order(pages)) && Names(Order(pages)) == Names(Order(w.pages)) - {""}
      && (forall i :: 0 <= i < |pages| ==> pages[i].index == i + 1 && FromLast(pages[i], w.pages, pages[i].image))
  {
    hide DoReorder, NewOrder, FromLast, RowsNamed, Renumber, Follows, Names, SameColumns;
    var wanted := NewOrder(w.pages, names);
    ReorderedPages(w, names, request, stamp);
    OrderRowsNamed(w.pages, wanted);
    RenumberNumbers(RowsNamed(w.pages, wanted));
    RowsNamedLast(w.pages, wanted);
    var pages := DoReorder(w, names, request, stamp).work.pages;
    assert forall i :: 0 <= i < |pages| ==> Order(pages)[i] == pages[i].image;
  }

  // ---- The chapter rows

  /** The same chapters, in the same order, with the same pages each. */
  ghost predicate SamePages(a: seq<Chapter>, b: seq<Chapter>) {
    |a| == |b| && forall i :: 0 <= i < |a| ==>
      b[i].id == a[i].id && b[i].index == a[i].index && b[i].title == a[i].title
      && Names(b[i].members) == Names(a[i].members)
  }

  lemma CarriedSamePages(order: seq<Name>, other: seq<Name>, chapters: seq<Chapter>)
    requires Distinct(order) && Distinct(other) && AllFit(order, chapters) && Names(order) <= Names(other)
    ensures SamePages(chapters, Carried(other, chapters))
  {
    hide Distinct, Names, Fits, Fit;
    forall i | 0 <= i < |chapters|
      ensures var m := Carried(other, chapters)[i];
        m.id == chapters[i].id && m.index == chapters[i].index && m.title == chapters[i].title
        && Names(m.members) == Names(chapters[i].members)
    {
      assert chapters[i] in chapters;
      CarriedRow(order, other, chapters[i]);
      FitFits(other, chapters[i], Names(chapters[i].members));
    }
  }

  /** A page that is added goes into no chapter. */
  lemma AddPageChapters(w: Work, row: Page, after: int, handed: string, suggested: string, stamp: nat)
    requires EditorInvariant(w) && row.image != "" && row.image !in Order(w.pages)
    ensures SamePages(w.chapters, DoAddPage(w, row, after, handed, suggested, stamp).work.chapters)
  {
    AddPageBecomes(w, row, after, handed, suggested, stamp);
    AddOrder(w.pages, InsertPosition(|w.pages|, after), row);
    var other := Order(Renumber(InsertAt(w.pages, InsertPosition(|w.pages|, after), row)));
    hide DoAddPage, Renumber, InsertAt, Reconcile, Carried, SamePages, Fits, Order;
    ReconcileThere(Order(w.pages), other, w.chapters);
    CarriedSamePages(Order(w.pages), other, w.chapters);
  }

  lemma MovePageChapters(w: Work, from: int, to: int, stamp: nat)
    requires EditorInvariant(w) && 1 <= from <= |w.pages| && 1 <= to <= |w.pages|
    ensures SamePages(w.chapters, DoMovePage(w, from, to, stamp).work.chapters)
  {
    MovePageKeeps(w, from, to, stamp);
    MovedNames(w.pages, from, to);
    var other := Order(Moved(w.pages, from, to));
    hide DoMovePage, Moved, Reconcile, Carried, SamePages, Fits, Order;
    ReconcileThere(Order(w.pages), other, w.chapters);
    CarriedSamePages(Order(w.pages), other, w.chapters);
  }

  /** The new filename takes the place of the old one in every member list, and nothing else of a chapter changes. */
  lemma ReplacePageChapters(w: Work, index: int, row: Page, suggested: string, stamp: nat)
    requires EditorInvariant(w) && row.image != "" && 1 <= index <= |w.pages|
    requires row.image !in RemoveAt(Order(w.pages), index - 1)
    ensures var chapters := DoReplacePage(w, index, row, suggested, stamp).work.chapters;
      |chapters| == |w.chapters| && forall i :: 0 <= i < |chapters| ==>
        var a, b := w.chapters[i], chapters[i];
        && b.id == a.id && b.index == a.index && b.title == a.title && b.start == a.start && b.end == a.end
        && |b.members| == |a.members|
        && (forall j :: 0 <= j < |a.members| ==>
              b.members[j] == if a.members[j] == w.pages[index - 1].image then row.image else a.members[j])
  {
    hide DoReplacePage, Fits;
    ReplacePageKeeps(w, index, row, suggested, stamp);
  }

  /** A chapter is appended that has the pages of the range. */
  lemma AddChapterEffect(w: Work, title: string, start: int, end: int, stamp: nat)
    requires EditorInvariant(w) && 1 <= start <= end <= |w.pages|
    ensures var o := DoAddChapter(w, title, start, end, stamp).work;
      && o.pages == w.pages && |o.chapters| == |w.chapters| + 1 && o.chapters[..|w.chapters|] == w.chapters
      && var c := o.chapters[|w.chapters|];
         && c.title == title && c.start == start && c.end == end && c.index == |w.chapters| + 1
         && c.members == Order(w.pages)[start - 1..end] && forall d :: d in w.chapters ==> d.id != c.id
  {
    hide DoAddChapter, Fits;
    AddChapterKeeps(w, title, start, end, stamp);
  }

  lemma ChapterGone(chapters: seq<Chapter>, k: nat)
    requires k < |chapters| && ChaptersNumbered(chapters)
    ensures var r := RenumberChapters(RemoveAt(chapters, k));
      && |r| == |chapters| - 1 && r[..k] == chapters[..k]
      && forall i :: k <= i < |r| ==> r[i] == chapters[i + 1].(index := i + 1)
  {
  }

  /** The chapter with the id goes, and the later ones move up one index. */
  lemma DeleteChapterEffect(w: Work, id: int, stamp: nat)
    requires EditorInvariant(w) && exists c :: c in w.chapters && c.id == id
    ensures var chapters := DoDeleteChapter(w, id, stamp).work.chapters;
      exists k :: 0 <= k < |w.chapters| && w.chapters[k].id == id && |chapters| == |w.chapters| - 1
                  && chapters[..k] == w.chapters[..k]
                  && forall i :: k <= i < |chapters| ==> chapters[i] == w.chapters[i + 1].(index := i + 1)
  {
    DeleteChapterKeeps(w, id, stamp);
    hide DoDeleteChapter, EditorInvariant, RenumberChapters, RemoveAt, Completed;
    var k :| 0 <= k < |w.chapters| && w.chapters[k].id == id
             && Became(DoDeleteChapter(w, id, stamp), w.pages, RenumberChapters(RemoveAt(w.chapters, k)));
    InvariantTables(w);
    ChapterGone(w.chapters, k);
  }

  /** The pages a chapter without members stands for: its range, each end moved to the nearest page there is. */
  lemma SeedMeans(order: seq<Name>, c: Chapter) returns (first: nat, last: nat)
    ensures order == [] ==> Seed(order, c) == []
    ensures order != [] ==> 1 <= first <= last <= |order| && Seed(order, c) == order[first - 1..last]
    ensures 1 <= c.start <= |order| ==> first == c.start
    ensures order != [] && c.start < 1 ==> first == 1
    ensures order != [] && |order| < c.start ==> first == |order|
    ensures order != [] && first <= c.end <= |order| ==> last == c.end
    ensures order != [] && c.end < first ==> last == first
    ensures order != [] && |order| < c.end ==> last == |order|
  {
    first, last := 0, 0;
    if order != [] {
      first := Max(1, Min(c.start, |order|));
      last := Max(first, Min(c.end, |order|));
    }
  }

  /** A chapter without members gets the pages of its range at the next change of pages. */
  lemma SeededFits(order: seq<Name>, removed: Name, c: Chapter)
    requires c.members == []
    ensures forall n :: n in Kept(order, removed, c) <==> n in Seed(order, c) && (removed == "" || n != removed)
  {
  }

  // ---- Metadata

  lemma ResolveReads(raw: string)
    ensures IsExplicit(Resolve(raw)) <==> IsExplicit(raw)
  {
    StripIdempotent(raw);
    hide Strip;
    if Strip(raw) == "" {
      StripKeeps("Not Rated");
      assert Lower("Not Rated")[0] != "explicit"[0];
    }
  }

  /** An edit that passes the lock stores the rating without its surrounding blanks, and changes nothing else. */
  lemma EditMetadataEffect(w: Work, isAdmin: bool, raw: string, stamp: nat)
    ensures var o := DoEditMetadata(w, isAdmin, raw, stamp);
      var was, asked := Lower(Strip(w.rating)), Lower(Strip(raw));
      if !isAdmin && ((was == "explicit" && asked != "explicit")
                      || (asked == "explicit" && was != "mature" && was != "explicit"))
      then o == Outcome(w, false)
      else
        && o.work.(versions := w.versions, rating := w.rating) == w
        && o.work.rating == if Strip(raw) == "" then "Not Rated" else Strip(raw)
  {
    ResolveReads(raw);
    hide Lower, Strip;
  }

  // ---- Importing an archive

  /** The pages are the rows of the archive in order, numbered, under the rating of the import. */
  lemma ImportEffect(w: Work, rows: seq<Page>, directories: seq<string>, rating: string, stamp: nat)
    requires |rows| == |directories|
    ensures var o := DoImport(w, rows, directories, rating, stamp).work;
      && |o.pages| == |rows| == o.pageCount && o.rating == rating
      && forall i :: 0 <= i < |rows| ==> o.pages[i].index == i + 1 && SameColumns(o.pages[i], rows[i])
  {
    hide ImportFrom, Grouped;
  }

  lemma {:induction false} PagesOfMeans(directories: seq<string>, names: seq<Name>, directory: string, n: Name)
    requires |directories| == |names|
    ensures n in PagesOf(directories, names, directory)
      <==> n != "" && exists k :: 0 <= k < |names| && names[k] == n && directories[k] == directory
    decreases |names|
  {
    if names != [] {
      var last := |names| - 1;
      PagesOfMeans(directories[..last], names[..last], directory, n);
      assert forall k :: 0 <= k < last ==> names[..last][k] == names[k] && directories[..last][k] == directories[k];
    }
  }

  /** The slashes around a directory are no part of a title. */
  lemma {:induction false} TrimmedPart(s: string) returns (i: nat, j: nat)
    ensures i <= j <= |s| && TrimSlashes(s) == s[i..j]
    ensures (forall k :: 0 <= k < i || j <= k < |s| ==> s[k] == '/')
    ensures i < j ==> s[i] != '/' && s[j - 1] != '/'
    decreases |s|
  {
    if s != [] && s[0] == '/' {
      var p, q := TrimmedPart(s[1..]);
      i, j := p + 1, q + 1;
      assert s[1..][p..q] == s[i..j] && forall k :: 0 <= k < |s| - 1 ==> s[1..][k] == s[k + 1];
      if p == q {
        assert forall k :: 0 <= k < |s| - 1 ==> s[1..][k] == '/';
      }
    } else if s != [] && s[|s| - 1] == '/' {
      i, j := TrimmedPart(s[..|s| - 1]);
      assert s[..|s| - 1][i..j] == s[i..j] && forall k :: 0 <= k < |s| - 1 ==> s[..|s| - 1][k] == s[k];
    } else {
      i, j := 0, |s|;
    }
  }

  /** A chapter is called after its directory, less blanks and slashes around it. */
  lemma TitleMeans(directory: string) returns (i: nat, j: nat)
    ensures var s := Strip(directory);
      && i <= j <= |s| && (forall k :: 0 <= k < i || j <= k < |s| ==> s[k] == '/')
      && (i < j ==> s[i] != '/' && s[j - 1] != '/')
      && DirectoryTitle(directory) == if i == j then "Untitled Chapter" else s[i..j]
  {
    hide Strip;
    i, j := TrimmedPart(Strip(directory));
  }

  // ---- The order of the chapters of an import

  ghost predicate StartsRise(order: seq<Name>, groups: seq<(string, seq<Name>)>) {
    && (forall i :: 0 <= i < |groups| ==> groups[i].1 != [] && groups[i].1[0] in order)
    && (forall i, j :: 0 <= i < j < |groups| ==> IndexOf(order, groups[i].1[0]) < IndexOf(order, groups[j].1[0]))
  }

  lemma {:induction false} FileStarts(groups: seq<(string, seq<Name>)>, directory: string, n: Name)
    requires forall i :: 0 <= i < |groups| ==> groups[i].1 != []
    ensures var filed := File(groups, directory, n);
      && |groups| <= |filed| <= |groups| + 1
      && (forall i :: 0 <= i < |groups| ==> filed[i].1 != [] && filed[i].1[0] == groups[i].1[0])
      && (|filed| > |groups| ==> filed[|groups|].1 == [n])
  {
    if groups != [] && groups[0].0 != directory {
      FileStarts(groups[1..], directory, n);
      assert forall i :: 0 < i < |groups| ==> groups[i] == groups[1..][i - 1];
    }
  }

  lemma FileRises(order: seq<Name>, limit: nat, groups: seq<(string, seq<Name>)>, directory: string)
    requires limit < |order| && Distinct(order) && Runs(order, limit, groups) && StartsRise(order, groups)
    ensures StartsRise(order, File(groups, directory, order[limit]))
  {
    FileStarts(groups, directory, order[limit]);
    IndexOfUnique(order, limit);
    forall i | 0 <= i < |groups| ensures IndexOf(order, groups[i].1[0]) < limit {
      assert RunOf(order, limit, groups[i].1) && groups[i].1[0] in order[..limit];
      var p :| 0 <= p < limit && order[..limit][p] == groups[i].1[0];
      IndexOfUnique(order, p);
    }
    hide Runs, File, Distinct, IndexOf;
  }

  lemma {:induction false} GroupedRise(directories: seq<string>, order: seq<Name>, limit: nat)
    requires |directories| == |order| && limit <= |order| && Distinct(order)
    ensures StartsRise(order, Grouped(directories[..limit], order[..limit]))
    decreases limit
  {
    if limit > 0 {
      var last := limit - 1;
      GroupedRise(directories, order, last);
      GroupedRuns(directories, order, last);
      assert directories[..limit][..last] == directories[..last] && order[..limit][..last] == order[..last];
      hide Runs, StartsRise, File, Distinct;
      FileRises(order, last, Grouped(directories[..last], order[..last]), directories[last]);
    }
  }

  lemma FitsStart(order: seq<Name>, c: Chapter)
    requires Fits(order, c)
    ensures c.members != [] && c.members[0] in order && c.start == IndexOf(order, c.members[0]) + 1
  {
  }

  /** The chapters of an import come in the order of their first pages. */
  lemma ImportedInOrder(w: Work, rows: seq<Page>, directories: seq<string>, rating: string)
    requires TablesOk(w) && |rows| == |directories| && Distinct(Order(rows)) && "" !in Order(rows)
    ensures var chapters := ImportedTables(w, rows, directories, rating).chapters;
      forall i, j :: 0 <= i < j < |chapters| ==> chapters[i].start < chapters[j].start
  {
    var order := Order(rows);
    assert directories[..|order|] == directories && order[..|order|] == order;
    GroupedRise(directories, order, |order|);
    hide Fits, Follows, DirectoryTitle, EditorInvariant, ImportedTables, Grouped, Distinct, IndexOf, TablesOk;
    ImportedTablesFit(w, rows, directories, rating);
    var groups := Grouped(directories, order);
    var chapters := ImportedTables(w, rows, directories, rating).chapters;
    forall i | 0 <= i < |chapters|
      ensures groups[i].1[0] in order && chapters[i].start == IndexOf(order, groups[i].1[0]) + 1
    {
      assert MadeFrom(order, chapters[i], groups[i]);
      FitsStart(order, chapters[i]);
    }
  }
}
