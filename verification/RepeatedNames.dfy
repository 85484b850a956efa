/**
 Filenames are content-addressed, so a picture that is in a work twice gives two pages one name. What each
 action that brings in files then does, exactly.
*/
module RepeatedNames {
  import opened Wrappers
  import opened Rating
  import opened PageOrder
  import opened WorkModel
  import opened Editor
  import opened Pages
  import opened Chapters
  import opened EditorProofs
  import opened EditorRuns

  // ---- The page rows are written whatever comes after

  lemma AddedPages(w: Work, row: Page, after: int, handed: string, suggested: string, stamp: nat)
    ensures DoAddPage(w, row, after, handed, suggested, stamp).work.pages
         == Renumber(InsertAt(w.pages, InsertPosition(|w.pages|, after), row))
  {
    hide Reconcile, Renumber, PageRating;
  }

  lemma ReplacedPages(w: Work, index: int, row: Page, suggested: string, stamp: nat)
    requires Numbered(w.pages) && 1 <= index <= |w.pages|
    ensures Order(DoReplacePage(w, index, row, suggested, stamp).work.pages) == Order(w.pages)[index - 1 := row.image]
  {
    PageAtNumbered(w.pages, index);
    OrderReplaced(w.pages, index, row.(index := index));
    hide Reconcile, RemapFrom, Elevate;
  }

  lemma ImportedPages(w: Work, rows: seq<Page>, directories: seq<string>, rating: string, stamp: nat)
    requires |rows| == |directories|
    ensures Order(DoImport(w, rows, directories, rating, stamp).work.pages) == Order(rows)
  {
    RenumberNumbers(rows);
    hide ImportFrom, Grouped, Renumber;
  }

  // ---- Adding a page

  lemma {:induction false} SelectConcat(a: seq<Name>, b: seq<Name>, keep: set<Name>)
    ensures Select(a + b, keep) == Select(a, keep) + Select(b, keep)
  {
    if a == [] {
      assert [] + b == b;
    } else {
      assert (a + b)[1..] == a[1..] + b;
      SelectConcat(a[1..], b, keep);
    }
  }

  lemma SelectOne(n: Name, keep: set<Name>)
    ensures Select([n], keep) == if n in keep then [n] else []
  {
    assert [n][1..] == [];
  }

  lemma SelectKept(order: seq<Name>, n: Name, keep: set<Name>)
    requires Distinct(order) && n in order
    ensures Distinct(Select(order, keep)) && (n in Select(order, keep) <==> n in keep)
  {
    SelectFollows(order, keep);
    FollowsDistinct(order, Select(order, keep));
    hide Distinct, Follows;
  }

  /** Once a filename is on two pages, a chapter can be written back exactly if it does not hold that filename. */
  lemma SelectRepeated(order: seq<Name>, k: nat, n: Name, keep: set<Name>)
    requires Distinct(order) && n in order && k <= |order|
    ensures Distinct(Select(InsertAt(order, k, n), keep)) <==> n !in keep
  {
    hide Select, Distinct;
    SelectKept(order, n, keep);
    var a, b := order[..k], order[k..];
    var sa, sb := Select(a, keep), Select(b, keep);
    assert order == a + b && InsertAt(order, k, n) == a + ([n] + b);
    SelectConcat(a, b, keep);
    SelectConcat(a, [n] + b, keep);
    SelectConcat([n], b, keep);
    SelectOne(n, keep);
    if n in keep {
      DistinctInsert(sa + sb, |sa|, n);
      assert InsertAt(sa + sb, |sa|, n) == sa + ([n] + sb);
    } else {
      assert sa + ([] + sb) == sa + sb;
    }
  }

  lemma KeptMembers(order: seq<Name>, c: Chapter)
    requires c.members != []
    ensures Kept(order, "", c) == Names(c.members)
  {
  }

  /** Reconciling to a page order with one name twice goes through exactly if no chapter holds that name. */
  lemma RepeatedRefits(order: seq<Name>, k: nat, n: Name, chapters: seq<Chapter>)
    requires Distinct(order) && n in order && k <= |order| && forall c :: c in chapters ==> c.members != []
    ensures Reconcile(InsertAt(order, k, n), "", chapters).ok <==> forall c :: c in chapters ==> n !in c.members
  {
    hide Distinct, RefitFrom, Select, InsertAt, Kept;
    var other := InsertAt(order, k, n);
    var names := KeptNames(other, "", chapters);
    RefitStopsIff(other, [], chapters, names);
    forall i | 0 <= i < |chapters| ensures Distinct(Select(other, names[i])) <==> n !in chapters[i].members {
      assert chapters[i] in chapters;
      SelectRepeated(order, k, n, names[i]);
      KeptMembers(other, chapters[i]);
    }
  }

  lemma AddSaves(w: Work, row: Page, after: int, handed: string, suggested: string, stamp: nat)
    requires stamp !in w.versions
    ensures var o := DoAddPage(w, row, after, handed, suggested, stamp);
      && (o.ok <==> Reconcile(Order(o.work.pages), "", w.chapters).ok)
      && (!o.ok ==> o.work.versions == w.versions)
  {
    hide PageRating, Reconcile, Renumber, InsertAt;
  }

  /**
   Adding an image whose content-addressed filename is already on a page always breaks the invariant, and the
   action is cut short exactly when some chapter holds that page: the pages are rewritten, but no snapshot is taken.
  */
  lemma RepeatedNameStops(w: Work, row: Page, after: int, handed: string, suggested: string, stamp: nat)
    requires EditorInvariant(w) && row.image in Order(w.pages) && stamp !in w.versions
    ensures var o := DoAddPage(w, row, after, handed, suggested, stamp);
      && !EditorInvariant(o.work)
      && (o.ok <==> forall c :: c in w.chapters ==> row.image !in c.members)
      && (!o.ok ==> o.work.versions == w.versions && |o.work.pages| == |w.pages| + 1)
  {
    hide DoAddPage, Reconcile, Renumber, Numbered, Distinct, Follows, ChaptersNumbered, IdsOk, Order;
    var k := InsertPosition(|w.pages|, after);
    AddedPages(w, row, after, handed, suggested, stamp);
    AddSaves(w, row, after, handed, suggested, stamp);
    RenumberNumbers(InsertAt(w.pages, k, row));
    OrderInsert(w.pages, k, row);
    DistinctInsert(Order(w.pages), k, row.image);
    RepeatedRefits(Order(w.pages), k, row.image, w.chapters);
  }

  // ---- Replacing a page

  /** The rewrite of one member list goes through. */
  predicate Renameable(members: seq<Name>, old_: Name, new_: Name) {
    Remap(members, old_, new_) == members || Distinct(Remap(members, old_, new_))
  }

  lemma {:induction false} RemapStopsIff(done: seq<Chapter>, todo: seq<Chapter>, old_: Name, new_: Name)
    ensures var r := RemapFrom(done, todo, old_, new_);
      && (r.ok <==> forall i :: 0 <= i < |todo| ==> Renameable(todo[i].members, old_, new_))
      && (r.ok ==> r.chapters == done + RemapAll(todo, old_, new_))
    decreases |todo|
  {
    if todo == [] {
      assert done + [] == done;
    } else {
      var row := todo[0].(members := Remap(todo[0].members, old_, new_));
      if Renameable(todo[0].members, old_, new_) {
        RemapStopsIff(done + [row], todo[1..], old_, new_);
        assert done + [row] + RemapAll(todo[1..], old_, new_) == done + RemapAll(todo, old_, new_);
        assert forall i :: 0 <= i < |todo[1..]| ==> todo[1..][i] == todo[i + 1];
      }
    }
  }

  lemma RenameableIff(members: seq<Name>, old_: Name, new_: Name)
    requires Distinct(members) && old_ != new_
    ensures Renameable(members, old_, new_) <==> !(old_ in members && new_ in members)
  {
    var after := Remap(members, old_, new_);
    if old_ !in members {
      assert after == members;
    } else if new_ !in members {
      RemapDistinct(members, old_, new_);
    } else {
      var i :| 0 <= i < |members| && members[i] == old_;
      var j :| 0 <= j < |members| && members[j] == new_;
      assert after[i] == new_ == after[j] && after[i] != members[i];
    }
  }

  lemma RemappedNames(members: seq<Name>, old_: Name, new_: Name)
    ensures new_ in Names(Remap(members, old_, new_)) <==> old_ in members || new_ in members
  {
    var after := Remap(members, old_, new_);
    if old_ in members {
      var i :| 0 <= i < |members| && members[i] == old_;
      assert after[i] == new_;
    } else {
      assert after == members;
    }
  }

  /** Reconciling one remapped chapter goes through exactly if the chapter held neither page. */
  lemma RemappedSelects(order: seq<Name>, k: nat, new_: Name, c: Chapter)
    requires k < |order| && Distinct(order) && new_ in RemoveAt(order, k)
    ensures Distinct(Select(order[k := new_], Names(Remap(c.members, order[k], new_))))
      <==> order[k] !in c.members && new_ !in c.members
  {
    RemoveDistinct(order, k);
    assert order[k := new_] == InsertAt(RemoveAt(order, k), k, new_);
    SelectRepeated(RemoveAt(order, k), k, new_, Names(Remap(c.members, order[k], new_)));
    RemappedNames(c.members, order[k], new_);
  }

  predicate HoldsNeither(c: Chapter, a: Name, b: Name) {
    a !in c.members && b !in c.members
  }

  lemma RemappedOne(order: seq<Name>, k: nat, new_: Name, c: Chapter)
    requires k < |order| && Distinct(order) && new_ in RemoveAt(order, k) && c.members != [] && Distinct(c.members)
    ensures var other, renamed := order[k := new_], c.(members := Remap(c.members, order[k], new_));
      && (HoldsNeither(c, order[k], new_) ==> Renameable(c.members, order[k], new_))
      && (Distinct(Select(other, Kept(other, "", renamed))) <==> HoldsNeither(c, order[k], new_))
  {
    RemoveDistinct(order, k);
    assert new_ in Names(RemoveAt(order, k));
    RenameableIff(c.members, order[k], new_);
    RemappedSelects(order, k, new_, c);
    var renamed := Remap(c.members, order[k], new_);
    assert Kept(order[k := new_], "", c.(members := renamed)) == Names(renamed);
    hide Kept, Select, Remap, Renameable, Distinct;
  }

  lemma RemappedRefits(order: seq<Name>, k: nat, new_: Name, chapters: seq<Chapter>)
    requires k < |order| && Distinct(order) && new_ in RemoveAt(order, k)
    requires forall c :: c in chapters ==> c.members != [] && Distinct(c.members)
    ensures var renamed, other := RemapFrom([], chapters, order[k], new_), order[k := new_];
      (renamed.ok && RefitFrom(other, [], renamed.chapters, KeptNames(other, "", renamed.chapters)).ok)
      <==> forall i :: 0 <= i < |chapters| ==> HoldsNeither(chapters[i], order[k], new_)
  {
    var old_, other := order[k], order[k := new_];
    RemapStopsIff([], chapters, old_, new_);
    var remapped := RemapAll(chapters, old_, new_);
    var names := KeptNames(other, "", remapped);
    assert [] + remapped == remapped;
    RefitStopsIff(other, [], remapped, names);
    forall i | 0 <= i < |chapters|
      ensures HoldsNeither(chapters[i], old_, new_) ==> Renameable(chapters[i].members, old_, new_)
      ensures Distinct(Select(other, names[i])) <==> HoldsNeither(chapters[i], old_, new_)
    {
      assert chapters[i] in chapters;
      RemappedOne(order, k, new_, chapters[i]);
    }
    hide *;
  }

  lemma ReplaceShape(w: Work, index: int, row: Page, suggested: string, stamp: nat)
    requires Numbered(w.pages) && 1 <= index <= |w.pages| && stamp !in w.versions
    ensures var o := DoReplacePage(w, index, row, suggested, stamp);
      var order := Order(w.pages)[index - 1 := row.image];
      var renamed := RemapFrom([], w.chapters, w.pages[index - 1].image, row.image);
      && (o.ok <==> renamed.ok && RefitFrom(order, [], renamed.chapters, KeptNames(order, "", renamed.chapters)).ok)
      && (!o.ok ==> o.work.versions == w.versions)
  {
    PageAtNumbered(w.pages, index);
    OrderReplaced(w.pages, index, row.(index := index));
    hide RemapFrom, RefitFrom, KeptNames, Elevate, Replaced, Numbered;
  }

  /**
   Replacing an image by one whose filename is already on another page always breaks the invariant, and the
   action is cut short exactly when some chapter holds one of the two pages.
  */
  lemma ReplaceRepeatedStops(w: Work, index: int, row: Page, suggested: string, stamp: nat)
    requires EditorInvariant(w) && 1 <= index <= |w.pages| && row.image in RemoveAt(Order(w.pages), index - 1)
    requires stamp !in w.versions
    ensures var o := DoReplacePage(w, index, row, suggested, stamp);
      && !EditorInvariant(o.work)
      && (o.ok <==> forall c :: c in w.chapters ==> w.pages[index - 1].image !in c.members && row.image !in c.members)
      && (!o.ok ==> o.work.versions == w.versions)
  {
    hide DoReplacePage, RemapFrom, RefitFrom, KeptNames, Distinct, Follows, IdsOk, ChaptersNumbered;
    ReplaceShape(w, index, row, suggested, stamp);
    assert Order(w.pages)[index - 1] == w.pages[index - 1].image;
    RemappedRefits(Order(w.pages), index - 1, row.image, w.chapters);
    assert forall i :: 0 <= i < |w.chapters| ==> w.chapters[i] in w.chapters;
    ReplacedPages(w, index, row, suggested, stamp);
    DistinctUpdate(Order(w.pages), index - 1, row.image);
  }

  // ---- Importing an archive

  /** One directory goes through the two member writes. */
  predicate Importable(order: seq<Name>, members: seq<Name>)
    requires NamedIn(order, members)
  {
    Distinct(members) && Distinct(Slice(order, MinPosition(order, members), MaxPosition(order, members)))
  }

  /**
   Without any assumption on filenames: the chapters of an archive are made exactly if no directory repeats a
   name, in itself or in the pages it spans.
  */
  lemma {:induction false} ImportStopsIff(order: seq<Name>, groups: seq<(string, seq<Name>)>, chapters: seq<Chapter>,
                                          next: nat)
    requires GroupsNamed(order, groups)
    ensures ImportFrom(order, groups, chapters, next).rebuilt.ok
      <==> forall i :: 0 <= i < |groups| ==> Importable(order, groups[i].1)
    decreases |groups|
  {
    hide MinPosition, MaxPosition, DirectoryTitle, Slice, Distinct, NextIndex;
    if groups != [] {
      var members := groups[0].1;
      var added := AddRow(order, chapters, next, DirectoryTitle(groups[0].0),
                          MinPosition(order, members), MaxPosition(order, members));
      if Importable(order, members) {
        var rest := groups[1..];
        assert forall i :: 0 <= i < |rest| ==> rest[i] == groups[i + 1];
        ImportStopsIff(order, rest, chapters + [added.chapters[|chapters|].(members := members)], next + 1);
      }
    }
  }

  lemma ImportFailsUnsaved(w: Work, rows: seq<Page>, directories: seq<string>, rating: string, stamp: nat)
    requires |rows| == |directories| && !DoImport(w, rows, directories, rating, stamp).ok
    ensures DoImport(w, rows, directories, rating, stamp).work.versions == w.versions
  {
    hide ImportFrom, Grouped, Renumber;
  }

  /** An import is snapshotted exactly then; its page rows are written in any case. */
  lemma ImportCompletesIff(w: Work, rows: seq<Page>, directories: seq<string>, rating: string, stamp: nat)
    requires |rows| == |directories| && stamp !in w.versions
    ensures GroupsNamed(Order(rows), Grouped(directories, Order(rows)))
    ensures var groups := Grouped(directories, Order(rows));
      && DoImport(w, rows, directories, rating, stamp).work.pages == Renumber(rows)
      && (DoImport(w, rows, directories, rating, stamp).ok
          <==> forall i :: 0 <= i < |groups| ==> Importable(Order(rows), groups[i].1))
  {
    hide ImportFrom, Grouped, GroupsNamed, Importable;
    RenumberNumbers(rows);
    GroupedNamed(Order(rows), directories, Order(rows));
    ImportStopsIff(Order(rows), Grouped(directories, Order(rows)), [], w.nextChapterId);
  }

  // ---- The invariant

  /** Where the filenames of an action that brings in files are not new, the invariant is lost. */
  lemma StaleBreaks(w: Work, actor: string, a: Action, stamp: nat)
    requires EditorInvariant(w) && Allowed(w, actor, a) && !FreshFor(w, a)
    ensures !EditorInvariant(Step(w, actor, a, stamp).work)
  {
    match a
    case AddPage(row, after, handed, suggested) =>
      var c, k := Claim(w, Some(actor)), InsertPosition(|w.pages|, after);
      AddedPages(c, row, after, handed, suggested, stamp);
      RenumberNumbers(InsertAt(w.pages, k, row));
      OrderInsert(w.pages, k, row);
      DistinctInsert(Order(w.pages), k, row.image);
      InsertNames(Order(w.pages), k, row.image);
      hide DoAddPage, Renumber, InsertAt, Distinct;
      assert row.image in Names(InsertAt(Order(w.pages), k, row.image));
    case ReplacePage(index, row, suggested) =>
      ReplacedPages(w, index, row, suggested, stamp);
      DistinctUpdate(Order(w.pages), index - 1, row.image);
      hide DoReplacePage, Distinct, RemoveAt;
      assert Order(w.pages)[index - 1 := row.image][index - 1] == row.image;
    case ImportCbz(uploader, rows, directories, metadata, suggestions, fallback) =>
      ImportedPages(Claim(w, uploader), rows, directories, ImportRating(metadata, suggestions, fallback), stamp);
      hide DoImport, ImportRating, Distinct;
    case _ =>
  }

  /** An allowed action keeps the invariant if and only if the filenames it brings in are new to the work. */
  lemma InvariantIffFresh(w: Work, actor: string, a: Action, stamp: nat)
    requires EditorInvariant(w) && Allowed(w, actor, a)
    ensures EditorInvariant(Step(w, actor, a, stamp).work) <==> FreshFor(w, a)
  {
    hide EditorInvariant, Step, Allowed, FreshFor;
    if FreshFor(w, a) {
      StepKeeps(w, actor, a, stamp);
    } else {
      StaleBreaks(w, actor, a, stamp);
    }
  }

  // ---- Inputs that show it

  /** A picture is uploaded as the first page of a new work, and a chapter made of it. */
  function OnePageEvents(ann: string, n: Name): seq<Event> {
    [Event(ann, AddPage(Page(1, n, None, None, None), 0, "", ""), 1), Event(ann, AddChapter("One", 1, 1), 2)]
  }

  lemma EmptyFits(owner: Option<string>)
    ensures EditorInvariant(EmptyWork(owner)) && Recorded(EmptyWork(owner)) && Later(EmptyWork(owner), 1)
  {
  }

  lemma OnlyPage(row: Page)
    requires row.index == 1
    ensures Renumber(InsertAt([], 0, row)) == [row] && Order([row]) == [row.image]
    ensures Reconcile([row.image], "", []) == Rebuilt([], true)
  {
  }

  lemma FirstStep(ann: string, row: Page)
    requires row.image != ""
    ensures var w, a := EmptyWork(Some(ann)), AddPage(row, 0, "", "");
      && Step(w, ann, a, 1) == DoAddPage(w, row, 0, "", "", 1)
      && FreshFor(w, a) && Allowed(w, ann, a) && row.image !in Order(w.pages)
      && Renumber(InsertAt(w.pages, InsertPosition(|w.pages|, 0), row)) == Renumber(InsertAt([], 0, row))
  {
    hide DoAddPage, Renumber;
  }

  lemma FirstPage(ann: string, n: Name)
    requires n != ""
    ensures var w := After(EmptyWork(Some(ann)), OnePageEvents(ann, n)[0]).work;
      EditorInvariant(w) && Recorded(w) && Order(w.pages) == [n] && w.chapters == [] && w.versions.Keys == {1}
  {
    var w, row := EmptyWork(Some(ann)), Page(1, n, None, None, None);
    EmptyFits(Some(ann));
    OnlyPage(row);
    FirstStep(ann, row);
    hide EditorInvariant, Recorded, Step, DoAddPage, Later, Renumber, InsertAt, Order, Reconcile, Completed, FreshFor,
         Allowed, InsertPosition;
    FreshStepRecords(w, ann, AddPage(row, 0, "", ""), 1);
    StepHistory(w, ann, AddPage(row, 0, "", ""), 1);
    AddPageBecomes(w, row, 0, "", "", 1);
  }

  lemma FirstPageOwner(ann: string, n: Name)
    ensures After(EmptyWork(Some(ann)), OnePageEvents(ann, n)[0]).work.owner == Some(ann)
  {
    hide PageRating, Reconcile, Renumber, InsertAt;
  }

  lemma ChapterOwner(w: Work, title: string, start: int, end: int, stamp: nat)
    ensures DoAddChapter(w, title, start, end, stamp).work.owner == w.owner
  {
    hide AddRow;
  }

  /** The chapter of the only page. */
  lemma OnlyChapter(w: Work, ann: string, n: Name, stamp: nat)
    requires EditorInvariant(w) && Recorded(w) && Later(w, stamp) && w.owner == Some(ann)
    requires Order(w.pages) == [n] && w.chapters == []
    ensures var o := Step(w, ann, AddChapter("One", 1, 1), stamp);
      && EditorInvariant(o.work) && Recorded(o.work) && o.work.owner == Some(ann)
      && o.work.versions.Keys == w.versions.Keys + {stamp}
      && Order(o.work.pages) == [n] && |o.work.chapters| == 1 && o.work.chapters[0].members == [n]
  {
    hide EditorInvariant, Recorded, DoAddChapter, Order;
    assert |w.pages| == |Order(w.pages)| == 1;
    FreshStepRecords(w, ann, AddChapter("One", 1, 1), stamp);
    StepHistory(w, ann, AddChapter("One", 1, 1), stamp);
    AddChapterKeeps(w, "One", 1, 1, stamp);
    ChapterOwner(w, "One", 1, 1, stamp);
    assert [n][0..1] == [n];
  }

  lemma TwoEvents(w: Work, a: Event, b: Event)
    ensures Run(w, [a, b]) == After(After(w, a).work, b).work
  {
    hide Step;
    assert [a, b][1..] == [b] && [b][1..] == [];
    assert Run(After(w, a).work, [b]) == After(After(w, a).work, b).work;
  }

  lemma OnePageReached(ann: string, n: Name)
    requires n != ""
    ensures var w := Run(EmptyWork(Some(ann)), OnePageEvents(ann, n));
      && EditorInvariant(w) && Recorded(w) && w.owner == Some(ann) && w.versions.Keys == {1, 2}
      && Order(w.pages) == [n] && |w.chapters| == 1 && w.chapters[0].members == [n]
  {
    hide EditorInvariant, Recorded, Step, Order;
    FirstPage(ann, n);
    FirstPageOwner(ann, n);
    var events := OnePageEvents(ann, n);
    TwoEvents(EmptyWork(Some(ann)), events[0], events[1]);
    OnlyChapter(After(EmptyWork(Some(ann)), events[0]).work, ann, n, 2);
  }

  /**
   The same picture, uploaded again as another page, is cut short: two page rows have one name, and no snapshot is
   taken of them.
  */
  lemma SamePictureTwice(ann: string, n: Name, stamp: nat)
    requires n != "" && 2 < stamp
    ensures var w := Run(EmptyWork(Some(ann)), OnePageEvents(ann, n));
      var o := Step(w, ann, AddPage(Page(1, n, None, None, None), 0, "", ""), stamp);
      !o.ok && !EditorInvariant(o.work) && |o.work.pages| == 2 && o.work.versions == w.versions && Recorded(w)
  {
    hide EditorInvariant, DoAddPage, Order, Run, Recorded, OnePageEvents, EmptyWork;
    OnePageReached(ann, n);
    var w := Run(EmptyWork(Some(ann)), OnePageEvents(ann, n));
    assert |w.pages| == |Order(w.pages)| == 1;
    assert w.chapters[0] in w.chapters && n in w.chapters[0].members;
    RepeatedNameStops(w, Page(1, n, None, None, None), 0, "", "", stamp);
  }

  lemma TwoFiled(d: string, n: Name)
    requires n != "" && d != ""
    ensures Grouped([d, d], [n, n]) == [(d, [n, n])]
  {
    assert [d, d][..1] == [d] && [n, n][..1] == [n];
    assert Grouped([d][..0], [n][..0]) == [];
    assert Grouped([d], [n]) == File([], d, n) == [(d, [n])];
    assert Grouped([d, d], [n, n]) == File([(d, [n])], d, n);
    assert [n] + [n] == [n, n] && [(d, [n])][1..] == [];
  }

  lemma TwoUnimportable(n: Name)
    ensures NamedIn([n, n], [n, n]) && !Importable([n, n], [n, n])
  {
    assert [n, n][0] == [n, n][1];
  }

  /** Two blank pages in one directory of an archive: both page rows are written, and no snapshot. */
  lemma BlankPagesTwice(w: Work, d: string, n: Name, rating: string, stamp: nat)
    requires n != "" && d != "" && stamp !in w.versions
    ensures var page := Page(0, n, None, None, None);
      var o := DoImport(w, [page, page], [d, d], rating, stamp);
      !o.ok && |o.work.pages| == 2 && o.work.versions == w.versions
  {
    var rows := [Page(0, n, None, None, None), Page(0, n, None, None, None)];
    assert Order(rows) == [n, n];
    TwoFiled(d, n);
    TwoUnimportable(n);
    hide DoImport, Grouped, Importable, Order;
    ImportCompletesIff(w, rows, [d, d], rating, stamp);
    assert Grouped([d, d], [n, n])[0].1 == [n, n];
    ImportFailsUnsaved(w, rows, [d, d], rating, stamp);
  }
}
