/** The editor as the service runs it: one work's tables, rewritten in place row by row. */
module WorkEditor {
  import opened Wrappers
  import opened Rating
  import opened PageOrder
  import opened WorkModel
  import opened Editor
  import opened Chapters
  import opened ChapterRows

  lemma RefitUnfolds(order: seq<Name>, done: seq<Chapter>, listed: seq<Chapter>, names: seq<set<Name>>, i: nat)
    requires i < |listed| == |names|
    ensures done + listed[i..] == done + [listed[i]] + listed[i + 1..]
    ensures RefitFrom(order, done, listed[i..], names[i..])
      == match Fit(order, listed[i], names[i])
         case None => RefitFrom(order, done, listed[i + 1..], names[i + 1..])
         case Some(c) =>
           if Distinct(c.members) then RefitFrom(order, done + [c], listed[i + 1..], names[i + 1..])
           else Rebuilt(RenumberChapters(done + [c.(members := listed[i].members)] + listed[i + 1..]), false)
  {
    assert listed[i..][1..] == listed[i + 1..] && names[i..][1..] == names[i + 1..];
  }

  lemma RefitEnds(order: seq<Name>, done: seq<Chapter>)
    ensures RefitFrom(order, done, [], []) == Rebuilt(RenumberChapters(done), true)
  {
  }

  lemma RemapUnfolds(done: seq<Chapter>, listed: seq<Chapter>, i: nat, old_: Name, new_: Name)
    requires i < |listed|
    ensures done + listed[i..] == done + [listed[i]] + listed[i + 1..]
    ensures var members := Remap(listed[i].members, old_, new_);
      RemapFrom(done, listed[i..], old_, new_)
      == if members == listed[i].members || Distinct(members) then
           RemapFrom(done + [listed[i].(members := members)], listed[i + 1..], old_, new_)
         else Rebuilt(done + listed[i..], false)
  {
    assert listed[i..][1..] == listed[i + 1..];
  }

  lemma RemapEnds(done: seq<Chapter>, old_: Name, new_: Name)
    ensures RemapFrom(done, [], old_, new_) == Rebuilt(done, true)
  {
  }

  /** One turn of the import loop. */
  lemma ImportUnfolds(order: seq<Name>, groups: seq<(string, seq<Name>)>, i: nat, chapters: seq<Chapter>, next: nat)
    requires GroupsNamed(order, groups) && i < |groups|
    ensures GroupsNamed(order, groups[i..]) && GroupsNamed(order, groups[i + 1..]) && NamedIn(order, groups[i].1)
    ensures var members := groups[i].1;
      var added := AddRow(order, chapters, next, DirectoryTitle(groups[i].0), MinPosition(order, members),
                          MaxPosition(order, members));
      ImportFrom(order, groups[i..], chapters, next)
      == if !added.ok || !Distinct(members) then Imported(Rebuilt(added.chapters, false), next + 1)
         else ImportFrom(order, groups[i + 1..], chapters + [added.chapters[|chapters|].(members := members)], next + 1)
  {
    assert groups[i..][1..] == groups[i + 1..];
    hide AddRow, MinPosition, MaxPosition;
  }

  lemma ImportEnds(order: seq<Name>, chapters: seq<Chapter>, next: nat)
    ensures ImportFrom(order, [], chapters, next) == Imported(Rebuilt(chapters, true), next)
  {
  }

  lemma SameIdsSamePos(a: seq<Chapter>, b: seq<Chapter>, id: int)
    requires |a| == |b| && forall i :: 0 <= i < |a| ==> a[i].id == b[i].id
    ensures ChapterPos(a, id) == ChapterPos(b, id)
  {
  }

  /** `plan_delete_page`: the renumbered rows without the page, and the filename it had. */
  method PlanDelete(pages: seq<Page>, index: int) returns (plan: Option<(seq<Page>, Name)>)
    ensures plan == match PageAt(pages, index)
                    case None => None
                    case Some(current) => Some((Renumber(Without(pages, index)), current.image))
  {
    var current := PageAt(pages, index);
    if current.None? {
      return None;
    }
    var remaining: seq<Page> := [];
    for i := 0 to |pages|
      invariant remaining + Without(pages[i..], index) == Without(pages, index)
    {
      assert pages[i..][1..] == pages[i + 1..];
      if pages[i].index != index {
        remaining := remaining + [pages[i]];
      }
    }
    assert pages[|pages|..] == [] && remaining + [] == remaining;
    hide Without, PageAt;
    var renumbered: seq<Page> := [];
    for i := 0 to |remaining|
      invariant renumbered == Renumber(remaining)[..i]
    {
      assert Renumber(remaining)[i] == remaining[i].(index := i + 1);
      renumbered := renumbered + [remaining[i].(index := i + 1)];
    }
    assert Renumber(remaining)[..|remaining|] == Renumber(remaining);
    return Some((renumbered, current.value.image));
  }

  /** The de-duplicated order list of a gallery reorder. */
  method UniqueOrder(pages: seq<Page>, requested: seq<Name>) returns (unique: seq<Name>)
    ensures unique == NewOrder(pages, requested)
  {
    var known := Names(Order(pages)) - {""};
    var seen: set<Name> := {};
    unique := [];
    for i := 0 to |requested|
      invariant unique + FirstMentions(requested[i..], known, seen) == FirstMentions(requested, known, {})
    {
      assert requested[i..][1..] == requested[i + 1..];
      if requested[i] in known && requested[i] !in seen {
        unique := unique + [requested[i]];
        seen := seen + {requested[i]};
      }
    }
  }

  /** `_group_cbz_pages_by_directory` */
  method GroupPages(directories: seq<string>, names: seq<Name>) returns (groups: seq<(string, seq<Name>)>)
    requires |directories| == |names|
    ensures groups == Grouped(directories, names)
  {
    groups := [];
    for i := 0 to |names|
      invariant groups == Grouped(directories[..i], names[..i])
    {
      assert directories[..i + 1][..i] == directories[..i] && names[..i + 1][..i] == names[..i];
      if directories[i] != "" && names[i] != "" {
        groups := File(groups, directories[i], names[i]);
      }
    }
    assert directories[..|names|] == directories && names[..|names|] == names;
  }

  class WorkTables {
    var owner: Option<string>
    var pages: seq<Page>
    var pageCount: nat
    var rating: string
    var chapters: seq<Chapter>
    var nextChapterId: nat
    var versions: map<nat, Manifest>

    function State(): Work
      reads this
    {
      Work(owner, pages, pageCount, rating, chapters, nextChapterId, versions)
    }

    /** The keys of the chapter table. */
    ghost predicate Valid()
      reads this
    {
      ChaptersNumbered(chapters) && IdsOk(chapters, nextChapterId) && 0 < nextChapterId
    }

    constructor (owner: Option<string>)
      ensures Valid() && State() == EmptyWork(owner)
    {
      this.owner := owner;
      pages, pageCount, rating := [], 0, "Not Rated";
      chapters, nextChapterId, versions := [], 1, map[];
    }

    // ---- Statements of the repository

    /** `replace_work_pages` */
    method ReplacePages(rows: seq<Page>)
      modifies this`pages
      ensures pages == rows
    {
      pages := [];
      for i := 0 to |rows|
        invariant pages == rows[..i]
      {
        pages := pages + [rows[i]];
      }
    }

    /** `update_work_chapter` */
    method UpdateChapterRow(id: int, title: string, start: int, end: int) returns (updated: bool)
      requires Valid()
      modifies this`chapters
      ensures Valid()
      ensures var k := ChapterPos(old(chapters), id);
        && (updated <==> k < |old(chapters)|)
        && chapters == (if updated then
                          old(chapters)[k := old(chapters)[k].(title := title, start := start, end := end)]
                        else old(chapters))
    {
      var k := ChapterPos(chapters, id);
      updated := k < |chapters|;
      if updated {
        chapters := chapters[k := chapters[k].(title := title, start := start, end := end)];
      }
    }

    /** `replace_work_chapter_members`: a repeated filename violates the key, and the transaction is rolled back. */
    method ReplaceMembers(id: int, names: seq<Name>) returns (ok: bool)
      requires Valid() && ChapterPos(chapters, id) < |chapters|
      modifies this`chapters
      ensures Valid()
      ensures ok <==> Distinct(names)
      ensures var k := ChapterPos(old(chapters), id);
        chapters == if ok then old(chapters)[k := old(chapters)[k].(members := names)] else old(chapters)
    {
      var k := ChapterPos(chapters, id);
      var inserted: seq<Name> := [];
      for i := 0 to |names|
        invariant inserted == names[..i] && Distinct(inserted)
      {
        if names[i] in inserted {
          assert exists j :: 0 <= j < i && names[j] == names[i] by {
            var j :| 0 <= j < |inserted| && inserted[j] == names[i];
            assert names[j] == names[i];
          }
          return false;
        }
        inserted := inserted + [names[i]];
      }
      assert names[..|names|] == names;
      chapters := chapters[k := chapters[k].(members := inserted)];
      return true;
    }

    /**
     The second statement of the deletion: every later row moves up, in order, one UPDATE at a time. No
     UPDATE ever meets an index that another row holds, so the UNIQUE key is never violated.
    */
    method CloseGap()
      requires Rising(chapters)
      modifies this`chapters
      ensures chapters == RenumberChapters(old(chapters))
    {
      ghost var before := chapters;
      for i := 0 to |chapters|
        invariant |chapters| == |before|
        invariant forall j :: 0 <= j < |chapters| ==>
                    chapters[j] == if j < i then before[j].(index := j + 1) else before[j]
      {
        assert IndexFree(chapters, i, i + 1) by {
          assert forall j :: i < j < |chapters| ==> before[i].index < before[j].index && i + 1 <= before[i].index;
        }
        chapters := chapters[i := chapters[i].(index := i + 1)];
      }
    }

    /**
     `delete_work_chapter`: remove the row, then close the gap.
    */
    method DeleteChapterRow(id: int) returns (deleted: bool)
      requires Valid()
      modifies this`chapters
      ensures Valid()
      ensures var k := ChapterPos(old(chapters), id);
        && (deleted <==> k < |old(chapters)|)
        && chapters == (if deleted then DeleteRow(old(chapters), k) else old(chapters))
    {
      var k := ChapterPos(chapters, id);
      if k == |chapters| {
        return false;
      }
      RemovedKeys(chapters, k, nextChapterId);
      RemovedRises(chapters, k);
      chapters := chapters[..k] + chapters[k + 1..];
      hide ChaptersNumbered, IdsOk, RenumberChapters, Rising;
      CloseGap();
      return true;
    }

    /** `add_work_chapter` */
    method AddChapterRow(title: string, start: int, end: int) returns (id: nat, ok: bool)
      requires Valid()
      modifies this`chapters, this`nextChapterId
      ensures Valid()
      ensures id == old(nextChapterId) && nextChapterId == old(nextChapterId) + 1
      ensures var added := AddRow(Order(pages), old(chapters), id, title, start, end);
        chapters == added.chapters && ok == added.ok && ChapterPos(chapters, id) == |old(chapters)|
    {
      hide ChaptersNumbered, IdsOk, ChapterPos, NextIndex, Slice, Distinct;
      id := nextChapterId;
      ghost var row := Chapter(id, NextIndex(chapters), title, start, end, []);
      NewRowLast(chapters, row, nextChapterId);
      chapters := chapters + [Chapter(id, NextIndex(chapters), title, start, end, [])];
      nextChapterId := nextChapterId + 1;
      ghost var added := chapters;
      ok := ReplaceMembers(id, Slice(Order(pages), start, end));
      SameIdsSamePos(added, chapters, id);
      assert ok ==> chapters == old(chapters) + [row.(members := Slice(Order(pages), start, end))];
    }

    /** `create_work_version_snapshot` */
    method TakeSnapshot(stamp: nat) returns (ok: bool)
      modifies this`versions
      ensures State() == Snapshot(old(State()), stamp).work && ok == Snapshot(old(State()), stamp).ok
    {
      if stamp in versions {
        return false;
      }
      versions := versions[stamp := Manifest(pageCount, rating, pages, chapters)];
      return true;
    }

    /** `[name for name in page_order if name in keep]` */
    method OrderedMembers(order: seq<Name>, keep: set<Name>) returns (r: seq<Name>)
      ensures r == Select(order, keep)
    {
      r := [];
      for i := 0 to |order|
        invariant r + Select(order[i..], keep) == Select(order, keep)
      {
        assert order[i..][1..] == order[i + 1..];
        if order[i] in keep {
          r := r + [order[i]];
        }
      }
    }

    /** One chapter that still has pages: its range, then its members. */
    method RefitRow(ghost done: seq<Chapter>, c: Chapter, ghost rest: seq<Chapter>, start: int, end: int,
                    members: seq<Name>)
      returns (ok: bool)
      requires Valid() && IdsOk(done + [c] + rest, nextChapterId) && chapters == RenumberChapters(done + [c] + rest)
      modifies this`chapters
      ensures Valid() && (ok <==> Distinct(members))
      ensures var row := c.(start := start, end := end, members := if ok then members else c.members);
        chapters == RenumberChapters(done + [row] + rest) && IdsOk(done + [row] + rest, nextChapterId)
    {
      ghost var ranged := c.(start := start, end := end);
      RowInTable(done, c, rest, nextChapterId);
      RowRewritten(done, c, rest, ranged, nextChapterId);
      var updated := UpdateChapterRow(c.id, c.title, start, end);
      assert chapters == RenumberChapters(done + [ranged] + rest);
      RowInTable(done, ranged, rest, nextChapterId);
      RowRewritten(done, ranged, rest, ranged.(members := members), nextChapterId);
      ok := ReplaceMembers(c.id, members);
    }

    /** One chapter left without pages. */
    method DropRow(ghost done: seq<Chapter>, c: Chapter, ghost rest: seq<Chapter>)
      requires Valid() && IdsOk(done + [c] + rest, nextChapterId) && chapters == RenumberChapters(done + [c] + rest)
      modifies this`chapters
      ensures Valid() && chapters == RenumberChapters(done + rest) && IdsOk(done + rest, nextChapterId)
    {
      RowInTable(done, c, rest, nextChapterId);
      var deleted := DeleteChapterRow(c.id);
    }

    /** One turn of the refit loop. */
    method RefitOne(order: seq<Name>, wanted: set<Name>, ghost done: seq<Chapter>, c: Chapter, ghost rest: seq<Chapter>)
      returns (ok: bool)
      requires Valid() && IdsOk(done + [c] + rest, nextChapterId) && chapters == RenumberChapters(done + [c] + rest)
      modifies this`chapters
      ensures Valid()
      ensures match Fit(order, c, wanted)
        case None => ok && chapters == RenumberChapters(done + rest) && IdsOk(done + rest, nextChapterId)
        case Some(fitted) =>
          && (ok <==> Distinct(fitted.members))
          && (ok ==> chapters == RenumberChapters(done + [fitted] + rest)
                     && IdsOk(done + [fitted] + rest, nextChapterId))
          && (!ok ==> chapters == RenumberChapters(done + [fitted.(members := c.members)] + rest))
    {
      hide RenumberChapters, IdsOk, Distinct, IndexOf;
      var members := OrderedMembers(order, wanted);
      if members == [] {
        DropRow(done, c, rest);
        return true;
      }
      var start, end := IndexOf(order, members[0]) + 1, IndexOf(order, members[|members| - 1]) + 1;
      ok := RefitRow(done, c, rest, start, end, members);
    }

    /**
     The loop shared by reconciliation and gallery reorder, over the chapter list as it was read: delete
     the chapters without pages, rewrite the range and members of the others.
    */
    method RefitChapters(order: seq<Name>, names: seq<set<Name>>) returns (ok: bool)
      requires Valid() && |names| == |chapters|
      modifies this`chapters
      ensures Valid()
      ensures var r := RefitFrom(order, [], old(chapters), names); chapters == r.chapters && ok == r.ok
    {
      var listed := chapters;
      ghost var done: seq<Chapter> := [];
      NumberedRenumber(chapters);
      assert [] + listed == listed && listed[0..] == listed && names[0..] == names;
      hide RefitFrom, RenumberChapters, IdsOk, Fit;
      for i := 0 to |listed|
        invariant Valid() && IdsOk(done + listed[i..], nextChapterId)
        invariant chapters == RenumberChapters(done + listed[i..])
        invariant RefitFrom(order, done, listed[i..], names[i..]) == RefitFrom(order, [], listed, names)
      {
        RefitUnfolds(order, done, listed, names, i);
        var fitted := RefitOne(order, names[i], done, listed[i], listed[i + 1..]);
        if !fitted {
          return false;
        }
        if Fit(order, listed[i], names[i]).Some? {
          done := done + [Fit(order, listed[i], names[i]).value];
        }
      }
      assert done + listed[|listed|..] == done && listed[|listed|..] == [] && names[|listed|..] == [];
      RefitEnds(order, done);
      return true;
    }

    /** `_reconcile_chapters_after_page_changes` */
    method ReconcileChapters(removed: Name) returns (ok: bool)
      requires Valid()
      modifies this`chapters
      ensures Valid()
      ensures var r := Reconcile(Order(pages), removed, old(chapters)); chapters == r.chapters && ok == r.ok
    {
      var order := Order(pages);
      ok := RefitChapters(order, KeptNames(order, removed, chapters));
    }

    /** One turn of the rename loop. */
    method RenameOne(ghost k: nat, c: Chapter, old_: Name, new_: Name) returns (ok: bool)
      requires Valid() && k < |chapters| && chapters[k] == c
      modifies this`chapters
      ensures Valid()
      ensures var members := Remap(c.members, old_, new_);
        && (ok <==> members == c.members || Distinct(members))
        && chapters == if ok then old(chapters)[k := c.(members := members)] else old(chapters)
    {
      var members := Remap(c.members, old_, new_);
      if members == c.members {
        return true;
      }
      assert ChapterPos(chapters, c.id) == k;
      ok := ReplaceMembers(c.id, members);
    }

    /** The loop of a page replacement that renames the image in every member list that has it. */
    method RenameInChapters(old_: Name, new_: Name) returns (ok: bool)
      requires Valid()
      modifies this`chapters
      ensures Valid()
      ensures var r := RemapFrom([], old(chapters), old_, new_); chapters == r.chapters && ok == r.ok
    {
      var listed := chapters;
      hide RemapFrom, Remap, Valid;
      assert chapters[..0] == [] && listed[0..] == listed;
      for i := 0 to |listed|
        invariant Valid() && |chapters| == |listed| && chapters[i..] == listed[i..]
        invariant RemapFrom(chapters[..i], listed[i..], old_, new_) == RemapFrom([], listed, old_, new_)
      {
        ghost var done := chapters[..i];
        RemapUnfolds(done, listed, i, old_, new_);
        assert chapters == done + listed[i..] && chapters[i] == listed[i..][0];
        var renamed := RenameOne(i, listed[i], old_, new_);
        if !renamed {
          return false;
        }
        assert chapters[..i + 1] == done + [listed[i].(members := Remap(listed[i].members, old_, new_))];
      }
      assert chapters[..|listed|] == chapters && listed[|listed|..] == [];
      RemapEnds(chapters, old_, new_);
      return true;
    }

    // ---- Actions

    /** The common end of the page actions: the work row, then the snapshot. */
    method FinishPages(stamp: nat) returns (ok: bool)
      modifies this`pageCount, this`versions
      ensures var o := Snapshot(old(State()).(pageCount := |pages|), stamp); State() == o.work && ok == o.ok
    {
      pageCount := |pages|;
      ok := TakeSnapshot(stamp);
    }

    /** The owner column of `upsert_work`: set once, by the first upload that names somebody. */
    method ClaimOwner(uploader: Option<string>)
      modifies this`owner
      ensures State() == Claim(old(State()), uploader)
    {
      if owner.None? {
        owner := uploader;
      }
    }

    /** `ingest_editor_page` */
    method AddPageAction(actor: string, row: Page, after: int, handed: string, suggested: string, stamp: nat)
      returns (ok: bool)
      requires Valid()
      modifies this
      ensures Valid()
      ensures var o := DoAddPage(Claim(old(State()), Some(actor)), row, after, handed, suggested, stamp);
              State() == o.work && ok == o.ok
    {
      hide Elevate, RefitFrom;
      ClaimOwner(Some(actor));
      var ordered := InsertAt(pages, InsertPosition(|pages|, after), row);
      rating := Elevate(if handed == "" then rating else handed, suggested);
      pageCount := |ordered|;
      ReplacePages(Renumber(ordered));
      ok := ReconcileChapters("");
      if ok {
        ok := FinishPages(stamp);
      }
    }

    /** `editor_replace_page_image` */
    method ReplacePageAction(index: int, row: Page, suggested: string, stamp: nat) returns (ok: bool)
      requires Valid()
      modifies this
      ensures Valid()
      ensures var o := DoReplacePage(old(State()), index, row, suggested, stamp); State() == o.work && ok == o.ok
    {
      hide Elevate, RefitFrom, RemapFrom;
      var current := PageAt(pages, index);
      if current.None? {
        return false;
      }
      ReplacePages(Replaced(pages, index, row.(index := current.value.index)));
      ok := RenameInChapters(current.value.image, row.image);
      if ok {
        var after := Elevate(rating, suggested);
        ok := ReconcileChapters("");
        if ok {
          rating := after;
          ok := FinishPages(stamp);
        }
      }
    }

    /** `editor_delete_page` */
    method DeletePageAction(index: int, stamp: nat) returns (ok: bool)
      requires Valid()
      modifies this
      ensures Valid()
      ensures var o := DoDeletePage(old(State()), index, stamp); State() == o.work && ok == o.ok
    {
      hide RefitFrom;
      var plan := PlanDelete(pages, index);
      if plan.None? {
        return false;
      }
      ReplacePages(plan.value.0);
      ok := ReconcileChapters(plan.value.1);
      if ok {
        ok := FinishPages(stamp);
      }
    }

    /** `editor_move_page` */
    method MovePageAction(from: int, to: int, stamp: nat) returns (ok: bool)
      requires Valid()
      modifies this
      ensures Valid()
      ensures var o := DoMovePage(old(State()), from, to, stamp); State() == o.work && ok == o.ok
    {
      hide RefitFrom;
      if from < 1 || from > |pages| || to < 1 || to > |pages| {
        return false;
      }
      var rows := pages;
      var source := rows[from - 1];
      rows := rows[..from - 1] + rows[from..];
      rows := rows[..to - 1] + [source] + rows[to - 1..];
      ReplacePages(Renumber(rows));
      ok := ReconcileChapters("");
      if ok {
        ok := FinishPages(stamp);
      }
    }

    /** `editor_reorder_gallery` */
    method ReorderAction(names: seq<Name>, request: map<nat, seq<Name>>, stamp: nat) returns (ok: bool)
      requires Valid()
      modifies this
      ensures Valid()
      ensures var o := DoReorder(old(State()), names, request, stamp); State() == o.work && ok == o.ok
    {
      hide RefitFrom;
      var unique := UniqueOrder(pages, names);
      if pages == [] || |unique| != |Names(Order(pages)) - {""}| {
        return false;
      }
      ReplacePages(Renumber(RowsNamed(pages, unique)));
      var order := Order(pages);
      ok := RefitChapters(order, GalleryNames(order, chapters, request));
      if ok {
        ok := FinishPages(stamp);
      }
    }

    /** `editor_add_chapter` */
    method AddChapterAction(title: string, start: int, end: int, stamp: nat) returns (ok: bool)
      requires Valid()
      modifies this
      ensures Valid()
      ensures var o := DoAddChapter(old(State()), title, start, end, stamp); State() == o.work && ok == o.ok
    {
      if !RangeOk(State(), start, end) {
        return false;
      }
      var id;
      id, ok := AddChapterRow(title, start, end);
      if ok {
        ok := TakeSnapshot(stamp);
      }
    }

    /** `editor_update_chapter` */
    method UpdateChapterAction(id: int, title: string, start: int, end: int, stamp: nat) returns (ok: bool)
      requires Valid()
      modifies this
      ensures Valid()
      ensures var o := DoUpdateChapter(old(State()), id, title, start, end, stamp); State() == o.work && ok == o.ok
    {
      if !RangeOk(State(), start, end) {
        return false;
      }
      ghost var before := chapters;
      ok := UpdateChapterRow(id, title, start, end);
      if !ok {
        return;
      }
      ghost var k := ChapterPos(before, id);
      SameIdsSamePos(before, chapters, id);
      var picked := Order(pages)[start - 1..end];
      ghost var row := before[k].(title := title, start := start, end := end);
      assert before[k := row][k := row.(members := picked)] == before[k := row.(members := picked)];
      ok := ReplaceMembers(id, picked);
      if ok {
        ok := TakeSnapshot(stamp);
      }
    }

    /** `editor_delete_chapter` */
    method DeleteChapterAction(id: int, stamp: nat) returns (ok: bool)
      requires Valid()
      modifies this
      ensures Valid()
      ensures var o := DoDeleteChapter(old(State()), id, stamp); State() == o.work && ok == o.ok
    {
      ok := DeleteChapterRow(id);
      if ok {
        ok := TakeSnapshot(stamp);
      }
    }

    /** A metadata edit; only its rating is modelled. */
    method EditMetadataAction(isAdmin: bool, raw: string, stamp: nat) returns (ok: bool)
      requires Valid()
      modifies this
      ensures Valid()
      ensures var o := DoEditMetadata(old(State()), isAdmin, raw, stamp); State() == o.work && ok == o.ok
    {
      hide LocksDemotion, Resolve;
      if LocksDemotion(isAdmin, rating, Resolve(raw)) {
        return false;
      }
      rating := Resolve(raw);
      ok := TakeSnapshot(stamp);
    }

    /** The first loop of an import: every existing chapter is deleted. */
    method ClearChapters()
      requires Valid()
      modifies this`chapters
      ensures Valid() && chapters == []
    {
      var listed := chapters;
      NumberedRenumber(chapters);
      assert listed[0..] == listed;
      for i := 0 to |listed|
        invariant Valid() && chapters == RenumberChapters(listed[i..]) && IdsOk(listed[i..], nextChapterId)
      {
        assert [] + [listed[i]] + listed[i + 1..] == listed[i..] && [] + listed[i + 1..] == listed[i + 1..];
        DropRow([], listed[i], listed[i + 1..]);
      }
    }

    /** One directory: its row with the page range, then its own pages as members. */
    method ImportChapter(order: seq<Name>, group: (string, seq<Name>)) returns (ok: bool)
      requires Valid() && NamedIn(order, group.1) && order == Order(pages)
      modifies this`chapters, this`nextChapterId
      ensures Valid() && nextChapterId == old(nextChapterId) + 1
      ensures var added := AddRow(order, old(chapters), old(nextChapterId), DirectoryTitle(group.0),
                                  MinPosition(order, group.1), MaxPosition(order, group.1));
        && ok == (added.ok && Distinct(group.1))
        && chapters == if ok then old(chapters) + [added.chapters[|old(chapters)|].(members := group.1)]
                       else added.chapters
    {
      hide MinPosition, MaxPosition, DirectoryTitle, AddRow, ChaptersNumbered, IdsOk, Distinct, ChapterPos;
      var id, added := AddChapterRow(DirectoryTitle(group.0), MinPosition(order, group.1), MaxPosition(order, group.1));
      if !added {
        return false;
      }
      ghost var at, was := |old(chapters)|, chapters;
      assert was == was[..at] + [was[at]];
      ok := ReplaceMembers(id, group.1);
    }

    /** The second loop of an import: one chapter per directory, first with its page range, then with its own pages. */
    method ImportChapters(groups: seq<(string, seq<Name>)>) returns (ok: bool)
      requires Valid() && GroupsNamed(Order(pages), groups)
      modifies this`chapters, this`nextChapterId
      ensures Valid()
      ensures var r := ImportFrom(Order(pages), groups, old(chapters), old(nextChapterId));
        chapters == r.rebuilt.chapters && ok == r.rebuilt.ok && nextChapterId == r.next
    {
      hide MinPosition, MaxPosition, DirectoryTitle, AddRow, ImportFrom, ChaptersNumbered, IdsOk, Distinct,
           GroupsNamed, NamedIn, Order;
      var order := Order(pages);
      ghost var goal := ImportFrom(order, groups, chapters, nextChapterId);
      assert groups[0..] == groups;
      ok := true;
      var i := 0;
      while ok && i < |groups|
        invariant i <= |groups| && Valid() && GroupsNamed(order, groups[i..])
        invariant if ok then ImportFrom(order, groups[i..], chapters, nextChapterId) == goal
                  else goal == Imported(Rebuilt(chapters, false), nextChapterId)
        decreases |groups| - i, ok
      {
        ImportUnfolds(order, groups, i, chapters, nextChapterId);
        ok := ImportChapter(order, groups[i]);
        i := i + 1;
      }
      if ok {
        assert groups[|groups|..] == [];
        ImportEnds(order, chapters, nextChapterId);
      }
    }

    /** The database part of `ingest_cbz` */
    method ImportAction(uploader: Option<string>, rows: seq<Page>, directories: seq<string>, newRating: string,
                        stamp: nat)
      returns (ok: bool)
      requires Valid() && |rows| == |directories|
      modifies this
      ensures Valid()
      ensures var o := DoImport(Claim(old(State()), uploader), rows, directories, newRating, stamp);
              State() == o.work && ok == o.ok
    {
      hide ChaptersNumbered, IdsOk, ImportFrom, Grouped, Renumber, GroupsNamed;
      ClaimOwner(uploader);
      rating, pageCount := newRating, |rows|;
      ReplacePages(Renumber(rows));
      ClearChapters();
      var order := Order(pages);
      var groups := GroupPages(directories, order);
      GroupedNamed(order, directories, order);
      ok := ImportChapters(groups);
      if ok {
        ok := TakeSnapshot(stamp);
      }
    }

    /** One request, as the handlers dispatch it. */
    method Apply(actor: string, a: Action, stamp: nat) returns (ok: bool)
      requires Valid()
      modifies this
      ensures Valid()
      ensures var o := Step(old(State()), actor, a, stamp); State() == o.work && ok == o.ok
    {
      hide DoAddPage, DoReplacePage, DoDeletePage, DoMovePage, DoReorder, DoAddChapter, DoUpdateChapter,
           DoDeleteChapter;
      hide DoEditMetadata, DoImport, ImportRating, Claim;
      if a.EditMetadata? {
        ok := EditMetadataAction(a.isAdmin, a.rating, stamp);
      } else if a.ImportCbz? {
        if |a.rows| != |a.directories| || a.rows == [] {
          return false;
        }
        ok := ImportAction(a.uploader, a.rows, a.directories, ImportRating(a.metadata, a.suggestions, a.fallback),
                           stamp);
      } else if !Owns(State(), actor) {
        return false;
      } else {
        match a {
          case AddPage(row, after, handed, suggested) =>
            ok := AddPageAction(actor, row, after, handed, suggested, stamp);
          case ReplacePage(index, row, suggested) => ok := ReplacePageAction(index, row, suggested, stamp);
          case DeletePage(index) => ok := DeletePageAction(index, stamp);
          case MovePage(from, to) => ok := MovePageAction(from, to, stamp);
          case Reorder(names, request) => ok := ReorderAction(names, request, stamp);
          case AddChapter(title, start, end) => ok := AddChapterAction(title, start, end, stamp);
          case UpdateChapter(id, title, start, end) => ok := UpdateChapterAction(id, title, start, end, stamp);
          case DeleteChapter(id) => ok := DeleteChapterAction(id, stamp);
        }
      }
    }
  }
}
