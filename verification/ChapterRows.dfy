/** Chapter rows and the keys of their tables under single-row writes, whatever the filenames. */
module ChapterRows {
  import opened PageOrder
  import opened WorkModel
  import opened Editor

  /** The chapter rows while the refit loop runs: `done` is finished, `row` is next, `rest` is untouched. */
  lemma RowPosition(done: seq<Chapter>, row: Chapter, rest: seq<Chapter>, next: nat)
    requires IdsOk(done + [row] + rest, next)
    ensures ChapterPos(RenumberChapters(done + [row] + rest), row.id) == |done|
  {
    var all := done + [row] + rest;
    var table := RenumberChapters(all);
    assert all[|done|] == row;
    var k := ChapterPos(table, row.id);
    assert table[|done|].id == row.id;
    assert table[k].id == all[k].id;
  }

  lemma RowTakenOut(done: seq<Chapter>, row: Chapter, rest: seq<Chapter>)
    ensures DeleteRow(RenumberChapters(done + [row] + rest), |done|) == RenumberChapters(done + rest)
  {
    var all, fewer := done + [row] + rest, done + rest;
    var table := RenumberChapters(all);
    assert forall i :: 0 <= i < |fewer| ==> fewer[i] == all[if i < |done| then i else i + 1];
    assert forall i :: 0 <= i < |fewer| ==> RemoveAt(table, |done|)[i] == table[if i < |done| then i else i + 1];
  }

  lemma RowInTable(done: seq<Chapter>, row: Chapter, rest: seq<Chapter>, next: nat)
    requires IdsOk(done + [row] + rest, next)
    ensures var table := RenumberChapters(done + [row] + rest);
      && ChapterPos(table, row.id) == |done|
      && DeleteRow(table, |done|) == RenumberChapters(done + rest)
      && IdsOk(done + rest, next)
  {
    RowPosition(done, row, rest, next);
    RowTakenOut(done, row, rest);
    hide RenumberChapters, ChapterPos, DeleteRow;
    var all, fewer := done + [row] + rest, done + rest;
    assert forall i :: 0 <= i < |fewer| ==> fewer[i] == all[if i < |done| then i else i + 1];
  }

  lemma RowRewritten(done: seq<Chapter>, row: Chapter, rest: seq<Chapter>, row': Chapter, next: nat)
    requires IdsOk(done + [row] + rest, next) && row'.id == row.id
    ensures RenumberChapters(done + [row] + rest)[|done| := row'.(index := |done| + 1)]
            == RenumberChapters(done + [row'] + rest)
    ensures IdsOk(done + [row'] + rest, next)
  {
    var all, all' := done + [row] + rest, done + [row'] + rest;
    assert forall i :: 0 <= i < |all| ==> all'[i].id == all[i].id;
  }

  lemma RemovedKeys(chapters: seq<Chapter>, k: nat, next: nat)
    requires k < |chapters| && IdsOk(chapters, next)
    ensures ChaptersNumbered(DeleteRow(chapters, k)) && IdsOk(DeleteRow(chapters, k), next)
  {
    var rest := RemoveAt(chapters, k);
    assert forall i :: 0 <= i < |rest| ==> rest[i] == chapters[if i < k then i else i + 1];
  }

  /** The chapter indices rise, each at least the row's own place, as they do once a row was taken out. */
  ghost predicate Rising(chapters: seq<Chapter>) {
    && (forall i :: 0 <= i < |chapters| ==> i + 1 <= chapters[i].index)
    && (forall i, j :: 0 <= i < j < |chapters| ==> chapters[i].index < chapters[j].index)
  }

  /** UNIQUE (work_id, chapter_index): no other row has the index that row `i` is to get. */
  ghost predicate IndexFree(chapters: seq<Chapter>, i: nat, index: nat) {
    forall j :: 0 <= j < |chapters| && j != i ==> chapters[j].index != index
  }

  lemma RemovedRises(chapters: seq<Chapter>, k: nat)
    requires k < |chapters| && ChaptersNumbered(chapters)
    ensures Rising(RemoveAt(chapters, k))
  {
    var rest := RemoveAt(chapters, k);
    assert forall i :: 0 <= i < |rest| ==> rest[i] == chapters[if i < k then i else i + 1];
  }

  lemma NewRowLast(chapters: seq<Chapter>, row: Chapter, next: nat)
    requires ChaptersNumbered(chapters) && IdsOk(chapters, next) && 0 < next == row.id
             && row.index == NextIndex(chapters)
    ensures ChaptersNumbered(chapters + [row]) && IdsOk(chapters + [row], next + 1)
    ensures ChapterPos(chapters + [row], next) == |chapters|
  {
    var longer := chapters + [row];
    assert forall i :: 0 <= i < |chapters| ==> longer[i] == chapters[i];
    assert longer[|chapters|] == row;
    assert ChapterPos(longer, next) <= |chapters| && longer[ChapterPos(longer, next)].id == next;
  }

  // ---- The keys of both tables, chapter ids and members, through every rewrite

  /** PRIMARY KEY of the chapter rows, and of the member rows of each chapter. */
  ghost predicate RowsOk(chapters: seq<Chapter>, next: nat) {
    IdsOk(chapters, next) && forall c :: c in chapters ==> Distinct(c.members)
  }

  lemma RowsRenumbered(chapters: seq<Chapter>, next: nat)
    requires RowsOk(chapters, next)
    ensures RowsOk(RenumberChapters(chapters), next) && ChaptersNumbered(RenumberChapters(chapters))
  {
    hide Distinct;
    var r := RenumberChapters(chapters);
    forall c | c in r ensures Distinct(c.members) {
      var i :| 0 <= i < |r| && r[i] == c;
      assert chapters[i] in chapters;
    }
  }

  lemma RowsDropped(done: seq<Chapter>, row: Chapter, rest: seq<Chapter>, next: nat)
    requires RowsOk(done + [row] + rest, next)
    ensures RowsOk(done + rest, next)
  {
    RowInTable(done, row, rest, next);
    hide IdsOk, Distinct;
    assert forall c :: c in done + rest ==> c in done + [row] + rest;
  }

  lemma RowsSwapped(done: seq<Chapter>, row: Chapter, rest: seq<Chapter>, row': Chapter, next: nat)
    requires RowsOk(done + [row] + rest, next) && row'.id == row.id && Distinct(row'.members)
    ensures RowsOk(done + [row'] + rest, next)
  {
    RowRewritten(done, row, rest, row', next);
    hide IdsOk, Distinct;
    assert forall c :: c in done + [row'] + rest ==> c == row' || c in done + [row] + rest;
  }

  lemma TodoUnfolds(done: seq<Chapter>, todo: seq<Chapter>)
    requires todo != []
    ensures done + [todo[0]] + todo[1..] == done + todo && todo[0] in done + todo
  {
  }

  /** The refit loop, whether it goes through or is cut short. */
  lemma {:induction false} RefitRows(order: seq<Name>, done: seq<Chapter>, todo: seq<Chapter>, names: seq<set<Name>>,
                                     next: nat)
    requires |names| == |todo| && RowsOk(done + todo, next)
    ensures var r := RefitFrom(order, done, todo, names).chapters; RowsOk(r, next) && ChaptersNumbered(r)
    decreases |todo|
  {
    hide IdsOk, Distinct, RenumberChapters, ChaptersNumbered;
    if todo == [] {
      assert done + todo == done;
      RowsRenumbered(done, next);
    } else {
      TodoUnfolds(done, todo);
      match Fit(order, todo[0], names[0])
      case None =>
        RowsDropped(done, todo[0], todo[1..], next);
        RefitRows(order, done, todo[1..], names[1..], next);
      case Some(c) =>
        if Distinct(c.members) {
          RowsSwapped(done, todo[0], todo[1..], c, next);
          RefitRows(order, done + [c], todo[1..], names[1..], next);
        } else {
          var cut := c.(members := todo[0].members);
          RowsSwapped(done, todo[0], todo[1..], cut, next);
          RowsRenumbered(done + [cut] + todo[1..], next);
        }
    }
  }

  /** The loop that renames a filename in every member list. */
  lemma {:induction false} RemapRows(done: seq<Chapter>, todo: seq<Chapter>, old_: Name, new_: Name, next: nat)
    requires RowsOk(done + todo, next)
    ensures var r := RemapFrom(done, todo, old_, new_).chapters;
      RowsOk(r, next) && (ChaptersNumbered(done + todo) ==> ChaptersNumbered(r))
    decreases |todo|
  {
    hide IdsOk, Distinct, Remap;
    if todo == [] {
      assert done + todo == done;
    } else {
      TodoUnfolds(done, todo);
      var row := todo[0].(members := Remap(todo[0].members, old_, new_));
      if row.members == todo[0].members || Distinct(row.members) {
        RowsSwapped(done, todo[0], todo[1..], row, next);
        assert forall i :: 0 <= i < |done + todo| ==> (done + [row] + todo[1..])[i].index == (done + todo)[i].index;
        RemapRows(done + [row], todo[1..], old_, new_, next);
      }
    }
  }

  lemma RowAppended(chapters: seq<Chapter>, row: Chapter, next: nat)
    requires ChaptersNumbered(chapters) && RowsOk(chapters, next) && 0 < next == row.id
    requires row.index == NextIndex(chapters) && Distinct(row.members)
    ensures ChaptersNumbered(chapters + [row]) && RowsOk(chapters + [row], next + 1)
  {
    NewRowLast(chapters, row, next);
    hide IdsOk, Distinct;
    assert forall c :: c in chapters + [row] ==> c == row || c in chapters;
  }

  lemma AddRowRows(order: seq<Name>, chapters: seq<Chapter>, next: nat, title: string, start: int, end: int)
    requires ChaptersNumbered(chapters) && RowsOk(chapters, next) && 0 < next
    ensures var r := AddRow(order, chapters, next, title, start, end).chapters;
      && ChaptersNumbered(r) && RowsOk(r, next + 1)
      && r[|chapters|].id == next && r[|chapters|].index == NextIndex(chapters)
  {
    var row := Chapter(next, NextIndex(chapters), title, start, end, []);
    var picked := Slice(order, start, end);
    assert Distinct(row.members);
    hide IdsOk, Distinct, Slice;
    RowAppended(chapters, if Distinct(picked) then row.(members := picked) else row, next);
  }

  /** The row one directory of an archive gets, before its own members are written. */
  function DirectoryRow(order: seq<Name>, group: (string, seq<Name>), chapters: seq<Chapter>, next: nat): (r: Rebuilt)
    requires NamedIn(order, group.1)
    ensures |r.chapters| == |chapters| + 1 && r.chapters[..|chapters|] == chapters
  {
    AddRow(order, chapters, next, DirectoryTitle(group.0), MinPosition(order, group.1), MaxPosition(order, group.1))
  }

  lemma ImportFirst(order: seq<Name>, groups: seq<(string, seq<Name>)>, chapters: seq<Chapter>, next: nat)
    requires GroupsNamed(order, groups) && groups != []
    ensures GroupsNamed(order, groups[1..]) && NamedIn(order, groups[0].1)
    ensures var members, added := groups[0].1, DirectoryRow(order, groups[0], chapters, next);
      ImportFrom(order, groups, chapters, next)
      == if !added.ok || !Distinct(members) then Imported(Rebuilt(added.chapters, false), next + 1)
         else ImportFrom(order, groups[1..], chapters + [added.chapters[|chapters|].(members := members)], next + 1)
  {
    hide AddRow, MinPosition, MaxPosition, NamedIn;
  }

  lemma DirectoryRows(order: seq<Name>, group: (string, seq<Name>), chapters: seq<Chapter>, next: nat)
    requires NamedIn(order, group.1) && ChaptersNumbered(chapters) && RowsOk(chapters, next) && 0 < next
    ensures var r := DirectoryRow(order, group, chapters, next).chapters;
      && ChaptersNumbered(r) && RowsOk(r, next + 1)
      && (Distinct(group.1) ==>
            var longer := chapters + [r[|chapters|].(members := group.1)];
            ChaptersNumbered(longer) && RowsOk(longer, next + 1))
  {
    hide MinPosition, MaxPosition, DirectoryTitle, AddRow, Distinct, ChaptersNumbered, RowsOk, NextIndex, NamedIn;
    AddRowRows(order, chapters, next, DirectoryTitle(group.0), MinPosition(order, group.1),
               MaxPosition(order, group.1));
    if Distinct(group.1) {
      RowAppended(chapters, DirectoryRow(order, group, chapters, next).chapters[|chapters|].(members := group.1), next);
    }
  }

  lemma {:induction false} ImportRows(order: seq<Name>, groups: seq<(string, seq<Name>)>, chapters: seq<Chapter>,
                                      next: nat)
    requires GroupsNamed(order, groups) && ChaptersNumbered(chapters) && RowsOk(chapters, next) && 0 < next
    ensures var r := ImportFrom(order, groups, chapters, next);
      ChaptersNumbered(r.rebuilt.chapters) && RowsOk(r.rebuilt.chapters, r.next) && 0 < r.next
    decreases |groups|
  {
    if groups != [] {
      ImportFirst(order, groups, chapters, next);
      hide ImportFrom, DirectoryRow, Distinct, ChaptersNumbered, RowsOk, NamedIn, GroupsNamed;
      DirectoryRows(order, groups[0], chapters, next);
      var added := DirectoryRow(order, groups[0], chapters, next);
      if added.ok && Distinct(groups[0].1) {
        ImportRows(order, groups[1..], chapters + [added.chapters[|chapters|].(members := groups[0].1)], next + 1);
      }
    }
  }

  lemma RewrittenRows(chapters: seq<Chapter>, k: nat, row: Chapter, next: nat)
    requires k < |chapters| && ChaptersNumbered(chapters) && RowsOk(chapters, next)
    requires row.id == chapters[k].id && row.index == chapters[k].index && Distinct(row.members)
    ensures ChaptersNumbered(chapters[k := row]) && RowsOk(chapters[k := row], next)
  {
    hide Distinct;
    assert forall c :: c in chapters[k := row] ==> c == row || c in chapters;
  }

  lemma DeletedRows(chapters: seq<Chapter>, k: nat, next: nat)
    requires k < |chapters| && RowsOk(chapters, next)
    ensures ChaptersNumbered(DeleteRow(chapters, k)) && RowsOk(DeleteRow(chapters, k), next)
  {
    assert chapters[..k] + [chapters[k]] + chapters[k + 1..] == chapters;
    hide IdsOk, Distinct, RenumberChapters, ChaptersNumbered;
    RowsDropped(chapters[..k], chapters[k], chapters[k + 1..], next);
    RowsRenumbered(RemoveAt(chapters, k), next);
  }
}
