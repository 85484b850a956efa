/** What the tables hold after an action that a repeated filename cuts short: how far each rewrite came. */
module CutShort {
  import opened Rating
  import opened PageOrder
  import opened WorkModel
  import opened Editor
  import opened Pages
  import opened RepeatedNames

  // ---- Refitting the chapters

  /** A chapter with its range spanning the names selected for it, and its members not yet rewritten. */
  function Ranged(order: seq<Name>, c: Chapter, names: set<Name>): Chapter {
    var selected := Select(order, names);
    if selected == [] then c
    else c.(start := IndexOf(order, selected[0]) + 1, end := IndexOf(order, selected[|selected| - 1]) + 1)
  }

  lemma RefitStep(order: seq<Name>, done: seq<Chapter>, todo: seq<Chapter>, names: seq<set<Name>>)
    requires |names| == |todo| && todo != []
    ensures var (selected, c) := (Select(order, names[0]), Fit(order, todo[0], names[0]));
      RefitFrom(order, done, todo, names)
      == if !Distinct(selected) then
           Rebuilt(RenumberChapters(done + [Ranged(order, todo[0], names[0])] + todo[1..]), false)
         else RefitFrom(order, if c.None? then done else done + [c.value], todo[1..], names[1..])
  {
  }

  lemma FitAllCons(order: seq<Name>, chapters: seq<Chapter>, names: seq<set<Name>>, k: nat)
    requires |names| == |chapters| && 0 < k <= |chapters|
    ensures var c := Fit(order, chapters[0], names[0]);
      FitAll(order, chapters[..k], names[..k])
      == (if c.None? then [] else [c.value]) + FitAll(order, chapters[1..][..k - 1], names[1..][..k - 1])
  {
    assert chapters[..k][1..] == chapters[1..][..k - 1] && names[..k][1..] == names[1..][..k - 1];
    hide Fit;
  }

  /**
   The table of a refit that stopped at the k-th chapter, the first that would get a repeated filename: the chapters
   before it are refitted, it has its new range but its old members, and those after it have at most a new index.
  */
  ghost predicate RefitUpTo(order: seq<Name>, done: seq<Chapter>, todo: seq<Chapter>, names: seq<set<Name>>, k: nat,
                            chapters: seq<Chapter>)
    requires |names| == |todo|
  {
    && k < |todo| && !Distinct(Select(order, names[k]))
    && (forall i :: 0 <= i < k ==> Distinct(Select(order, names[i])))
    && chapters == RenumberChapters(done + FitAll(order, todo[..k], names[..k])
                                    + [Ranged(order, todo[k], names[k])] + todo[k + 1..])
  }

  lemma RefitUpToFirst(order: seq<Name>, done: seq<Chapter>, todo: seq<Chapter>, names: seq<set<Name>>)
    requires |names| == |todo| && todo != [] && !Distinct(Select(order, names[0]))
    ensures RefitUpTo(order, done, todo, names, 0,
                      RenumberChapters(done + [Ranged(order, todo[0], names[0])] + todo[1..]))
  {
    assert done + FitAll(order, todo[..0], names[..0]) == done;
    hide Distinct, Select, Ranged, RenumberChapters;
  }

  lemma RefitUpToLater(order: seq<Name>, done: seq<Chapter>, todo: seq<Chapter>, names: seq<set<Name>>, k: nat,
                       chapters: seq<Chapter>)
    requires |names| == |todo| && todo != [] && Distinct(Select(order, names[0]))
    requires var c := Fit(order, todo[0], names[0]);
      RefitUpTo(order, if c.None? then done else done + [c.value], todo[1..], names[1..], k, chapters)
    ensures RefitUpTo(order, done, todo, names, k + 1, chapters)
  {
    hide Distinct, Select, Fit, FitAll, Ranged, RenumberChapters;
    FitAllCons(order, todo, names, k + 1);
    var c := Fit(order, todo[0], names[0]);
    var more := if c.None? then done else done + [c.value];
    assert more + FitAll(order, todo[1..][..k], names[1..][..k]) == done + FitAll(order, todo[..k + 1], names[..k + 1]);
    assert todo[1..][k + 1..] == todo[k + 2..];
    assert forall i :: 0 < i <= k + 1 ==> names[i] == names[1..][i - 1];
  }

  /** The loop of a reconciliation or a reorder stops there, and nowhere else. */
  lemma {:induction false} RefitStopsAt(order: seq<Name>, done: seq<Chapter>, todo: seq<Chapter>,
                                        names: seq<set<Name>>) returns (k: nat)
    requires |names| == |todo| && !RefitFrom(order, done, todo, names).ok
    ensures RefitUpTo(order, done, todo, names, k, RefitFrom(order, done, todo, names).chapters)
    decreases |todo|
  {
    assert todo != [];
    hide *;
    RefitStep(order, done, todo, names);
    if Distinct(Select(order, names[0])) {
      var c := Fit(order, todo[0], names[0]);
      var more := if c.None? then done else done + [c.value];
      var j := RefitStopsAt(order, more, todo[1..], names[1..]);
      RefitUpToLater(order, done, todo, names, j, RefitFrom(order, done, todo, names).chapters);
      k := j + 1;
    } else {
      RefitUpToFirst(order, done, todo, names);
      k := 0;
    }
  }

  // ---- Renaming a page in the member lists

  /** The renaming stops at the first list it would make repeat a name: those before it are renamed, the rest not. */
  lemma {:induction false} RemapStopsAt(done: seq<Chapter>, todo: seq<Chapter>, old_: Name, new_: Name) returns (k: nat)
    requires !RemapFrom(done, todo, old_, new_).ok
    ensures k < |todo| && !Renameable(todo[k].members, old_, new_)
    ensures forall i :: 0 <= i < k ==> Renameable(todo[i].members, old_, new_)
    ensures RemapFrom(done, todo, old_, new_).chapters == done + RemapAll(todo[..k], old_, new_) + todo[k..]
    decreases |todo|
  {
    hide Remap, Distinct;
    if Renameable(todo[0].members, old_, new_) {
      var row := todo[0].(members := Remap(todo[0].members, old_, new_));
      var j := RemapStopsAt(done + [row], todo[1..], old_, new_);
      k := j + 1;
      assert [row] + RemapAll(todo[1..][..j], old_, new_) == RemapAll(todo[..k], old_, new_);
      assert done + [row] + RemapAll(todo[1..][..j], old_, new_) == done + RemapAll(todo[..k], old_, new_);
      assert todo[1..][j..] == todo[k..];
      assert forall i :: 0 < i < k ==> todo[i] == todo[1..][i - 1];
    } else {
      k := 0;
      assert done + RemapAll(todo[..0], old_, new_) + todo == done + todo;
    }
  }

  /** A replacement cut short has the new page row; its chapters are as far as the renaming or the refit came. */
  lemma ReplaceCutShort(w: Work, index: int, row: Page, suggested: string, stamp: nat)
    requires Numbered(w.pages) && 1 <= index <= |w.pages| && stamp !in w.versions
    requires !DoReplacePage(w, index, row, suggested, stamp).ok
    ensures var o := DoReplacePage(w, index, row, suggested, stamp).work;
      var renamed := RemapFrom([], w.chapters, w.pages[index - 1].image, row.image);
      && o == w.(pages := w.pages[index - 1 := row.(index := index)], chapters := o.chapters)
      && o.chapters == if renamed.ok then Reconcile(Order(o.pages), "", renamed.chapters).chapters
                       else renamed.chapters
  {
    PageAtNumbered(w.pages, index);
    OrderReplaced(w.pages, index, row.(index := index));
    hide Reconcile, RemapFrom, Elevate, Replaced, PageAt;
  }

  // ---- Chapters of a page range

  /** A chapter over a range that repeats a name is left without members, and there is no snapshot. */
  lemma AddChapterCutShort(w: Work, title: string, start: int, end: int, stamp: nat)
    requires 1 <= start <= end <= |w.pages| && !Distinct(Order(w.pages)[start - 1..end])
    ensures var o := DoAddChapter(w, title, start, end, stamp);
      && !o.ok && |o.work.chapters| == |w.chapters| + 1 && o.work.chapters[..|w.chapters|] == w.chapters
      && var c := o.work.chapters[|w.chapters|];
         && c.id == w.nextChapterId && c.title == title && c.start == start && c.end == end && c.members == []
         && o.work == w.(chapters := o.work.chapters, nextChapterId := w.nextChapterId + 1)
  {
    assert Slice(Order(w.pages), start, end) == Order(w.pages)[start - 1..end];
    hide Distinct, Slice, NextIndex;
  }

  lemma {:induction false} PositionOf(chapters: seq<Chapter>, k: nat)
    requires k < |chapters| && forall j :: 0 <= j < k ==> chapters[j].id != chapters[k].id
    ensures ChapterPos(chapters, chapters[k].id) == k
  {
    if k > 0 {
      PositionOf(chapters[1..], k - 1);
    }
  }

  /** An update to such a range leaves title and range as asked and the members as they were. */
  lemma UpdateChapterCutShort(w: Work, k: nat, title: string, start: int, end: int, stamp: nat)
    requires 1 <= start <= end <= |w.pages| && !Distinct(Order(w.pages)[start - 1..end])
    requires k < |w.chapters| && forall j :: 0 <= j < k ==> w.chapters[j].id != w.chapters[k].id
    ensures var o := DoUpdateChapter(w, w.chapters[k].id, title, start, end, stamp);
      && !o.ok && |o.work.chapters| == |w.chapters|
      && o.work.chapters[k] == w.chapters[k].(title := title, start := start, end := end)
      && (forall i :: 0 <= i < |w.chapters| && i != k ==> o.work.chapters[i] == w.chapters[i])
      && o.work == w.(chapters := o.work.chapters)
  {
    assert ChapterPos(w.chapters, w.chapters[k].id) == k by {
      PositionOf(w.chapters, k);
    }
    hide Distinct, ChapterPos;
  }

  // ---- The chapters of an archive

  /** The first and the last page a directory has in the page order, later pages counting for a repeated name. */
  lemma {:induction false} PositionsMean(order: seq<Name>, members: seq<Name>)
    requires NamedIn(order, members)
    ensures forall n :: n in members ==>
              MinPosition(order, members) <= LastPosition(order, n) <= MaxPosition(order, members)
    ensures exists n :: n in members && LastPosition(order, n) == MinPosition(order, members)
    ensures exists n :: n in members && LastPosition(order, n) == MaxPosition(order, members)
  {
    if |members| > 1 {
      var rest := members[1..];
      PositionsMean(order, rest);
      assert forall n :: n in members <==> n == members[0] || n in rest;
      var first, last := LastPosition(order, members[0]), MaxPosition(order, rest);
      if first <= MinPosition(order, rest) {
        assert LastPosition(order, members[0]) == MinPosition(order, members);
      }
      if first >= last {
        assert LastPosition(order, members[0]) == MaxPosition(order, members);
      }
    } else {
      assert members == [members[0]];
      assert LastPosition(order, members[0]) == MinPosition(order, members) == MaxPosition(order, members);
    }
  }

  lemma {:induction false} LastPositionIsLast(order: seq<Name>, n: Name)
    requires n in order
    ensures n !in order[LastPosition(order, n)..]
  {
    if order[|order| - 1] != n {
      var front := order[..|order| - 1];
      LastPositionIsLast(front, n);
      assert order[LastPosition(order, n)..] == front[LastPosition(order, n)..] + [order[|order| - 1]];
    }
  }

  /** The row one directory is given: its title, its range, and the members `members`. */
  predicate Filed(order: seq<Name>, c: Chapter, group: (string, seq<Name>), members: seq<Name>)
    requires NamedIn(order, group.1)
  {
    && c.title == DirectoryTitle(group.0) && c.members == members
    && c.start == MinPosition(order, group.1) && c.end == MaxPosition(order, group.1)
  }

  lemma FirstDirectory(order: seq<Name>, groups: seq<(string, seq<Name>)>, chapters: seq<Chapter>, next: nat)
    returns (row: Chapter)
    requires GroupsNamed(order, groups) && groups != []
    ensures var members := groups[0].1;
      var spanned := Slice(order, MinPosition(order, members), MaxPosition(order, members));
      && Filed(order, row, groups[0], if Importable(order, members) then members
                                      else if Distinct(spanned) then spanned else [])
      && ImportFrom(order, groups, chapters, next)
         == if Importable(order, members) then ImportFrom(order, groups[1..], chapters + [row], next + 1)
            else Imported(Rebuilt(chapters + [row], false), next + 1)
  {
    hide MinPosition, MaxPosition, DirectoryTitle, Slice, Distinct, NextIndex;
    var members := groups[0].1;
    var added := AddRow(order, chapters, next, DirectoryTitle(groups[0].0),
                        MinPosition(order, members), MaxPosition(order, members));
    row := added.chapters[|chapters|];
    if Importable(order, members) {
      row := row.(members := members);
    }
  }

  /**
   The table of an import that stopped at the k-th directory, the first that repeats a name: those before it are
   chapters of their own pages; its own row has the pages it spans, or none if those repeat a name; and there is none
   for those after it.
  */
  ghost predicate ImportUpTo(order: seq<Name>, groups: seq<(string, seq<Name>)>, chapters: seq<Chapter>, k: nat,
                             made: seq<Chapter>)
    requires GroupsNamed(order, groups)
  {
    && k < |groups| && !Importable(order, groups[k].1)
    && |made| == |chapters| + k + 1 && made[..|chapters|] == chapters
    && (forall i :: 0 <= i < k ==> Filed(order, made[|chapters| + i], groups[i], groups[i].1))
    && var spanned := Slice(order, MinPosition(order, groups[k].1), MaxPosition(order, groups[k].1));
       Filed(order, made[|chapters| + k], groups[k], if Distinct(spanned) then spanned else [])
  }

  lemma ImportUpToLater(order: seq<Name>, groups: seq<(string, seq<Name>)>, chapters: seq<Chapter>, row: Chapter,
                        k: nat, made: seq<Chapter>)
    requires GroupsNamed(order, groups) && groups != [] && Filed(order, row, groups[0], groups[0].1)
    requires ImportUpTo(order, groups[1..], chapters + [row], k, made)
    ensures ImportUpTo(order, groups, chapters, k + 1, made)
  {
    hide Filed, Importable, MinPosition, MaxPosition, Slice, Distinct, NamedIn;
    assert groups[k + 1] == groups[1..][k];
    assert made[..|chapters| + 1][..|chapters|] == made[..|chapters|] && made[|chapters|] == row;
    forall i | 0 <= i < k + 1 ensures Filed(order, made[|chapters| + i], groups[i], groups[i].1) {
      if i > 0 {
        assert groups[i] == groups[1..][i - 1] && |chapters| + i == |chapters + [row]| + (i - 1);
      }
    }
  }

  lemma ImportUpToFirst(order: seq<Name>, groups: seq<(string, seq<Name>)>, chapters: seq<Chapter>, row: Chapter)
    requires GroupsNamed(order, groups) && groups != [] && !Importable(order, groups[0].1)
    requires var spanned := Slice(order, MinPosition(order, groups[0].1), MaxPosition(order, groups[0].1));
      Filed(order, row, groups[0], if Distinct(spanned) then spanned else [])
    ensures ImportUpTo(order, groups, chapters, 0, chapters + [row])
  {
    hide Filed, Importable, MinPosition, MaxPosition, Slice, Distinct, NamedIn;
  }

  /** An import that is cut short stops there. */
  lemma {:induction false} ImportStopsAt(order: seq<Name>, groups: seq<(string, seq<Name>)>, chapters: seq<Chapter>,
                                         next: nat) returns (k: nat)
    requires GroupsNamed(order, groups) && !ImportFrom(order, groups, chapters, next).rebuilt.ok
    ensures ImportUpTo(order, groups, chapters, k, ImportFrom(order, groups, chapters, next).rebuilt.chapters)
    decreases |groups|
  {
    assert groups != [] && GroupsNamed(order, groups[1..]);
    hide *;
    var row := FirstDirectory(order, groups, chapters, next);
    if Importable(order, groups[0].1) {
      var j := ImportStopsAt(order, groups[1..], chapters + [row], next + 1);
      k := j + 1;
      ImportUpToLater(order, groups, chapters, row, j, ImportFrom(order, groups, chapters, next).rebuilt.chapters);
    } else {
      k := 0;
      ImportUpToFirst(order, groups, chapters, row);
    }
  }
}
