/** A CBZ import files every page of a directory under one chapter, in page order. */
module CbzImport {
  import opened PageOrder
  import opened WorkModel
  import opened Editor
  import opened Pages
  import opened EditorProofs

  /** The pages of one directory, in page order. */
  function PagesOf(directories: seq<string>, names: seq<Name>, directory: string): seq<Name>
    requires |directories| == |names|
    decreases |names|
  {
    if names == [] then []
    else
      var last := |names| - 1;
      var before := PagesOf(directories[..last], names[..last], directory);
      if directories[last] == directory && names[last] != "" then before + [names[last]] else before
  }

  ghost predicate KeysDistinct(groups: seq<(string, seq<Name>)>) {
    forall i, j :: 0 <= i < j < |groups| ==> groups[i].0 != groups[j].0
  }

  /** What is filed under a directory, or nothing. */
  function Under(groups: seq<(string, seq<Name>)>, directory: string): seq<Name> {
    if groups == [] then []
    else if groups[0].0 == directory then groups[0].1
    else Under(groups[1..], directory)
  }

  lemma {:induction false} FileUnder(groups: seq<(string, seq<Name>)>, directory: string, n: Name, other: string)
    ensures Under(File(groups, directory, n), other)
            == if other == directory then Under(groups, other) + [n] else Under(groups, other)
  {
    if groups != [] && groups[0].0 != directory {
      FileUnder(groups[1..], directory, n, other);
    }
  }

  lemma {:induction false} FileKeys(groups: seq<(string, seq<Name>)>, directory: string, n: Name)
    requires KeysDistinct(groups)
    ensures KeysDistinct(File(groups, directory, n))
    ensures forall g :: g in File(groups, directory, n) ==> g.0 == directory || exists h :: h in groups && h.0 == g.0
  {
    if groups != [] && groups[0].0 != directory {
      var tail := groups[1..];
      assert forall i :: 0 <= i < |tail| ==> tail[i] == groups[i + 1];
      FileKeys(tail, directory, n);
      var filed := File(tail, directory, n);
      forall i | 0 <= i < |filed| ensures filed[i].0 != groups[0].0 {
        assert filed[i] in filed;
        if filed[i].0 != directory {
          var h :| h in tail && h.0 == filed[i].0;
        }
      }
      assert File(groups, directory, n) == [groups[0]] + filed;
      forall g | g in File(groups, directory, n) ensures g.0 == directory || exists h :: h in groups && h.0 == g.0 {
        if g != groups[0] && g.0 != directory {
          var h :| h in tail && h.0 == g.0;
          assert h in groups;
        }
      }
    }
  }

  /** Grouping collects exactly the pages of each directory, and each directory once. */
  lemma {:induction false} GroupedUnder(directories: seq<string>, names: seq<Name>, directory: string)
    requires |directories| == |names| && directory != ""
    ensures Under(Grouped(directories, names), directory) == PagesOf(directories, names, directory)
    ensures KeysDistinct(Grouped(directories, names))
    decreases |names|
  {
    if names != [] {
      var last := |names| - 1;
      var groups := Grouped(directories[..last], names[..last]);
      GroupedUnder(directories[..last], names[..last], directory);
      if directories[last] != "" && names[last] != "" {
        FileUnder(groups, directories[last], names[last], directory);
        FileKeys(groups, directories[last], names[last]);
      }
    }
  }

  // ---- Every group is an increasing run of the page order

  ghost predicate RunOf(order: seq<Name>, limit: nat, members: seq<Name>)
    requires limit <= |order|
  {
    members != [] && Follows(order, members) && forall n :: n in members ==> n in order[..limit]
  }

  ghost predicate Runs(order: seq<Name>, limit: nat, groups: seq<(string, seq<Name>)>)
    requires limit <= |order|
  {
    forall i :: 0 <= i < |groups| ==> RunOf(order, limit, groups[i].1)
  }

  lemma RunExtends(order: seq<Name>, limit: nat, members: seq<Name>)
    requires limit < |order| && Distinct(order)
    requires members == [] || RunOf(order, limit, members)
    ensures RunOf(order, limit + 1, members + [order[limit]])
  {
    var more := members + [order[limit]];
    assert order[..limit + 1][limit] == order[limit];
    IndexOfUnique(order, limit);
    forall n | n in more ensures n in order[..limit + 1] && n in order {
      if n in members {
        assert n in order[..limit];
        var i :| 0 <= i < limit && order[..limit][i] == n;
        assert order[..limit + 1][i] == n;
      }
    }
    forall i, j | 0 <= i < j < |more| ensures IndexOf(order, more[i]) < IndexOf(order, more[j]) {
      assert more[i] == members[i] && more[i] in order[..limit];
      var p :| 0 <= p < limit && order[..limit][p] == more[i];
      IndexOfUnique(order, p);
      assert j < |members| ==> more[j] == members[j];
    }
  }

  lemma RunsWiden(order: seq<Name>, limit: nat, groups: seq<(string, seq<Name>)>)
    requires limit < |order| && Runs(order, limit, groups)
    ensures Runs(order, limit + 1, groups)
  {
    assert order[..limit + 1] == order[..limit] + [order[limit]];
  }

  lemma {:induction false} FileRuns(order: seq<Name>, limit: nat, groups: seq<(string, seq<Name>)>, directory: string)
    requires limit < |order| && Distinct(order) && Runs(order, limit, groups)
    ensures Runs(order, limit + 1, File(groups, directory, order[limit]))
  {
    RunsWiden(order, limit, groups);
    if groups == [] {
      RunExtends(order, limit, []);
      assert [] + [order[limit]] == [order[limit]];
    } else if groups[0].0 == directory {
      RunExtends(order, limit, groups[0].1);
    } else {
      FileRuns(order, limit, groups[1..], directory);
    }
  }

  lemma {:induction false} GroupedRuns(directories: seq<string>, order: seq<Name>, limit: nat)
    requires |directories| == |order| && limit <= |order| && Distinct(order)
    ensures Runs(order, limit, Grouped(directories[..limit], order[..limit]))
    decreases limit
  {
    if limit > 0 {
      var last := limit - 1;
      GroupedRuns(directories, order, last);
      assert directories[..limit][..last] == directories[..last] && order[..limit][..last] == order[..last];
      var groups := Grouped(directories[..last], order[..last]);
      RunsWiden(order, last, groups);
      FileRuns(order, last, groups, directories[last]);
    }
  }

  // ---- Positions

  lemma {:induction false} LastPositionUnique(order: seq<Name>, n: Name)
    requires Distinct(order) && n in order
    ensures LastPosition(order, n) == IndexOf(order, n) + 1
  {
    IndexOfUnique(order, LastPosition(order, n) - 1);
  }

  lemma FollowsRest(order: seq<Name>, members: seq<Name>)
    requires Follows(order, members) && |members| > 1
    ensures Follows(order, members[1..])
    ensures members[0] in order && members[1] in order && members[|members| - 1] in order
    ensures IndexOf(order, members[0]) < IndexOf(order, members[1])
            && IndexOf(order, members[0]) < IndexOf(order, members[|members| - 1])
  {
    var rest := members[1..];
    assert forall i :: 0 <= i < |rest| ==> rest[i] == members[i + 1];
  }

  lemma {:induction false} RunBounds(order: seq<Name>, members: seq<Name>)
    requires Distinct(order) && members != [] && Follows(order, members)
    ensures MinPosition(order, members) == IndexOf(order, members[0]) + 1
    ensures MaxPosition(order, members) == IndexOf(order, members[|members| - 1]) + 1
    decreases |members|
  {
    LastPositionUnique(order, members[0]);
    if |members| > 1 {
      FollowsRest(order, members);
      hide Follows, Distinct;
      RunBounds(order, members[1..]);
    }
  }

  lemma SliceDistinct(order: seq<Name>, start: int, end: int)
    requires Distinct(order)
    ensures Distinct(Slice(order, start, end))
  {
  }

  /** The chapter an import makes from a directory. */
  ghost predicate MadeFrom(order: seq<Name>, c: Chapter, group: (string, seq<Name>)) {
    c.title == DirectoryTitle(group.0) && c.members == group.1 && Fits(order, c)
  }

  /** The row made from one directory. */
  function RowFor(order: seq<Name>, group: (string, seq<Name>), id: nat, index: nat): Chapter
    requires NamedIn(order, group.1)
  {
    Chapter(id, index, DirectoryTitle(group.0), MinPosition(order, group.1), MaxPosition(order, group.1), group.1)
  }

  function RowsFor(order: seq<Name>, groups: seq<(string, seq<Name>)>, id: nat, index: nat): (r: seq<Chapter>)
    requires GroupsNamed(order, groups)
    ensures |r| == |groups|
  {
    seq(|groups|, i requires 0 <= i < |groups| => RowFor(order, groups[i], id + i, index + i))
  }

  lemma RowForFits(order: seq<Name>, group: (string, seq<Name>), id: nat, index: nat)
    requires Distinct(order) && RunOf(order, |order|, group.1)
    ensures NamedIn(order, group.1) && MadeFrom(order, RowFor(order, group, id, index), group) && Distinct(group.1)
  {
    RunBounds(order, group.1);
    FollowsDistinct(order, group.1);
  }

  /** Adding a chapter row to a page order without repeats always goes through. */
  lemma AddRowMakes(order: seq<Name>, chapters: seq<Chapter>, id: nat, title: string, start: int, end: int)
    requires Distinct(order) && ChaptersNumbered(chapters)
    ensures AddRow(order, chapters, id, title, start, end)
      == Rebuilt(chapters + [Chapter(id, |chapters| + 1, title, start, end, Slice(order, start, end))], true)
  {
    SliceDistinct(order, start, end);
    assert NextIndex(chapters) == |chapters| + 1;
  }

  lemma RowsForStep(order: seq<Name>, groups: seq<(string, seq<Name>)>, id: nat, index: nat)
    requires groups != [] && GroupsNamed(order, groups)
    ensures RowsFor(order, groups, id, index)
      == [RowFor(order, groups[0], id, index)] + RowsFor(order, groups[1..], id + 1, index + 1)
  {
    hide RowFor;
  }

  /** The statement-by-statement import of the chapters adds one row per directory. */
  lemma {:induction false} ImportMakes(order: seq<Name>, groups: seq<(string, seq<Name>)>, chapters: seq<Chapter>,
                                       next: nat)
    requires Distinct(order) && GroupsNamed(order, groups) && Runs(order, |order|, groups)
    requires ChaptersNumbered(chapters)
    ensures ImportFrom(order, groups, chapters, next)
      == Imported(Rebuilt(chapters + RowsFor(order, groups, next, |chapters| + 1), true), next + |groups|)
    decreases |groups|
  {
    hide DirectoryTitle, MinPosition, MaxPosition, Follows, Fits, Slice, AddRow;
    if groups == [] {
      assert chapters + [] == chapters;
    } else {
      RowForFits(order, groups[0], next, |chapters| + 1);
      var row := RowFor(order, groups[0], next, |chapters| + 1);
      AddRowMakes(order, chapters, next, row.title, row.start, row.end);
      ImportMakes(order, groups[1..], chapters + [row], next + 1);
      RowsForStep(order, groups, next, |chapters| + 1);
    }
  }

  lemma RowsForFit(order: seq<Name>, groups: seq<(string, seq<Name>)>, id: nat)
    requires Distinct(order) && GroupsNamed(order, groups) && Runs(order, |order|, groups) && 0 < id
    ensures var rows := RowsFor(order, groups, id, 1);
      && (forall i :: 0 <= i < |groups| ==> MadeFrom(order, rows[i], groups[i]))
      && (forall c :: c in rows ==> Fits(order, c) && Distinct(c.members))
      && ChaptersNumbered(rows) && IdsOk(rows, id + |groups|)
  {
    hide DirectoryTitle, MinPosition, MaxPosition, Fits, Follows;
    var rows := RowsFor(order, groups, id, 1);
    forall i | 0 <= i < |groups| ensures MadeFrom(order, rows[i], groups[i]) && Distinct(rows[i].members) {
      RowForFits(order, groups[i], id + i, 1 + i);
    }
  }

  /** The tables an import leaves when no filename repeats. */
  function ImportedTables(w: Work, rows: seq<Page>, directories: seq<string>, rating: string): Work
    requires |rows| == |directories|
  {
    var pages := Renumber(rows);
    var groups := Grouped(directories, Order(pages));
    GroupedNamed(Order(pages), directories, Order(pages));
    w.(pages := pages, pageCount := |pages|, rating := rating,
       chapters := RowsFor(Order(pages), groups, w.nextChapterId, 1), nextChapterId := w.nextChapterId + |groups|)
  }

  lemma ImportedTablesFit(w: Work, rows: seq<Page>, directories: seq<string>, rating: string)
    requires TablesOk(w) && |rows| == |directories| && Distinct(Order(rows)) && "" !in Order(rows)
    ensures EditorInvariant(ImportedTables(w, rows, directories, rating))
    ensures var groups := Grouped(directories, Order(rows));
      var chapters := ImportedTables(w, rows, directories, rating).chapters;
      |chapters| == |groups| && forall i :: 0 <= i < |groups| ==> MadeFrom(Order(rows), chapters[i], groups[i])
  {
    hide MadeFrom, Fits, RowsFor, Distinct, Grouped;
    RenumberNumbers(rows);
    var order := Order(rows);
    GroupedNamed(order, directories, order);
    GroupedRuns(directories, order, |order|);
    assert directories[..|order|] == directories && order[..|order|] == order;
    RowsForFit(order, Grouped(directories, order), w.nextChapterId);
  }

  lemma ImportedVersions(w: Work, rows: seq<Page>, directories: seq<string>, rating: string)
    requires |rows| == |directories|
    ensures ImportedTables(w, rows, directories, rating).versions == w.versions
  {
  }

  lemma DoImportIs(w: Work, rows: seq<Page>, directories: seq<string>, rating: string, stamp: nat)
    requires |rows| == |directories| && Distinct(Order(rows))
    ensures DoImport(w, rows, directories, rating, stamp)
            == Snapshot(ImportedTables(w, rows, directories, rating), stamp)
  {
    hide RowsFor, Distinct, Grouped, Snapshot, ImportFrom, Renumber;
    RenumberNumbers(rows);
    var order := Order(rows);
    GroupedNamed(order, directories, order);
    GroupedRuns(directories, order, |order|);
    assert directories[..|order|] == directories && order[..|order|] == order;
    var made := RowsFor(order, Grouped(directories, order), w.nextChapterId, 1);
    ImportMakes(order, Grouped(directories, order), [], w.nextChapterId);
    assert [] + made == made;
  }

  /** An import with distinct filenames completes, and makes one fitting chapter per directory, in order. */
  lemma ImportKeeps(w: Work, rows: seq<Page>, directories: seq<string>, rating: string, stamp: nat)
    requires TablesOk(w) && |rows| == |directories| && Distinct(Order(rows)) && "" !in Order(rows)
    ensures Completed(w, DoImport(w, rows, directories, rating, stamp), stamp)
    ensures SamePagesAndChapters(DoImport(w, rows, directories, rating, stamp).work,
                                 ImportedTables(w, rows, directories, rating))
  {
    hide EditorInvariant, Distinct, ImportedTables, DoImport, Fits;
    DoImportIs(w, rows, directories, rating, stamp);
    ImportedTablesFit(w, rows, directories, rating);
    ImportedVersions(w, rows, directories, rating);
    SnapshotCompletes(w, ImportedTables(w, rows, directories, rating), stamp);
  }

  lemma {:induction false} UnderFound(groups: seq<(string, seq<Name>)>, directory: string)
    requires Under(groups, directory) != []
    ensures exists i :: 0 <= i < |groups| && groups[i].0 == directory && groups[i].1 == Under(groups, directory)
  {
    if groups[0].0 != directory {
      UnderFound(groups[1..], directory);
      var i :| 0 <= i < |groups[1..]| && groups[1..][i].0 == directory && groups[1..][i].1 == Under(groups, directory);
      assert groups[i + 1] == groups[1..][i];
    } else {
      assert groups[0].1 == Under(groups, directory);
    }
  }

  /** Every directory with pages becomes a chapter that holds exactly its pages, in page order. */
  lemma DirectoryBecomesChapter(w: Work, rows: seq<Page>, directories: seq<string>, rating: string, directory: string)
    requires TablesOk(w) && |rows| == |directories| && Distinct(Order(rows)) && "" !in Order(rows)
    requires directory != "" && PagesOf(directories, Order(rows), directory) != []
    ensures exists c ::
      && c in ImportedTables(w, rows, directories, rating).chapters
      && c.title == DirectoryTitle(directory) && c.members == PagesOf(directories, Order(rows), directory)
      && Fits(Order(rows), c)
  {
    hide Fits, Follows, DirectoryTitle, EditorInvariant, ImportedTables, Grouped;
    ImportedTablesFit(w, rows, directories, rating);
    var groups := Grouped(directories, Order(rows));
    var chapters := ImportedTables(w, rows, directories, rating).chapters;
    GroupedUnder(directories, Order(rows), directory);
    UnderFound(groups, directory);
    var i :| 0 <= i < |groups| && groups[i].0 == directory && groups[i].1 == Under(groups, directory);
    assert MadeFrom(Order(rows), chapters[i], groups[i]);
    assert chapters[i] in chapters;
  }
}
