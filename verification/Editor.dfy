/**
 The steps a user can take on a comic work, as functions of its tables: every action rewrites
 the pages or chapters, refits the chapters, and records a version snapshot.
*/
module Editor {
  import opened Wrappers
  import opened Text
  import opened Rating
  import opened PageOrder
  import opened WorkModel

  datatype Action =
    | AddPage(row: Page, after: int, handed: string, suggested: string)
    | ReplacePage(index: int, row: Page, suggested: string)
    | DeletePage(index: int)
    | MovePage(from: int, to: int)
    | Reorder(names: seq<Name>, request: map<nat, seq<Name>>)
    | AddChapter(title: string, start: int, end: int)
    | UpdateChapter(id: int, title: string, start: int, end: int)
    | DeleteChapter(id: int)
    | EditMetadata(isAdmin: bool, rating: string)
    | ImportCbz(uploader: Option<string>, rows: seq<Page>, directories: seq<string>,
                metadata: string, suggestions: seq<string>, fallback: string)

  /** The tables after an action, and whether it completed. */
  datatype Outcome = Outcome(work: Work, ok: bool)

  /** A work that has just been created, before its first page. */
  function EmptyWork(owner: Option<string>): Work {
    Work(owner, [], 0, "Not Rated", [], 1, map[])
  }

  /** `_require_editor_owner` */
  predicate Owns(w: Work, actor: string) {
    w.owner.None? || w.owner.value == "" || w.owner.value == actor
  }

  /** `uploader_username = COALESCE(works.uploader_username, excluded.uploader_username)`. */
  function Claim(w: Work, uploader: Option<string>): Work {
    if w.owner.None? then w.(owner := uploader) else w
  }

  /** The rating a page is added under: elevated from the one handed in with it, if there is one. */
  function PageRating(current: string, handed: string, suggested: string): string {
    Elevate(if handed == "" then current else handed, suggested)
  }

  /** `create_work_version_snapshot`: the directory must not exist yet. */
  function Snapshot(w: Work, stamp: nat): Outcome {
    if stamp in w.versions then Outcome(w, false)
    else Outcome(w.(versions := w.versions[stamp := ManifestOf(w)]), true)
  }

  /** The end of an action: a rewrite that stopped half-way leaves no snapshot. */
  function Finish(w: Work, rebuilt: Rebuilt, stamp: nat): Outcome {
    if rebuilt.ok then Snapshot(w.(chapters := rebuilt.chapters, pageCount := |w.pages|), stamp)
    else Outcome(w.(chapters := rebuilt.chapters), false)
  }

  function DoAddPage(w: Work, row: Page, after: int, handed: string, suggested: string, stamp: nat): Outcome {
    var pages := Renumber(InsertAt(w.pages, InsertPosition(|w.pages|, after), row));
    var w1 := w.(pages := pages, pageCount := |pages|, rating := PageRating(w.rating, handed, suggested));
    Finish(w1, Reconcile(Order(pages), "", w.chapters), stamp)
  }

  function DoReplacePage(w: Work, index: int, row: Page, suggested: string, stamp: nat): Outcome {
    match PageAt(w.pages, index)
    case None => Outcome(w, false)
    case Some(current) =>
      var pages := Replaced(w.pages, index, row.(index := current.index));
      var remapped := RemapFrom([], w.chapters, current.image, row.image);
      if remapped.ok then
        var rebuilt := Reconcile(Order(pages), "", remapped.chapters);
        var newRating := if rebuilt.ok then Elevate(w.rating, suggested) else w.rating;
        Finish(w.(pages := pages, rating := newRating), rebuilt, stamp)
      else Outcome(w.(pages := pages, chapters := remapped.chapters), false)
  }

  function DoDeletePage(w: Work, index: int, stamp: nat): Outcome {
    match PageAt(w.pages, index)
    case None => Outcome(w, false)
    case Some(current) =>
      var pages := Renumber(Without(w.pages, index));
      Finish(w.(pages := pages), Reconcile(Order(pages), current.image, w.chapters), stamp)
  }

  function DoMovePage(w: Work, from: int, to: int, stamp: nat): Outcome {
    if from < 1 || from > |w.pages| || to < 1 || to > |w.pages| then Outcome(w, false)
    else
      var pages := Moved(w.pages, from, to);
      Finish(w.(pages := pages), Reconcile(Order(pages), "", w.chapters), stamp)
  }

  /** The page rows in a requested order of filenames. */
  function RowsNamed(pages: seq<Page>, names: seq<Name>): (r: seq<Page>)
    requires forall n :: n in names ==> n in Order(pages)
    ensures |r| == |names|
  {
    seq(|names|, i requires 0 <= i < |names| => RowNamed(pages, names[i]))
  }

  lemma {:induction false} MentionsKnown(requested: seq<Name>, known: set<Name>, seen: set<Name>)
    ensures forall n :: n in FirstMentions(requested, known, seen) <==> n in requested && n in known && n !in seen
    ensures Distinct(FirstMentions(requested, known, seen))
    decreases |requested|
  {
    if requested != [] {
      var rest := requested[1..];
      assert forall n :: n in requested <==> n == requested[0] || n in rest;
      if requested[0] in known && requested[0] !in seen {
        MentionsKnown(rest, known, seen + {requested[0]});
      } else {
        MentionsKnown(rest, known, seen);
      }
    }
  }

  /** The page names a request lists, repeats and unknown names dropped. */
  function NewOrder(pages: seq<Page>, requested: seq<Name>): (r: seq<Name>)
    ensures forall n :: n in r ==> n in Order(pages)
  {
    var known := Names(Order(pages)) - {""};
    MentionsKnown(requested, known, {});
    FirstMentions(requested, known, {})
  }

  function DoReorder(w: Work, names: seq<Name>, request: map<nat, seq<Name>>, stamp: nat): Outcome {
    var order := NewOrder(w.pages, names);
    if w.pages == [] || |order| != |Names(Order(w.pages)) - {""}| then Outcome(w, false)
    else
      var pages := Renumber(RowsNamed(w.pages, order));
      var rebuilt := RefitFrom(Order(pages), [], w.chapters, GalleryNames(Order(pages), w.chapters, request));
      Finish(w.(pages := pages), rebuilt, stamp)
  }

  // ---- Chapter rows

  /** `page_names[max(0, start - 1) : max(0, end)]` */
  function Slice(order: seq<Name>, start: int, end: int): seq<Name> {
    var hi := Min(Max(0, end), |order|);
    var lo := Min(Max(0, start - 1), hi);
    order[lo..hi]
  }

  function NextIndex(chapters: seq<Chapter>): nat {
    if chapters == [] then 1 else chapters[|chapters| - 1].index + 1
  }

  /** `add_work_chapter`: the row is committed before its members are written. */
  function AddRow(order: seq<Name>, chapters: seq<Chapter>, id: nat, title: string, start: int, end: int): (r: Rebuilt)
    ensures |r.chapters| == |chapters| + 1 && r.chapters[..|chapters|] == chapters
  {
    var row := Chapter(id, NextIndex(chapters), title, start, end, []);
    var picked := Slice(order, start, end);
    if Distinct(picked) then Rebuilt(chapters + [row.(members := picked)], true) else Rebuilt(chapters + [row], false)
  }

  predicate RangeOk(w: Work, start: int, end: int) {
    1 <= start <= end <= |w.pages|
  }

  function DoAddChapter(w: Work, title: string, start: int, end: int, stamp: nat): Outcome {
    if !RangeOk(w, start, end) then Outcome(w, false)
    else
      var added := AddRow(Order(w.pages), w.chapters, w.nextChapterId, title, start, end);
      var w1 := w.(chapters := added.chapters, nextChapterId := w.nextChapterId + 1);
      if added.ok then Snapshot(w1, stamp) else Outcome(w1, false)
  }

  function DoUpdateChapter(w: Work, id: int, title: string, start: int, end: int, stamp: nat): Outcome {
    var k := ChapterPos(w.chapters, id);
    if !RangeOk(w, start, end) || k == |w.chapters| then Outcome(w, false)
    else
      var picked := Order(w.pages)[start - 1..end];
      var row := w.chapters[k].(title := title, start := start, end := end);
      if Distinct(picked) then Snapshot(w.(chapters := w.chapters[k := row.(members := picked)]), stamp)
      else Outcome(w.(chapters := w.chapters[k := row]), false)
  }

  /** `delete_work_chapter` for a row that exists: remove it and close the gap in `chapter_index`. */
  function DeleteRow(chapters: seq<Chapter>, k: nat): seq<Chapter>
    requires k < |chapters|
  {
    RenumberChapters(RemoveAt(chapters, k))
  }

  function DoDeleteChapter(w: Work, id: int, stamp: nat): Outcome {
    var k := ChapterPos(w.chapters, id);
    if k == |w.chapters| then Outcome(w, false)
    else Snapshot(w.(chapters := DeleteRow(w.chapters, k)), stamp)
  }

  function DoEditMetadata(w: Work, isAdmin: bool, raw: string, stamp: nat): Outcome {
    if LocksDemotion(isAdmin, w.rating, Resolve(raw)) then Outcome(w, false)
    else Snapshot(w.(rating := Resolve(raw)), stamp)
  }

  // ---- CBZ import

  /** One page filed under its directory, directories in order of first appearance. */
  function File(groups: seq<(string, seq<Name>)>, directory: string, n: Name): seq<(string, seq<Name>)> {
    if groups == [] then [(directory, [n])]
    else if groups[0].0 == directory then [(directory, groups[0].1 + [n])] + groups[1..]
    else [groups[0]] + File(groups[1..], directory, n)
  }

  /** `_group_cbz_pages_by_directory` */
  function Grouped(directories: seq<string>, names: seq<Name>): seq<(string, seq<Name>)>
    requires |directories| == |names|
    decreases |names|
  {
    if names == [] then []
    else
      var last := |names| - 1;
      var groups := Grouped(directories[..last], names[..last]);
      if directories[last] == "" || names[last] == "" then groups else File(groups, directories[last], names[last])
  }

  /** `page_positions[n]`: the dictionary keeps the last page with the name. */
  function LastPosition(order: seq<Name>, n: Name): (p: nat)
    requires n in order
    ensures 1 <= p <= |order| && order[p - 1] == n
  {
    if order[|order| - 1] == n then |order| else LastPosition(order[..|order| - 1], n)
  }

  predicate NamedIn(order: seq<Name>, members: seq<Name>) {
    members != [] && forall n :: n in members ==> n in order
  }

  function MinPosition(order: seq<Name>, members: seq<Name>): nat
    requires NamedIn(order, members)
  {
    var p := LastPosition(order, members[0]);
    if |members| == 1 then p else Min(p, MinPosition(order, members[1..]))
  }

  function MaxPosition(order: seq<Name>, members: seq<Name>): nat
    requires NamedIn(order, members)
  {
    var p := LastPosition(order, members[0]);
    if |members| == 1 then p else Max(p, MaxPosition(order, members[1..]))
  }

  function TrimSlashes(s: string): string
    decreases |s|
  {
    if s != [] && s[0] == '/' then TrimSlashes(s[1..])
    else if s != [] && s[|s| - 1] == '/' then TrimSlashes(s[..|s| - 1])
    else s
  }

  /** `_chapter_title_from_cbz_directory` */
  function DirectoryTitle(directory: string): string {
    var title := TrimSlashes(Strip(directory));
    if title == "" then "Untitled Chapter" else title
  }

  datatype Imported = Imported(rebuilt: Rebuilt, next: nat)

  predicate GroupsNamed(order: seq<Name>, groups: seq<(string, seq<Name>)>) {
    forall i :: 0 <= i < |groups| ==> NamedIn(order, groups[i].1)
  }

  /** The chapters made from directories: each row is added with its page range, then given its own pages. */
  function ImportFrom(order: seq<Name>, groups: seq<(string, seq<Name>)>, chapters: seq<Chapter>, next: nat): Imported
    requires GroupsNamed(order, groups)
    decreases |groups|
  {
    if groups == [] then Imported(Rebuilt(chapters, true), next)
    else
      var members := groups[0].1;
      var added := AddRow(order, chapters, next, DirectoryTitle(groups[0].0),
                          MinPosition(order, members), MaxPosition(order, members));
      var row := added.chapters[|chapters|];
      if !added.ok || !Distinct(members) then Imported(Rebuilt(added.chapters, false), next + 1)
      else ImportFrom(order, groups[1..], chapters + [row.(members := members)], next + 1)
  }

  lemma {:induction false} FileNamed(order: seq<Name>, groups: seq<(string, seq<Name>)>, directory: string, n: Name)
    requires GroupsNamed(order, groups) && n in order
    ensures GroupsNamed(order, File(groups, directory, n))
  {
    if groups != [] && groups[0].0 != directory {
      FileNamed(order, groups[1..], directory, n);
    }
  }

  lemma {:induction false} GroupedNamed(order: seq<Name>, directories: seq<string>, names: seq<Name>)
    requires |directories| == |names| && forall n :: n in names ==> n in order
    ensures GroupsNamed(order, Grouped(directories, names))
    decreases |names|
  {
    if names != [] {
      var last := |names| - 1;
      GroupedNamed(order, directories[..last], names[..last]);
      if directories[last] != "" && names[last] != "" {
        FileNamed(order, Grouped(directories[..last], names[..last]), directories[last], names[last]);
      }
    }
  }

  function DoImport(w: Work, rows: seq<Page>, directories: seq<string>, rating: string, stamp: nat): Outcome
    requires |rows| == |directories|
  {
    var pages := Renumber(rows);
    GroupedNamed(Order(pages), directories, Order(pages));
    var imported := ImportFrom(Order(pages), Grouped(directories, Order(pages)), [], w.nextChapterId);
    var w1 := w.(pages := pages, pageCount := |pages|, rating := rating,
                 chapters := imported.rebuilt.chapters, nextChapterId := imported.next);
    if imported.rebuilt.ok then Snapshot(w1, stamp) else Outcome(w1, false)
  }

  // ---- One step

  function Owned(w: Work, actor: string, a: Action, stamp: nat): Outcome
    requires !a.EditMetadata? && !a.ImportCbz?
  {
    match a
    case AddPage(row, after, handed, suggested) =>
      DoAddPage(Claim(w, Some(actor)), row, after, handed, suggested, stamp)
    case ReplacePage(index, row, suggested) => DoReplacePage(w, index, row, suggested, stamp)
    case DeletePage(index) => DoDeletePage(w, index, stamp)
    case MovePage(from, to) => DoMovePage(w, from, to, stamp)
    case Reorder(names, request) => DoReorder(w, names, request, stamp)
    case AddChapter(title, start, end) => DoAddChapter(w, title, start, end, stamp)
    case UpdateChapter(id, title, start, end) => DoUpdateChapter(w, id, title, start, end, stamp)
    case DeleteChapter(id) => DoDeleteChapter(w, id, stamp)
  }

  function Step(w: Work, actor: string, a: Action, stamp: nat): Outcome {
    match a
    case EditMetadata(isAdmin, raw) => DoEditMetadata(w, isAdmin, raw, stamp)
    case ImportCbz(uploader, rows, directories, metadata, suggestions, fallback) =>
      // `zip` pairs every page with the archive member it came from; an archive has at least one.
      if |rows| != |directories| || rows == [] then Outcome(w, false)
      else DoImport(Claim(w, uploader), rows, directories, ImportRating(metadata, suggestions, fallback), stamp)
    case _ => if Owns(w, actor) then Owned(w, actor, a, stamp) else Outcome(w, false)
  }
}
