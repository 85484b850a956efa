/**
 The tables behind one comic work, and the page and chapter rewrites of the editor
 as functions of those tables.

 A work's chapter rows are kept in `chapter_index` order, each together with its member
 list (the rows of `work_chapter_pages` in `position` order).
*/
module WorkModel {
  import opened Wrappers
  import opened PageOrder

  datatype Page = Page(index: nat, image: Name, thumb: Option<Name>, width: Option<int>, height: Option<int>)

  datatype Chapter = Chapter(id: nat, index: nat, title: string, start: int, end: int, members: seq<Name>)

  datatype Manifest = Manifest(pageCount: nat, rating: string, pages: seq<Page>, chapters: seq<Chapter>)

  datatype Work = Work(
    owner: Option<string>,
    pages: seq<Page>,
    pageCount: nat,
    rating: string,
    chapters: seq<Chapter>,
    nextChapterId: nat,
    versions: map<nat, Manifest>)

  /** A table after a rewrite, and whether every statement of the rewrite went through. */
  datatype Rebuilt = Rebuilt(chapters: seq<Chapter>, ok: bool)

  // ---- Pages

  function Order(pages: seq<Page>): (r: seq<Name>)
    ensures |r| == |pages|
  {
    seq(|pages|, i requires 0 <= i < |pages| => pages[i].image)
  }

  /** `page_index` rewritten to 1, 2, ... in list order; the other columns stay with their row. */
  function Renumber(pages: seq<Page>): (r: seq<Page>)
    ensures |r| == |pages|
  {
    seq(|pages|, i requires 0 <= i < |pages| => pages[i].(index := i + 1))
  }

  predicate Numbered(pages: seq<Page>) {
    forall i :: 0 <= i < |pages| ==> pages[i].index == i + 1
  }

  function RemoveAt<T>(s: seq<T>, i: nat): (r: seq<T>)
    requires i < |s|
    ensures |r| == |s| - 1
  {
    s[..i] + s[i + 1..]
  }

  function InsertAt<T>(s: seq<T>, i: nat, x: T): (r: seq<T>)
    requires i <= |s|
    ensures |r| == |s| + 1
  {
    s[..i] + [x] + s[i..]
  }

  /** `[page for page in pages if page["page_index"] != index]` */
  function Without(pages: seq<Page>, index: int): (r: seq<Page>)
    ensures |r| <= |pages|
  {
    if pages == [] then []
    else if pages[0].index == index then Without(pages[1..], index)
    else [pages[0]] + Without(pages[1..], index)
  }

  /** The first page with the given index, if any. */
  function PageAt(pages: seq<Page>, index: int): Option<Page> {
    if pages == [] then None
    else if pages[0].index == index then Some(pages[0])
    else PageAt(pages[1..], index)
  }

  /** Every row with the given index replaced by `row`. */
  function Replaced(pages: seq<Page>, index: int, row: Page): (r: seq<Page>)
    ensures |r| == |pages|
  {
    seq(|pages|, i requires 0 <= i < |pages| => if pages[i].index == index then row else pages[i])
  }

  /** Where a new page goes: after a valid 1-based index, and otherwise at the end. */
  function InsertPosition(count: nat, after: int): (r: nat)
    ensures r <= count
  {
    if 1 <= after <= count then after else count
  }

  function Moved(pages: seq<Page>, from: nat, to: nat): (r: seq<Page>)
    requires 1 <= from <= |pages| && 1 <= to <= |pages|
    ensures |r| == |pages|
  {
    Renumber(InsertAt(RemoveAt(pages, from - 1), to - 1, pages[from - 1]))
  }

  // ---- Gallery order

  /** The last row with the given filename, as the dictionary `by_filename` keeps it. */
  function RowNamed(pages: seq<Page>, n: Name): (p: Page)
    requires n in Order(pages)
    ensures p in pages && p.image == n
  {
    if pages[|pages| - 1].image == n then pages[|pages| - 1]
    else
      assert Order(pages)[..|pages| - 1] == Order(pages[..|pages| - 1]);
      RowNamed(pages[..|pages| - 1], n)
  }

  /** The requested names that exist, each at its first mention. */
  function FirstMentions(requested: seq<Name>, known: set<Name>, seen: set<Name>): seq<Name>
    decreases |requested|
  {
    if requested == [] then []
    else if requested[0] in known && requested[0] !in seen then
      [requested[0]] + FirstMentions(requested[1..], known, seen + {requested[0]})
    else FirstMentions(requested[1..], known, seen)
  }

  // ---- Chapters

  function RenumberChapters(chapters: seq<Chapter>): (r: seq<Chapter>)
    ensures |r| == |chapters|
  {
    seq(|chapters|, i requires 0 <= i < |chapters| => chapters[i].(index := i + 1))
  }

  function Max(a: int, b: int): int {
    if a >= b then a else b
  }

  function Min(a: int, b: int): int {
    if a <= b then a else b
  }

  /** `_chapter_seed_members_from_range` */
  function Seed(order: seq<Name>, c: Chapter): seq<Name> {
    var start := Max(1, Min(c.start, if order == [] then 1 else |order|));
    var end := Max(start, Min(c.end, if order == [] then start else |order|));
    if order == [] then [] else order[start - 1..end]
  }

  /** The names a chapter keeps when the pages change: its members, or its page range if it has none. */
  function Kept(order: seq<Name>, removed: Name, c: Chapter): set<Name> {
    Names(if c.members == [] then Seed(order, c) else c.members) - (if removed == "" then {} else {removed})
  }

  /** The chapter put back in page order with the given names, or nothing if no page is left for it. */
  function Fit(order: seq<Name>, c: Chapter, names: set<Name>): Option<Chapter> {
    var members := Select(order, names);
    if members == [] then None
    else
      Some(c.(start := IndexOf(order, members[0]) + 1,
              end := IndexOf(order, members[|members| - 1]) + 1,
              members := members))
  }

  /**
   The loop that refits every chapter: `done` is finished, `todo` is still as it was read. A chapter
   left without pages is deleted, and the remaining rows are renumbered. A member list with a
   repeated name violates the primary key of `work_chapter_pages`, and the rewrite stops there.
  */
  function RefitFrom(order: seq<Name>, done: seq<Chapter>, todo: seq<Chapter>, names: seq<set<Name>>): Rebuilt
    requires |names| == |todo|
    decreases |todo|
  {
    if todo == [] then Rebuilt(RenumberChapters(done), true)
    else
      match Fit(order, todo[0], names[0])
      case None => RefitFrom(order, done, todo[1..], names[1..])
      case Some(c) =>
        if Distinct(c.members) then RefitFrom(order, done + [c], todo[1..], names[1..])
        else Rebuilt(RenumberChapters(done + [c.(members := todo[0].members)] + todo[1..]), false)
  }

  /** The chapters that still have pages, refitted, before renumbering. */
  function FitAll(order: seq<Name>, chapters: seq<Chapter>, names: seq<set<Name>>): seq<Chapter>
    requires |names| == |chapters|
  {
    if chapters == [] then []
    else
      var rest := FitAll(order, chapters[1..], names[1..]);
      match Fit(order, chapters[0], names[0])
      case None => rest
      case Some(c) => [c] + rest
  }

  function KeptNames(order: seq<Name>, removed: Name, chapters: seq<Chapter>): (r: seq<set<Name>>)
    ensures |r| == |chapters|
  {
    seq(|chapters|, i requires 0 <= i < |chapters| => Kept(order, removed, chapters[i]))
  }

  /** `_reconcile_chapters_after_page_changes` */
  function Reconcile(order: seq<Name>, removed: Name, chapters: seq<Chapter>): Rebuilt {
    RefitFrom(order, [], chapters, KeptNames(order, removed, chapters))
  }

  /** What a gallery reorder asks each chapter to hold: the request if there is one, else what it has. */
  function GalleryNames(order: seq<Name>, chapters: seq<Chapter>, request: map<nat, seq<Name>>): (r: seq<set<Name>>)
    ensures |r| == |chapters|
  {
    seq(|chapters|, i requires 0 <= i < |chapters| =>
      if chapters[i].id in request then Names(request[chapters[i].id]) else Kept(order, "", chapters[i]))
  }

  function Remap(members: seq<Name>, old_: Name, new_: Name): (r: seq<Name>)
    ensures |r| == |members|
  {
    seq(|members|, i requires 0 <= i < |members| => if members[i] == old_ then new_ else members[i])
  }

  /** The loop of a page replacement that renames the replaced image in every member list. */
  function RemapFrom(done: seq<Chapter>, todo: seq<Chapter>, old_: Name, new_: Name): Rebuilt
    decreases |todo|
  {
    if todo == [] then Rebuilt(done, true)
    else
      var members := Remap(todo[0].members, old_, new_);
      if members == todo[0].members || Distinct(members) then
        RemapFrom(done + [todo[0].(members := members)], todo[1..], old_, new_)
      else Rebuilt(done + todo, false)
  }

  function RemapAll(chapters: seq<Chapter>, old_: Name, new_: Name): (r: seq<Chapter>)
    ensures |r| == |chapters|
  {
    seq(|chapters|, i requires 0 <= i < |chapters| =>
      chapters[i].(members := Remap(chapters[i].members, old_, new_)))
  }

  /** Position of the chapter row with the given id, or the number of rows if there is none. */
  function ChapterPos(chapters: seq<Chapter>, id: int): (i: nat)
    ensures i <= |chapters|
    ensures i < |chapters| ==> chapters[i].id == id
    ensures forall j :: 0 <= j < i ==> chapters[j].id != id
  {
    if chapters == [] || chapters[0].id == id then 0 else 1 + ChapterPos(chapters[1..], id)
  }

  // ---- Version snapshots

  function ManifestOf(w: Work): Manifest {
    Manifest(w.pageCount, w.rating, w.pages, w.chapters)
  }

  /** The snapshot has the page rows of the work, its chapter rows with their members, its rating and page count. */
  predicate Describes(m: Manifest, w: Work) {
    && m.pages == w.pages && m.chapters == w.chapters
    && m.pageCount == w.pageCount && m.rating == w.rating
  }

  // ---- The editor invariant

  /** The member list is a non-empty increasing run through the page order, and the range spans it exactly. */
  ghost predicate Fits(order: seq<Name>, c: Chapter) {
    && c.members != []
    && Follows(order, c.members)
    && c.start == IndexOf(order, c.members[0]) + 1
    && c.end == IndexOf(order, c.members[|c.members| - 1]) + 1
  }

  ghost predicate ChaptersNumbered(chapters: seq<Chapter>) {
    forall i :: 0 <= i < |chapters| ==> chapters[i].index == i + 1
  }

  ghost predicate IdsOk(chapters: seq<Chapter>, next: nat) {
    && (forall i :: 0 <= i < |chapters| ==> 0 < chapters[i].id < next)
    && (forall i, j :: 0 <= i < j < |chapters| ==> chapters[i].id != chapters[j].id)
  }

  /** What the schema's keys and the row-level writes keep in every state, with or without repeated filenames. */
  ghost predicate TablesOk(w: Work) {
    && 0 < w.nextChapterId
    && Numbered(w.pages)
    && ChaptersNumbered(w.chapters)
    && IdsOk(w.chapters, w.nextChapterId)
    && (forall c :: c in w.chapters ==> Distinct(c.members))
  }

  ghost predicate EditorInvariant(w: Work) {
    && TablesOk(w)
    && w.pageCount == |w.pages|
    && Distinct(Order(w.pages)) && "" !in Order(w.pages)
    && (forall c :: c in w.chapters ==> Fits(Order(w.pages), c))
  }
}
