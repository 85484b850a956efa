/** Whole runs of editor actions: the invariant, the version history, undoing, and what becomes of the chapters. */
module EditorRuns {
  import opened Wrappers
  import opened Rating
  import opened PageOrder
  import opened WorkModel
  import opened Editor
  import opened Pages
  import opened Chapters
  import opened EditorProofs
  import opened CbzImport

  lemma InvariantTables(w: Work)
    requires EditorInvariant(w)
    ensures TablesOk(w)
  {
  }

  lemma EditMetadataKeeps(w: Work, isAdmin: bool, raw: string, stamp: nat)
    requires EditorInvariant(w)
    ensures var o := DoEditMetadata(w, isAdmin, raw, stamp);
      if LocksDemotion(isAdmin, w.rating, Resolve(raw)) then o == Outcome(w, false) else Completed(w, o, stamp)
  {
    hide LocksDemotion, Resolve;
    SnapshotCompletes(w, w.(rating := Resolve(raw)), stamp);
  }

  lemma AddStepKeeps(w: Work, actor: string, a: Action, stamp: nat)
    requires EditorInvariant(w) && FreshFor(w, a) && a.AddPage? && Owns(w, actor)
    ensures Completed(w, Step(w, actor, a, stamp), stamp)
  {
    ClaimKeeps(w, Some(actor));
    AddPageBecomes(Claim(w, Some(actor)), a.row, a.after, a.handed, a.suggested, stamp);
    hide EditorInvariant, DoAddPage;
  }

  lemma ImportStepKeeps(w: Work, actor: string, a: Action, stamp: nat)
    requires EditorInvariant(w) && FreshFor(w, a) && a.ImportCbz? && Allowed(w, actor, a)
    ensures Completed(w, Step(w, actor, a, stamp), stamp)
  {
    ClaimKeeps(w, a.uploader);
    InvariantTables(Claim(w, a.uploader));
    hide EditorInvariant, DoImport, ImportRating, TablesOk, Distinct;
    ImportKeeps(Claim(w, a.uploader), a.rows, a.directories, ImportRating(a.metadata, a.suggestions, a.fallback),
                stamp);
  }

  lemma PageStepKeeps(w: Work, actor: string, a: Action, stamp: nat)
    requires EditorInvariant(w) && FreshFor(w, a) && Owns(w, actor)
    requires a.ReplacePage? || a.DeletePage? || a.MovePage? || a.Reorder?
    ensures if Allowed(w, actor, a) then Completed(w, Step(w, actor, a, stamp), stamp)
            else Step(w, actor, a, stamp) == Outcome(w, false)
  {
    hide EditorInvariant, Completed, Owns, DoReplacePage, DoDeletePage, DoMovePage, DoReorder;
    match a
    case ReplacePage(index, row, suggested) => ReplacePageKeeps(w, index, row, suggested, stamp);
    case DeletePage(index) => DeletePageKeeps(w, index, stamp);
    case MovePage(from, to) => MovePageKeeps(w, from, to, stamp);
    case Reorder(names, request) => ReorderKeeps(w, names, request, stamp);
  }

  lemma ChapterStepKeeps(w: Work, actor: string, a: Action, stamp: nat)
    requires EditorInvariant(w) && Owns(w, actor) && (a.AddChapter? || a.UpdateChapter? || a.DeleteChapter?)
    ensures if Allowed(w, actor, a) then Completed(w, Step(w, actor, a, stamp), stamp)
            else Step(w, actor, a, stamp) == Outcome(w, false)
  {
    hide EditorInvariant, Completed, Owns, DoAddChapter, DoUpdateChapter, DoDeleteChapter;
    match a
    case AddChapter(title, start, end) => AddChapterKeeps(w, title, start, end, stamp);
    case UpdateChapter(id, title, start, end) => UpdateChapterKeeps(w, id, title, start, end, stamp);
    case DeleteChapter(id) => DeleteChapterKeeps(w, id, stamp);
  }

  /** Nobody but the owner gets past the dispatch of the owned actions. */
  lemma StrangerStops(w: Work, actor: string, a: Action, stamp: nat)
    requires !Owns(w, actor) && !a.EditMetadata? && !a.ImportCbz?
    ensures Step(w, actor, a, stamp) == Outcome(w, false) && !Allowed(w, actor, a)
  {
    hide Owned;
  }

  lemma MetadataStep(w: Work, actor: string, a: Action, stamp: nat)
    requires a.EditMetadata?
    ensures Step(w, actor, a, stamp) == DoEditMetadata(w, a.isAdmin, a.rating, stamp)
    ensures Allowed(w, actor, a) <==> !LocksDemotion(a.isAdmin, w.rating, Resolve(a.rating))
  {
    hide DoEditMetadata, LocksDemotion, Resolve, Owned, Owns, DoImport, ImportRating;
  }

  lemma ImportStepRefused(w: Work, actor: string, a: Action, stamp: nat)
    requires a.ImportCbz? && !Allowed(w, actor, a)
    ensures Step(w, actor, a, stamp) == Outcome(w, false)
  {
    hide DoEditMetadata, LocksDemotion, Resolve, Owned, Owns, DoImport, ImportRating;
  }

  lemma OpenStepKeeps(w: Work, actor: string, a: Action, stamp: nat)
    requires EditorInvariant(w) && FreshFor(w, a) && (a.EditMetadata? || a.ImportCbz?)
    ensures if Allowed(w, actor, a) then Completed(w, Step(w, actor, a, stamp), stamp)
            else Step(w, actor, a, stamp) == Outcome(w, false)
  {
    hide *;
    if a.EditMetadata? {
      MetadataStep(w, actor, a, stamp);
      EditMetadataKeeps(w, a.isAdmin, a.rating, stamp);
    } else if Allowed(w, actor, a) {
      ImportStepKeeps(w, actor, a, stamp);
    } else {
      ImportStepRefused(w, actor, a, stamp);
    }
  }

  lemma OwnedStepKeeps(w: Work, actor: string, a: Action, stamp: nat)
    requires EditorInvariant(w) && FreshFor(w, a) && !a.EditMetadata? && !a.ImportCbz?
    ensures if Allowed(w, actor, a) then Completed(w, Step(w, actor, a, stamp), stamp)
            else Step(w, actor, a, stamp) == Outcome(w, false)
  {
    hide EditorInvariant, Completed, FreshFor, Owns, Step;
    if !Owns(w, actor) {
      StrangerStops(w, actor, a, stamp);
    } else if a.AddPage? {
      AddStepKeeps(w, actor, a, stamp);
    } else if a.AddChapter? || a.UpdateChapter? || a.DeleteChapter? {
      ChapterStepKeeps(w, actor, a, stamp);
    } else {
      PageStepKeeps(w, actor, a, stamp);
    }
  }

  /** An action that brings in only new filenames either completes and keeps the invariant, or changes nothing. */
  lemma StepKeeps(w: Work, actor: string, a: Action, stamp: nat)
    requires EditorInvariant(w) && FreshFor(w, a)
    ensures if Allowed(w, actor, a) then Completed(w, Step(w, actor, a, stamp), stamp)
            else Step(w, actor, a, stamp) == Outcome(w, false)
  {
    hide *;
    if !a.EditMetadata? && !a.ImportCbz? {
      OwnedStepKeeps(w, actor, a, stamp);
    } else {
      OpenStepKeeps(w, actor, a, stamp);
    }
  }

  // ---- Version history, whatever the filenames

  /** A completed action adds one snapshot, of its own tables under a new version id; any other adds none. */
  ghost predicate Adds(versions: map<nat, Manifest>, o: Outcome, stamp: nat) {
    && (o.ok ==> stamp !in versions && o.work.versions - {stamp} == versions
                 && stamp in o.work.versions && Describes(o.work.versions[stamp], o.work))
    && (!o.ok ==> o.work.versions == versions)
  }

  lemma PageHistory(w: Work, actor: string, a: Action, stamp: nat)
    requires a.AddPage? || a.ReplacePage? || a.DeletePage? || a.MovePage?
    ensures Adds(w.versions, Owned(w, actor, a, stamp), stamp)
  {
    hide Reconcile, RemapFrom, Renumber, Replaced, Without, Moved, InsertAt, PageRating, Elevate;
  }

  lemma ReorderHistory(w: Work, names: seq<Name>, request: map<nat, seq<Name>>, stamp: nat)
    ensures Adds(w.versions, DoReorder(w, names, request, stamp), stamp)
  {
    hide RefitFrom, Renumber, NewOrder, RowsNamed, GalleryNames, Order, Names;
  }

  lemma ChapterHistory(w: Work, actor: string, a: Action, stamp: nat)
    requires a.AddChapter? || a.UpdateChapter? || a.DeleteChapter?
    ensures Adds(w.versions, Owned(w, actor, a, stamp), stamp)
  {
    hide AddRow, DeleteRow, Distinct;
  }

  lemma ImportHistory(w: Work, rows: seq<Page>, directories: seq<string>, rating: string, stamp: nat)
    requires |rows| == |directories|
    ensures Adds(w.versions, DoImport(w, rows, directories, rating, stamp), stamp)
  {
    hide ImportFrom, Grouped, Renumber;
  }

  lemma OwnedHistory(w: Work, actor: string, a: Action, stamp: nat)
    requires !a.EditMetadata? && !a.ImportCbz?
    ensures Adds(w.versions, Owned(w, actor, a, stamp), stamp)
  {
    if a.Reorder? {
      ReorderHistory(w, a.names, a.request, stamp);
      hide DoReorder;
    } else if a.AddChapter? || a.UpdateChapter? || a.DeleteChapter? {
      ChapterHistory(w, actor, a, stamp);
    } else {
      PageHistory(w, actor, a, stamp);
    }
    hide Owned;
  }

  /** Every action, on any tables: completed, refused or cut short. */
  lemma StepHistory(w: Work, actor: string, a: Action, stamp: nat)
    ensures Adds(w.versions, Step(w, actor, a, stamp), stamp)
  {
    hide Owned, Owns, DoImport, LocksDemotion, Resolve, ImportRating;
    if a.ImportCbz? {
      if |a.rows| == |a.directories| {
        var rating := ImportRating(a.metadata, a.suggestions, a.fallback);
        ImportHistory(Claim(w, a.uploader), a.rows, a.directories, rating, stamp);
      }
    } else if !a.EditMetadata? && Owns(w, actor) {
      OwnedHistory(w, actor, a, stamp);
    }
  }

  /** The newest snapshot is of this work; without any snapshot, it has no pages and no chapters yet. */
  ghost predicate Newest(versions: map<nat, Manifest>, w: Work) {
    if versions == map[] then w.pages == [] && w.chapters == []
    else exists v :: v in versions && (forall u :: u in versions ==> u <= v) && Describes(versions[v], w)
  }

  /** The newest snapshot describes the current tables; a work without snapshots has no pages yet. */
  ghost predicate Recorded(w: Work) {
    Newest(w.versions, w)
  }

  ghost predicate Later(w: Work, stamp: nat) {
    forall v :: v in w.versions ==> v < stamp
  }

  /** With a clock that moves forward, a completed action ends with the newest snapshot, its own; the rest stay. */
  lemma StepRecords(w: Work, actor: string, a: Action, stamp: nat)
    requires Later(w, stamp)
    ensures var o := Step(w, actor, a, stamp);
      && (o.ok ==> Recorded(o.work) && stamp in o.work.versions && Describes(o.work.versions[stamp], o.work))
      && (!o.ok ==> o.work.versions == w.versions)
      && (forall v :: v in w.versions ==> v in o.work.versions && o.work.versions[v] == w.versions[v])
      && (forall v :: v in o.work.versions ==> v in w.versions || (v == stamp && o.ok))
  {
    hide Step;
    StepHistory(w, actor, a, stamp);
    var o := Step(w, actor, a, stamp);
    if o.ok {
      assert Describes(o.work.versions[stamp], o.work);
      assert forall v :: v in o.work.versions <==> v in o.work.versions - {stamp} || v == stamp;
      assert forall v :: v in w.versions ==> (o.work.versions - {stamp})[v] == w.versions[v];
    }
  }

  datatype Event = Event(actor: string, action: Action, stamp: nat)

  function After(w: Work, e: Event): Outcome {
    Step(w, e.actor, e.action, e.stamp)
  }

  function Run(w: Work, events: seq<Event>): Work
    decreases |events|
  {
    if events == [] then w else Run(After(w, events[0]).work, events[1..])
  }

  /** The snapshot an action takes, if it completes. */
  function Taken(o: Outcome, stamp: nat): map<nat, Manifest> {
    if o.ok then map[stamp := ManifestOf(o.work)] else map[]
  }

  /** The snapshots taken by the actions of a run that complete. */
  function Snapshots(w: Work, events: seq<Event>): map<nat, Manifest>
    decreases |events|
  {
    if events == [] then map[]
    else
      var o := After(w, events[0]);
      Taken(o, events[0].stamp) + Snapshots(o.work, events[1..])
  }

  lemma AddsTaken(versions: map<nat, Manifest>, o: Outcome, stamp: nat)
    requires Adds(versions, o, stamp)
    ensures o.work.versions == versions + Taken(o, stamp) && versions.Keys !! Taken(o, stamp).Keys
  {
    if o.ok {
      assert o.work.versions[stamp] == ManifestOf(o.work);
      assert o.work.versions == (o.work.versions - {stamp})[stamp := o.work.versions[stamp]];
      assert versions[stamp := ManifestOf(o.work)] == versions + map[stamp := ManifestOf(o.work)];
    }
    hide ManifestOf;
  }

  lemma HistoryChains<V>(before: map<nat, V>, own: map<nat, V>, rest: map<nat, V>)
    requires before.Keys !! own.Keys && (before + own).Keys !! rest.Keys
    ensures before.Keys !! (own + rest).Keys && before + own + rest == before + (own + rest)
  {
  }

  /**
   Over any run at all, cut short actions and repeated filenames included, the history is what was there before
   and what the completed actions added: no snapshot is ever changed, dropped or taken over.
  */
  lemma {:induction false} RunHistory(w: Work, events: seq<Event>)
    ensures w.versions.Keys !! Snapshots(w, events).Keys
    ensures Run(w, events).versions == w.versions + Snapshots(w, events)
    ensures forall v :: v in w.versions ==> v in Run(w, events).versions && Run(w, events).versions[v] == w.versions[v]
    decreases |events|
  {
    hide Step, Taken, Adds;
    if events != [] {
      var o := After(w, events[0]);
      StepHistory(w, events[0].actor, events[0].action, events[0].stamp);
      AddsTaken(w.versions, o, events[0].stamp);
      RunHistory(o.work, events[1..]);
      HistoryChains(w.versions, Taken(o, events[0].stamp), Snapshots(o.work, events[1..]));
    }
  }

  /** The state before the k-th action of a run. */
  function Before(w: Work, events: seq<Event>, k: nat): Work
    requires k <= |events|
    decreases k
  {
    if k == 0 then w else Before(After(w, events[0]).work, events[1..], k - 1)
  }

  lemma RunUnfolds(w: Work, events: seq<Event>)
    requires events != []
    ensures Run(w, events) == Run(After(w, events[0]).work, events[1..])
  {
    hide Step;
  }

  /** Each action that completes leaves, at the end of the run too, a snapshot of the tables as it left them. */
  lemma {:induction false} EachCompletedIsKept(w: Work, events: seq<Event>, k: nat)
    requires k < |events| && After(Before(w, events, k), events[k]).ok
    ensures var versions, o := Run(w, events).versions, After(Before(w, events, k), events[k]);
      events[k].stamp in versions && Describes(versions[events[k].stamp], o.work)
    decreases k
  {
    hide Step, Describes, Run;
    RunUnfolds(w, events);
    var o := After(w, events[0]);
    if k == 0 {
      StepHistory(w, events[0].actor, events[0].action, events[0].stamp);
      RunHistory(o.work, events[1..]);
    } else {
      EachCompletedIsKept(o.work, events[1..], k - 1);
    }
  }

  lemma RunOfNone(w: Work)
    ensures Run(w, []) == w
  {
  }

  lemma AddedIsOwn(versions: map<nat, Manifest>, o: Outcome, stamp: nat, v: nat)
    requires Adds(versions, o, stamp) && v in o.work.versions && v !in versions
    ensures v == stamp && o.ok
  {
    assert o.ok && v != stamp ==> v in o.work.versions - {stamp};
  }

  /** And a run makes no other snapshots. */
  lemma {:induction false} NoOtherSnapshots(w: Work, events: seq<Event>, v: nat) returns (k: nat)
    requires v in Run(w, events).versions && v !in w.versions
    ensures k < |events| && events[k].stamp == v && After(Before(w, events, k), events[k]).ok
    decreases |events|
  {
    hide Step, Run, Describes;
    k := 0;
    if events == [] {
      RunOfNone(w);
    } else {
      RunUnfolds(w, events);
      var o := After(w, events[0]);
      StepHistory(w, events[0].actor, events[0].action, events[0].stamp);
      if v !in o.work.versions {
        var j := NoOtherSnapshots(o.work, events[1..], v);
        k := j + 1;
      } else {
        AddedIsOwn(w.versions, o, events[0].stamp, v);
      }
    }
  }

  /** Each action gets a version id above all those there are. */
  ghost predicate Forward(w: Work, events: seq<Event>)
    decreases |events|
  {
    events != [] ==> Later(w, events[0].stamp) && Forward(After(w, events[0]).work, events[1..])
  }

  /** The work as the last completed action of a run left it, or `saved` if none completed. */
  function LastCompleted(saved: Work, w: Work, events: seq<Event>): Work
    decreases |events|
  {
    if events == [] then saved
    else
      var o := After(w, events[0]);
      LastCompleted(if o.ok then o.work else saved, o.work, events[1..])
  }

  /** On a clock that moves forward, the newest snapshot has the tables as the last completed action left them. */
  lemma {:induction false} NewestIsLastCompleted(saved: Work, w: Work, events: seq<Event>)
    requires Newest(w.versions, saved) && Forward(w, events)
    ensures Newest(Run(w, events).versions, LastCompleted(saved, w, events))
    decreases |events|
  {
    hide Step, Newest, Later;
    if events != [] {
      var o := After(w, events[0]);
      StepRecords(w, events[0].actor, events[0].action, events[0].stamp);
      NewestIsLastCompleted(if o.ok then o.work else saved, o.work, events[1..]);
    }
  }

  /** In particular for every work from the moment it is created, with no condition on what it is sent. */
  lemma EveryHistory(owner: Option<string>, events: seq<Event>)
    ensures var w := EmptyWork(owner);
      && Run(w, events).versions == Snapshots(w, events)
      && (Forward(w, events) ==> Newest(Run(w, events).versions, LastCompleted(w, w, events)))
  {
    hide Step, LastCompleted, Run, Snapshots, Forward;
    var w := EmptyWork(owner);
    RunHistory(w, events);
    assert w.versions + Snapshots(w, events) == Snapshots(w, events);
    if Forward(w, events) {
      NewestIsLastCompleted(w, w, events);
    }
  }

  // ---- Whole runs that bring in only new filenames

  /** New filenames at every step, and a clock that moves forward. */
  ghost predicate GoodRun(w: Work, events: seq<Event>)
    decreases |events|
  {
    events != [] ==>
      && FreshFor(w, events[0].action) && Later(w, events[0].stamp)
      && GoodRun(After(w, events[0]).work, events[1..])
  }

  /** With new filenames no action is cut short, so that the tables are those of the newest snapshot after it. */
  lemma FreshStepRecords(w: Work, actor: string, a: Action, stamp: nat)
    requires EditorInvariant(w) && FreshFor(w, a) && Recorded(w) && Later(w, stamp)
    ensures var o := Step(w, actor, a, stamp);
      EditorInvariant(o.work) && Recorded(o.work) && (o.ok <==> Allowed(w, actor, a))
  {
    hide EditorInvariant, Step, Allowed, FreshFor, Recorded;
    StepKeeps(w, actor, a, stamp);
    StepRecords(w, actor, a, stamp);
  }

  /** Safety over whole runs: numbering, chapter spans and the version history survive any sequence of actions. */
  lemma {:induction false} RunKeeps(w: Work, events: seq<Event>)
    requires EditorInvariant(w) && Recorded(w) && GoodRun(w, events)
    ensures EditorInvariant(Run(w, events)) && Recorded(Run(w, events))
    ensures forall v :: v in w.versions ==> v in Run(w, events).versions && Run(w, events).versions[v] == w.versions[v]
    decreases |events|
  {
    hide EditorInvariant, Recorded, Step, FreshFor, Allowed;
    RunHistory(w, events);
    if events != [] {
      FreshStepRecords(w, events[0].actor, events[0].action, events[0].stamp);
      RunKeeps(After(w, events[0]).work, events[1..]);
    }
  }

  /** In particular for every work from the moment it is created. */
  lemma EveryWorkKeeps(owner: Option<string>, events: seq<Event>)
    requires GoodRun(EmptyWork(owner), events)
    ensures EditorInvariant(Run(EmptyWork(owner), events)) && Recorded(Run(EmptyWork(owner), events))
  {
    hide Step;
    RunKeeps(EmptyWork(owner), events);
  }

  // ---- Undoing

  lemma MoveKeepsOwner(w: Work, from: nat, to: nat, s: nat)
    ensures DoMovePage(w, from, to, s).work.owner == w.owner
  {
  }

  /** Moving a page and moving it back restores the pages and the chapters exactly. */
  lemma MoveUndone(w: Work, actor: string, from: nat, to: nat, s: nat, t: nat)
    requires EditorInvariant(w) && Allowed(w, actor, MovePage(from, to))
    ensures var there := Step(w, actor, MovePage(from, to), s).work;
      var back := Step(there, actor, MovePage(to, from), t).work;
      back.pages == w.pages && back.chapters == w.chapters && back.pageCount == w.pageCount
  {
    var moved := Moved(w.pages, from, to);
    MovedNames(w.pages, from, to);
    MoveThereAndBack(w.pages, from, to);
    ReconcileThereAndBack(Order(w.pages), Order(moved), "", w.chapters);
    MovePageKeeps(w, from, to, s);
    var there := DoMovePage(w, from, to, s).work;
    hide DoMovePage, Reconcile, Moved, Order, Distinct, TablesOk, Fits, Carried;
    MovePageKeeps(there, to, from, t);
    assert Owns(there, actor) by {
      MoveKeepsOwner(w, from, to, s);
    }
  }

  lemma AddOrder(pages: seq<Page>, k: nat, row: Page)
    requires k <= |pages| && Distinct(Order(pages)) && row.image !in Order(pages)
    ensures var order := Order(Renumber(InsertAt(pages, k, row)));
      Distinct(order) && Names(Order(pages)) <= Names(order) && Renumber(InsertAt(pages, k, row))[k].image == row.image
  {
    RenumberNumbers(InsertAt(pages, k, row));
    OrderInsert(pages, k, row);
    DistinctInsert(Order(pages), k, row.image);
    InsertNames(Order(pages), k, row.image);
  }

  lemma InsertUndone(pages: seq<Page>, k: nat, row: Page)
    requires k <= |pages| && Numbered(pages)
    ensures Renumber(RemoveAt(Renumber(InsertAt(pages, k, row)), k)) == pages
  {
  }

  lemma AddUndoneAt(w: Work, row: Page, after: int, handed: string, suggested: string, s: nat, t: nat)
    requires EditorInvariant(w) && row.image != "" && row.image !in Order(w.pages)
    ensures var added := DoAddPage(w, row, after, handed, suggested, s).work;
      var back := DoDeletePage(added, InsertPosition(|w.pages|, after) + 1, t).work;
      back.pages == w.pages && back.chapters == w.chapters && back.pageCount == w.pageCount
  {
    var k := InsertPosition(|w.pages|, after);
    var pages := Renumber(InsertAt(w.pages, k, row));
    AddOrder(w.pages, k, row);
    InsertUndone(w.pages, k, row);
    ReconcileThereAndBack(Order(w.pages), Order(pages), row.image, w.chapters);
    hide PageRating, InsertPosition, DoAddPage;
    AddPageBecomes(w, row, after, handed, suggested, s);
    var added := DoAddPage(w, row, after, handed, suggested, s).work;
    hide DoDeletePage, Reconcile, Renumber, InsertAt, RemoveAt, Order, Distinct, TablesOk, Fits, Carried;
    DeletePageKeeps(added, k + 1, t);
  }

  /** Adding a page with a new filename and deleting it restores the pages and the chapters exactly. */
  lemma AddUndone(w: Work, row: Page, after: int, handed: string, suggested: string, s: nat, t: nat)
    requires EditorInvariant(w) && row.image != "" && row.image !in Order(w.pages)
    ensures var added := DoAddPage(w, row, after, handed, suggested, s).work;
      var back := DoDeletePage(added, if 1 <= after <= |w.pages| then after + 1 else |w.pages| + 1, t).work;
      back.pages == w.pages && back.chapters == w.chapters && back.pageCount == w.pageCount
  {
    hide DoAddPage, DoDeletePage, EditorInvariant;
    AddUndoneAt(w, row, after, handed, suggested, s, t);
  }

  // ---- Gallery reorder

  lemma NewOrderFollows(pages: seq<Page>, names: seq<Name>)
    ensures Follows(names, NewOrder(pages, names))
  {
    MentionsInOrder(names, Names(Order(pages)) - {""}, {});
    hide Follows;
  }

  /**
   A reorder puts the rows in the order in which the request first mentions their filenames, and each row's data
   follows its filename.
  */
  lemma ReorderPermutes(w: Work, names: seq<Name>, request: map<nat, seq<Name>>, stamp: nat, i: nat)
    requires EditorInvariant(w) && Names(Order(w.pages)) <= Names(names) && i < |w.pages|
    ensures var pages := DoReorder(w, names, request, stamp).work.pages;
      && |pages| == |w.pages| && Names(Order(pages)) == Names(Order(w.pages)) && Follows(names, Order(pages))
      && w.pages[i].image in Order(pages)
      && pages[IndexOf(Order(pages), w.pages[i].image)]
         == w.pages[i].(index := IndexOf(Order(pages), w.pages[i].image) + 1)
  {
    NewOrderFollows(w.pages, names);
    hide Completed, DoReorder, NewOrder, RefitFrom, GalleryNames, Fits, ChaptersNumbered, IdsOk, Distinct, Follows;
    ReorderKeeps(w, names, request, stamp);
    NewOrderPermutes(w.pages, names);
    var order := NewOrder(w.pages, names);
    RenumberNumbers(RowsNamed(w.pages, order));
    OrderRowsNamed(w.pages, order);
    assert Order(w.pages)[i] == w.pages[i].image;
    assert w.pages[i].image in Names(Order(w.pages));
    RowNamedAt(w.pages, i);
    hide EditorInvariant;
  }

  lemma LeftWithRenumbered(chapters: seq<Chapter>, c: Chapter, wanted: set<Name>)
    requires LeftWith(chapters, c, wanted)
    ensures LeftWith(RenumberChapters(chapters), c, wanted)
  {
    var after := RenumberChapters(chapters);
    if wanted == {} {
      forall d | d in after ensures d.id != c.id {
        var k :| 0 <= k < |after| && after[k] == d;
        assert chapters[k] in chapters;
      }
    } else {
      var d :| d in chapters && d.id == c.id && d.title == c.title && Names(d.members) == wanted;
      var k :| 0 <= k < |chapters| && chapters[k] == d;
      assert after[k] in after;
    }
  }

  /** What a refit leaves for one chapter of the table. */
  lemma RefitMembers(order: seq<Name>, chapters: seq<Chapter>, names: seq<set<Name>>, next: nat, i: nat)
    requires |names| == |chapters| && Distinct(order) && i < |chapters| && IdsOk(chapters, next)
    ensures LeftWith(RefitFrom(order, [], chapters, names).chapters, chapters[i], names[i] * Names(order))
  {
    FitAllMembers(order, chapters, names, next, i);
    RefitCompletes(order, [], chapters, names);
    hide LeftWith, RenumberChapters, IdsOk;
    var fitted := FitAll(order, chapters, names);
    assert [] + fitted == fitted;
    LeftWithRenumbered(fitted, chapters[i], names[i] * Names(order));
  }

  lemma GalleryWanted(w: Work, names: seq<Name>, request: map<nat, seq<Name>>, i: nat)
    requires EditorInvariant(w) && Names(Order(w.pages)) <= Names(names) && i < |w.chapters|
    ensures var order := NewOrder(w.pages, names);
      var c := w.chapters[i];
      && Distinct(order)
      && GalleryNames(order, w.chapters, request)[i] * Names(order)
      == if c.id in request then Names(request[c.id]) * Names(Order(w.pages)) else Names(c.members)
  {
    NewOrderPermutes(w.pages, names);
    var order, c := NewOrder(w.pages, names), w.chapters[i];
    assert c in w.chapters;
    KeptOfMember(Order(w.pages), order, "", c);
    hide EditorInvariant, Fits, NewOrder, Kept;
    if c.id !in request {
      assert GalleryNames(order, w.chapters, request)[i] == Names(c.members);
      assert Names(c.members) * Names(order) == Names(c.members);
    }
  }

  /**
   A reorder keeps the pages of every chapter it does not mention, and gives the others what was asked for;
   a chapter goes exactly when that is nothing.
  */
  lemma ReorderMembers(w: Work, names: seq<Name>, request: map<nat, seq<Name>>, stamp: nat, i: nat)
    requires EditorInvariant(w) && w.pages != [] && Names(Order(w.pages)) <= Names(names) && i < |w.chapters|
    ensures var c := w.chapters[i];
      var wanted := if c.id in request then Names(request[c.id]) * Names(Order(w.pages)) else Names(c.members);
      LeftWith(DoReorder(w, names, request, stamp).work.chapters, c, wanted)
  {
    InvariantTables(w);
    hide EditorInvariant, Completed, DoReorder, NewOrder, RefitFrom, GalleryNames, Distinct, RowsNamed, Renumber,
         LeftWith;
    ReorderKeeps(w, names, request, stamp);
    GalleryWanted(w, names, request, i);
    var order := NewOrder(w.pages, names);
    RefitMembers(order, w.chapters, GalleryNames(order, w.chapters, request), w.nextChapterId, i);
  }

  lemma DeletedNames(w: Work, index: int, i: nat)
    requires EditorInvariant(w) && 1 <= index <= |w.pages| && i < |w.chapters|
    ensures var removed, order := w.pages[index - 1].image, RemoveAt(Order(w.pages), index - 1);
      && Order(Renumber(RemoveAt(w.pages, index - 1))) == order && Distinct(order)
      && KeptNames(order, removed, w.chapters)[i] * Names(order) == Names(w.chapters[i].members) - {removed}
  {
    var removed, order := w.pages[index - 1].image, RemoveAt(Order(w.pages), index - 1);
    OrderRemove(w.pages, index - 1);
    RenumberNumbers(RemoveAt(w.pages, index - 1));
    RemoveDistinct(Order(w.pages), index - 1);
    assert Order(w.pages)[index - 1] == removed;
    var c := w.chapters[i];
    assert c in w.chapters;
    assert KeptNames(order, removed, w.chapters)[i] == Names(c.members) - {removed};
    assert Names(c.members) <= Names(Order(w.pages));
  }

  /**
   Deleting a page takes it out of every chapter and no other page; a chapter goes exactly when it had no other
   page.
  */
  lemma DeleteMembers(w: Work, index: int, stamp: nat, i: nat)
    requires EditorInvariant(w) && 1 <= index <= |w.pages| && i < |w.chapters|
    ensures var c := w.chapters[i];
      LeftWith(DoDeletePage(w, index, stamp).work.chapters, c, Names(c.members) - {w.pages[index - 1].image})
  {
    InvariantTables(w);
    hide EditorInvariant, Completed, DoDeletePage, RefitFrom, LeftWith, Distinct, Renumber, RemoveAt, KeptNames, Order;
    DeletePageKeeps(w, index, stamp);
    DeletedNames(w, index, i);
    var removed, order := w.pages[index - 1].image, RemoveAt(Order(w.pages), index - 1);
    RefitMembers(order, w.chapters, KeptNames(order, removed, w.chapters), w.nextChapterId, i);
  }
}
