/** The Explicit rating over runs of imports and of what users do: when it stays, and what can take it away. */
module RatingRuns {
  import opened Wrappers
  import opened Rating
  import opened PageOrder
  import opened WorkModel
  import opened Editor
  import opened EditorRuns

  predicate ByUser(a: Action) {
    match a
    case EditMetadata(isAdmin, _) => !isAdmin
    case _ => true
  }

  lemma ReorderRating(w: Work, names: seq<Name>, request: map<nat, seq<Name>>, stamp: nat)
    ensures DoReorder(w, names, request, stamp).work.rating == w.rating
  {
    hide RefitFrom, Renumber, NewOrder;
  }

  /** An archive comes in, with a rating of its own that replaces the one of the work. */
  predicate Imports(a: Action) {
    a.ImportCbz? && |a.rows| == |a.directories| && a.rows != []
  }

  /** What each action does to the rating, exactly. */
  lemma StepRating(w: Work, actor: string, a: Action, stamp: nat)
    ensures var o := Step(w, actor, a, stamp);
      match a
      case AddPage(_, _, handed, suggested) =>
        o.work.rating == if Owns(w, actor) then Elevate(if handed == "" then w.rating else handed, suggested)
                         else w.rating
      case ReplacePage(_, _, suggested) =>
        && (o.ok ==> o.work.rating == Elevate(w.rating, suggested))
        && (!o.ok && stamp !in w.versions ==> o.work.rating == w.rating)
        && (o.work.rating == w.rating || o.work.rating == Elevate(w.rating, suggested))
      case EditMetadata(isAdmin, raw) =>
        o.work.rating == if LocksDemotion(isAdmin, w.rating, Resolve(raw)) then w.rating else Resolve(raw)
      case ImportCbz(_, rows, directories, metadata, suggestions, fallback) =>
        o.work.rating == if |rows| == |directories| && rows != [] then ImportRating(metadata, suggestions, fallback)
                         else w.rating
      case _ => o.work.rating == w.rating
  {
    hide Elevate, LocksDemotion, Resolve, Reconcile, RefitFrom, RemapFrom, Moved, Renumber, RowsNamed, NewOrder,
         ImportRating, ImportFrom, Grouped;
    if a.Reorder? {
      ReorderRating(w, a.names, a.request, stamp);
    }
  }

  /**
   A page keeps an Explicit work Explicit if no rating is handed in with it, or an Explicit one is, or one is
   suggested; an import if there is an Explicit rating in it.
  */
  predicate KeepsExplicit(w: Work, actor: string, a: Action) {
    && (a.AddPage? && Owns(w, actor) ==>
          a.handed == "" || Normalize(a.handed) == Known(Explicit) || Normalize(a.suggested) == Known(Explicit))
    && (Imports(a) ==> SomeExplicit(a.metadata, a.suggestions, a.fallback))
  }

  lemma PageRatingExplicit(current: string, handed: string, suggested: string)
    requires IsExplicit(current)
    ensures IsExplicit(PageRating(current, handed, suggested))
      <==> handed == "" || Normalize(handed) == Known(Explicit) || Normalize(suggested) == Known(Explicit)
  {
    ExplicitNormalizes(current);
    ElevateExplicitIff(if handed == "" then current else handed, suggested);
    hide Normalize, IsExplicit, Elevate;
  }

  /**
   An action of a user, or an import, leaves an Explicit work Explicit if and only if it is neither a page with a
   lower rating handed in nor an import without an Explicit one.
  */
  lemma ExplicitStepIff(w: Work, actor: string, a: Action, stamp: nat)
    requires IsExplicit(w.rating) && ByUser(a)
    ensures IsExplicit(Step(w, actor, a, stamp).work.rating) <==> KeepsExplicit(w, actor, a)
  {
    hide Normalize, Elevate, LocksDemotion, Resolve, IsExplicit, Step, Owns, ImportRating, SomeExplicit;
    StepRating(w, actor, a, stamp);
    match a {
      case AddPage(_, _, handed, suggested) => PageRatingExplicit(w.rating, handed, suggested);
      case ImportCbz(_, _, _, metadata, suggestions, fallback) =>
        ImportExplicitIff(metadata, suggestions, fallback);
      case ReplacePage(_, _, suggested) => ElevateKeepsExplicit(w.rating, suggested);
      case EditMetadata(_, raw) =>
        LockExact(w.rating, raw);
        if IsExplicit(raw) {
          ResolveKeepsExplicit(raw);
        }
      case _ =>
    }
  }

  /** The work is Explicit before, between and after the actions. */
  predicate ExplicitThroughout(w: Work, events: seq<Event>)
    decreases |events|
  {
    IsExplicit(w.rating)
    && (events != [] ==> ExplicitThroughout(After(w, events[0]).work,
                                            events[1..]))
  }

  predicate NoneLowers(w: Work, events: seq<Event>)
    decreases |events|
  {
    events != [] ==>
      && KeepsExplicit(w, events[0].actor, events[0].action)
      && NoneLowers(After(w, events[0]).work, events[1..])
  }

  /**
   Over any run of imports and user actions an Explicit work stays Explicit throughout if and only if none of them
   lowers it in one of these two ways.
  */
  lemma {:induction false} ExplicitStays(w: Work, events: seq<Event>)
    requires IsExplicit(w.rating) && forall e :: e in events ==> ByUser(e.action)
    ensures ExplicitThroughout(w, events) <==> NoneLowers(w, events)
    ensures NoneLowers(w, events) ==> IsExplicit(Run(w, events).rating)
    decreases |events|
  {
    hide IsExplicit, Step, KeepsExplicit;
    if events != [] {
      var e := events[0];
      ExplicitStepIff(w, e.actor, e.action, e.stamp);
      if KeepsExplicit(w, e.actor, e.action) {
        ExplicitStays(Step(w, e.actor, e.action, e.stamp).work, events[1..]);
      }
    }
  }

  /** The edit page hands in the rating the work has, so it never lowers one. */
  lemma EditPageKeeps(w: Work, actor: string, row: Page, after: int, suggested: string)
    requires IsExplicit(w.rating)
    ensures KeepsExplicit(w, actor, AddPage(row, after, w.rating, suggested))
  {
    ExplicitNormalizes(w.rating);
    hide Normalize, IsExplicit;
  }

  /**
   The upload page, sent for an Explicit work with a title, a summary and a blank rating, hands in "Not Rated":
   the work is Not Rated after it.
  */
  lemma UploadPageLowers(w: Work, actor: string, row: Page, after: int, stamp: nat)
    requires Owns(w, actor)
    ensures Step(w, actor, AddPage(row, after, "Not Rated", ""), stamp).work.rating == "Not Rated"
  {
    StepRating(w, actor, AddPage(row, after, "Not Rated", ""), stamp);
    CanonicalRoundTrip(NotRated);
    BlankIsLowest();
    hide Normalize, Step, Owns;
  }

  lemma NothingExplicit()
    ensures ImportRating("Not Rated", [], "") == "Not Rated" && !SomeExplicit("Not Rated", [], "")
  {
    hide Normalize, Spell;
    CanonicalRoundTrip(NotRated);
    BlankIsLowest();
    SpellNotRated();
  }

  /** A work imported again from an archive that says "Not Rated", with no suggestion for its page, is Not Rated. */
  lemma ImportLowers(w: Work, actor: string, uploader: Option<string>, row: Page, stamp: nat)
    ensures var a := ImportCbz(uploader, [row], [""], "Not Rated", [], "");
      Step(w, actor, a, stamp).work.rating == "Not Rated" && !KeepsExplicit(w, actor, a)
  {
    hide Normalize, Step, Owns, ImportRating, SomeExplicit, PageRating, Elevate, LocksDemotion, Resolve;
    NothingExplicit();
    StepRating(w, actor, ImportCbz(uploader, [row], [""], "Not Rated", [], ""), stamp);
  }
}
