/**
 What refitting chapters to a page order does: each chapter becomes the increasing run of its
 names, the identity on chapters that already fit, and a way back after a change of order.
*/
module Chapters {
  import opened Wrappers
  import opened PageOrder
  import opened WorkModel

  lemma SelectNames(order: seq<Name>, names: set<Name>)
    ensures Names(Select(order, names)) == names * Names(order)
    ensures Select(order, names) == [] <==> names !! Names(order)
  {
    var members := Select(order, names);
    if members != [] {
      assert members[0] in names * Names(order);
    }
    forall n | n in names * Names(order) ensures n in Names(members) {
    }
    if members == [] {
      assert names * Names(order) == {};
    }
  }

  /** A refitted chapter holds exactly the wanted names that exist, in page order, and spans them. */
  lemma FitFits(order: seq<Name>, c: Chapter, names: set<Name>)
    requires Distinct(order)
    ensures Fit(order, c, names).None? <==> names !! Names(order)
    ensures Fit(order, c, names).Some? ==>
      var r := Fit(order, c, names).value;
      && Fits(order, r) && Names(r.members) == names * Names(order)
      && r.id == c.id && r.index == c.index && r.title == c.title
  {
    SelectFollows(order, names);
    SelectNames(order, names);
    hide Select, Follows, Names;
  }

  /** Only the columns of the row that a fit keeps matter. */
  lemma FitFields(order: seq<Name>, a: Chapter, b: Chapter, names: set<Name>)
    requires a.id == b.id && a.index == b.index && a.title == b.title
    ensures Fit(order, a, names) == Fit(order, b, names)
  {
    hide Select;
  }

  lemma FitIdentity(order: seq<Name>, c: Chapter)
    requires Distinct(order) && Fits(order, c)
    ensures Fit(order, c, Names(c.members)) == Some(c)
  {
    SelectOwnNames(order, c.members);
    hide Select, Follows, Names;
  }

  /** Refitting to another order that still has all the names, and back, restores the chapter. */
  lemma FitThereAndBack(order: seq<Name>, other: seq<Name>, c: Chapter)
    requires Distinct(order) && Distinct(other) && Fits(order, c)
    requires Names(c.members) <= Names(other)
    ensures Fit(other, c, Names(c.members)).Some?
    ensures var moved := Fit(other, c, Names(c.members)).value;
      Names(moved.members) == Names(c.members) && Fit(order, moved, Names(moved.members)) == Some(c)
  {
    FitFits(other, c, Names(c.members));
    assert c.members[0] in Names(c.members);
    FitIdentity(order, c);
    hide Fit, Follows, Distinct;
    FitFields(order, Fit(other, c, Names(c.members)).value, c, Names(c.members));
  }

  // ---- The whole loop

  lemma NumberedRenumber(chapters: seq<Chapter>)
    requires ChaptersNumbered(chapters)
    ensures RenumberChapters(chapters) == chapters
  {
  }

  lemma FitDistinct(order: seq<Name>, c: Chapter, names: set<Name>)
    requires Distinct(order) && Fit(order, c, names).Some?
    ensures Distinct(Fit(order, c, names).value.members)
  {
    FitFits(order, c, names);
    FollowsDistinct(order, Fit(order, c, names).value.members);
  }

  /** With distinct filenames the statement-by-statement loop never stops and equals the one-line description. */
  lemma {:induction false} RefitCompletes(order: seq<Name>, done: seq<Chapter>, todo: seq<Chapter>,
                                          names: seq<set<Name>>)
    requires |names| == |todo| && Distinct(order)
    ensures RefitFrom(order, done, todo, names) == Rebuilt(RenumberChapters(done + FitAll(order, todo, names)), true)
    decreases |todo|
  {
    hide Fit, Distinct, RenumberChapters;
    if todo == [] {
      assert done + [] == done;
    } else {
      var rest := FitAll(order, todo[1..], names[1..]);
      var fitted := Fit(order, todo[0], names[0]);
      if fitted.None? {
        RefitCompletes(order, done, todo[1..], names[1..]);
      } else {
        FitDistinct(order, todo[0], names[0]);
        RefitCompletes(order, done + [fitted.value], todo[1..], names[1..]);
        assert done + [fitted.value] + rest == done + ([fitted.value] + rest);
      }
    }
  }

  /** Every surviving chapter row is one of the old rows. */
  lemma {:induction false} FitAllSource(order: seq<Name>, chapters: seq<Chapter>, names: seq<set<Name>>, c: Chapter)
    requires |names| == |chapters| && c in FitAll(order, chapters, names)
    ensures exists d :: d in chapters && d.id == c.id
  {
    if Fit(order, chapters[0], names[0]) == Some(c) {
      assert chapters[0].id == c.id;
    } else {
      FitAllSource(order, chapters[1..], names[1..], c);
      var d :| d in chapters[1..] && d.id == c.id;
      assert d in chapters;
    }
  }

  lemma IdsCons(head: Chapter, rest: seq<Chapter>, next: nat)
    requires IdsOk(rest, next) && 0 < head.id < next && forall d :: d in rest ==> d.id != head.id
    ensures IdsOk([head] + rest, next)
  {
    var all := [head] + rest;
    forall i, j | 0 <= i < j < |all| ensures all[i].id != all[j].id {
      assert all[j] == rest[j - 1];
    }
  }

  lemma IdsTail(chapters: seq<Chapter>, next: nat)
    requires IdsOk(chapters, next) && chapters != []
    ensures IdsOk(chapters[1..], next) && 0 < chapters[0].id < next
    ensures forall c :: c in chapters[1..] ==> c.id != chapters[0].id
  {
    assert forall i :: 0 <= i < |chapters[1..]| ==> chapters[1..][i] == chapters[i + 1];
  }

  lemma FitId(order: seq<Name>, c: Chapter, names: set<Name>)
    requires Fit(order, c, names).Some?
    ensures Fit(order, c, names).value.id == c.id
  {
  }

  /** No surviving row takes over the id of a chapter that is not among the others. */
  lemma FitAllIdFrom(order: seq<Name>, chapters: seq<Chapter>, names: seq<set<Name>>, id: nat)
    requires |names| == |chapters| && forall c :: c in chapters ==> c.id != id
    ensures forall d :: d in FitAll(order, chapters, names) ==> d.id != id
  {
    forall d | d in FitAll(order, chapters, names) ensures d.id != id {
      FitAllSource(order, chapters, names, d);
    }
  }

  lemma {:induction false} FitAllKeepsIds(order: seq<Name>, chapters: seq<Chapter>, names: seq<set<Name>>, next: nat)
    requires |names| == |chapters| && IdsOk(chapters, next)
    ensures IdsOk(FitAll(order, chapters, names), next)
  {
    if chapters != [] {
      IdsTail(chapters, next);
      hide IdsOk, Fit;
      FitAllKeepsIds(order, chapters[1..], names[1..], next);
      FitAllIdFrom(order, chapters[1..], names[1..], chapters[0].id);
      if Fit(order, chapters[0], names[0]).Some? {
        FitId(order, chapters[0], names[0]);
        IdsCons(Fit(order, chapters[0], names[0]).value, FitAll(order, chapters[1..], names[1..]), next);
      }
    }
  }

  lemma {:induction false} FitAllFits(order: seq<Name>, chapters: seq<Chapter>, names: seq<set<Name>>)
    requires |names| == |chapters| && Distinct(order)
    ensures forall c :: c in FitAll(order, chapters, names) ==> Fits(order, c) && Distinct(c.members)
  {
    if chapters != [] {
      FitFits(order, chapters[0], names[0]);
      FitAllFits(order, chapters[1..], names[1..]);
      if Fit(order, chapters[0], names[0]).Some? {
        FollowsDistinct(order, Fit(order, chapters[0], names[0]).value.members);
      }
    }
  }

  /** What became of a chapter: it holds exactly the wanted names, or is gone if there are none. */
  ghost predicate LeftWith(chapters: seq<Chapter>, c: Chapter, wanted: set<Name>) {
    if wanted == {} then forall d :: d in chapters ==> d.id != c.id
    else exists d :: d in chapters && d.id == c.id && d.title == c.title && Names(d.members) == wanted
  }

  lemma LeftWithAfter(head: Chapter, rest: seq<Chapter>, c: Chapter, wanted: set<Name>)
    requires LeftWith(rest, c, wanted) && head.id != c.id
    ensures LeftWith([head] + rest, c, wanted)
  {
    var all := [head] + rest;
    assert forall d :: d in all <==> d == head || d in rest;
  }

  lemma LeftWithHead(head: Chapter, rest: seq<Chapter>, c: Chapter, wanted: set<Name>)
    requires head.id == c.id && head.title == c.title && Names(head.members) == wanted != {}
    ensures LeftWith([head] + rest, c, wanted)
  {
    assert head in [head] + rest;
  }

  lemma NoneLeft(chapters: seq<Chapter>, c: Chapter)
    requires forall d :: d in chapters ==> d.id != c.id
    ensures LeftWith(chapters, c, {})
  {
  }

  lemma FitWanted(order: seq<Name>, c: Chapter, names: set<Name>)
    requires Distinct(order)
    ensures Fit(order, c, names).None? <==> names * Names(order) == {}
    ensures Fit(order, c, names).Some? ==>
      var r := Fit(order, c, names).value;
      Names(r.members) == names * Names(order) && r.id == c.id && r.title == c.title
  {
    FitFits(order, c, names);
    hide Fit, Fits, Names, Distinct;
    var both := names * Names(order);
    if both == {} {
      assert forall n :: n in names && n in Names(order) ==> n in both;
    } else {
      var n :| n in both;
    }
  }

  /** The first chapter and what comes of it. */
  lemma FitAllFirst(order: seq<Name>, chapters: seq<Chapter>, names: seq<set<Name>>, next: nat)
    requires |names| == |chapters| && chapters != [] && Distinct(order) && IdsOk(chapters, next)
    ensures LeftWith(FitAll(order, chapters, names), chapters[0], names[0] * Names(order))
  {
    hide Fit, Fits, LeftWith, IdsOk, Distinct;
    IdsTail(chapters, next);
    FitAllIdFrom(order, chapters[1..], names[1..], chapters[0].id);
    FitWanted(order, chapters[0], names[0]);
    var rest := FitAll(order, chapters[1..], names[1..]);
    if Fit(order, chapters[0], names[0]).Some? {
      LeftWithHead(Fit(order, chapters[0], names[0]).value, rest, chapters[0], names[0] * Names(order));
    } else {
      NoneLeft(rest, chapters[0]);
    }
  }

  /** A chapter survives with exactly its wanted names that are still pages, and goes exactly when none is. */
  lemma {:induction false} FitAllMembers(order: seq<Name>, chapters: seq<Chapter>, names: seq<set<Name>>, next: nat,
                                         i: nat)
    requires |names| == |chapters| && Distinct(order) && i < |chapters| && IdsOk(chapters, next)
    ensures LeftWith(FitAll(order, chapters, names), chapters[i], names[i] * Names(order))
  {
    if i == 0 {
      FitAllFirst(order, chapters, names, next);
    } else {
      hide LeftWith, IdsOk, Distinct, Fit;
      IdsTail(chapters, next);
      FitAllMembers(order, chapters[1..], names[1..], next, i - 1);
      assert chapters[i] in chapters[1..];
      if Fit(order, chapters[0], names[0]).Some? {
        FitId(order, chapters[0], names[0]);
        LeftWithAfter(Fit(order, chapters[0], names[0]).value, FitAll(order, chapters[1..], names[1..]), chapters[i],
                      names[i] * Names(order));
      }
    }
  }

  /** If every chapter keeps a page, refitting works row by row. */
  lemma {:induction false} FitAllRowwise(order: seq<Name>, chapters: seq<Chapter>, names: seq<set<Name>>)
    requires |names| == |chapters|
    requires forall i :: 0 <= i < |chapters| ==> Fit(order, chapters[i], names[i]).Some?
    ensures |FitAll(order, chapters, names)| == |chapters|
    ensures forall i :: 0 <= i < |chapters| ==>
              FitAll(order, chapters, names)[i] == Fit(order, chapters[i], names[i]).value
  {
    if chapters != [] {
      forall i | 0 <= i < |chapters[1..]| ensures Fit(order, chapters[1..][i], names[1..][i]).Some? {
        assert chapters[1..][i] == chapters[i + 1] && names[1..][i] == names[i + 1];
      }
      FitAllRowwise(order, chapters[1..], names[1..]);
      forall i | 0 <= i < |chapters|
        ensures FitAll(order, chapters, names)[i] == Fit(order, chapters[i], names[i]).value
      {
        if i > 0 {
          assert FitAll(order, chapters, names)[i] == FitAll(order, chapters[1..], names[1..])[i - 1];
        }
      }
    }
  }

  lemma RenumberKeeps(order: seq<Name>, chapters: seq<Chapter>, next: nat)
    requires IdsOk(chapters, next) && forall c :: c in chapters ==> Fits(order, c) && Distinct(c.members)
    ensures var r := RenumberChapters(chapters);
      IdsOk(r, next) && ChaptersNumbered(r) && forall c :: c in r ==> Fits(order, c) && Distinct(c.members)
  {
    var r := RenumberChapters(chapters);
    assert forall i :: 0 <= i < |r| ==> chapters[i] in chapters;
  }

  /** Whatever the chapters were asked to hold, the refitted table meets the chapter part of the invariant. */
  lemma RefitEstablishes(order: seq<Name>, chapters: seq<Chapter>, names: seq<set<Name>>, next: nat)
    requires |names| == |chapters| && Distinct(order) && ChaptersNumbered(chapters) && IdsOk(chapters, next)
    ensures var r := RefitFrom(order, [], chapters, names);
      && r.ok && r.chapters == RenumberChapters(FitAll(order, chapters, names))
      && IdsOk(r.chapters, next) && ChaptersNumbered(r.chapters)
      && (forall c :: c in r.chapters ==> Fits(order, c) && Distinct(c.members))
  {
    assert [] + chapters == chapters;
    RefitCompletes(order, [], chapters, names);
    assert [] + FitAll(order, chapters, names) == FitAll(order, chapters, names);
    FitAllKeepsIds(order, chapters, names, next);
    FitAllFits(order, chapters, names);
    RenumberKeeps(order, FitAll(order, chapters, names), next);
  }

  ghost predicate AllFit(order: seq<Name>, chapters: seq<Chapter>) {
    forall c :: c in chapters ==> Fits(order, c)
  }

  /** Refitting row by row: the loop turns each row into its own fit. */
  lemma RefitRowwise(order: seq<Name>, chapters: seq<Chapter>, names: seq<set<Name>>, result: seq<Chapter>)
    requires Distinct(order) && ChaptersNumbered(result) && |names| == |chapters| == |result|
    requires forall i :: 0 <= i < |chapters| ==> Fit(order, chapters[i], names[i]) == Some(result[i])
    ensures RefitFrom(order, [], chapters, names) == Rebuilt(result, true)
  {
    FitAllRowwise(order, chapters, names);
    assert [] + FitAll(order, chapters, names) == result;
    RefitCompletes(order, [], chapters, names);
    NumberedRenumber(result);
  }

  /** Reconciling chapters that already fit the page order changes nothing. */
  lemma ReconcileIdentity(order: seq<Name>, chapters: seq<Chapter>)
    requires Distinct(order) && ChaptersNumbered(chapters) && AllFit(order, chapters)
    ensures Reconcile(order, "", chapters) == Rebuilt(chapters, true)
  {
    var names := KeptNames(order, "", chapters);
    forall i | 0 <= i < |chapters| ensures Fit(order, chapters[i], names[i]) == Some(chapters[i]) {
      assert chapters[i] in chapters;
      FitIdentity(order, chapters[i]);
      assert names[i] == Names(chapters[i].members);
    }
    RefitRowwise(order, chapters, names, chapters);
  }

  lemma FitsAnyIndex(order: seq<Name>, c: Chapter, index: nat)
    requires Fits(order, c)
    ensures Fits(order, c.(index := index))
  {
    hide Follows;
  }

  /** Reconciling twice is reconciling once, from any chapter table at all. */
  lemma ReconcileIdempotent(order: seq<Name>, removed: Name, chapters: seq<Chapter>)
    requires Distinct(order) && ChaptersNumbered(chapters)
    ensures var once := Reconcile(order, removed, chapters);
      once.ok && Reconcile(order, "", once.chapters) == once
  {
    hide Fit, Fits, Kept, Distinct, FitAll, RefitFrom;
    var names := KeptNames(order, removed, chapters);
    RefitCompletes(order, [], chapters, names);
    FitAllFits(order, chapters, names);
    var fitted := FitAll(order, chapters, names);
    assert [] + fitted == fitted;
    var once := RenumberChapters(fitted);
    forall c | c in once ensures Fits(order, c) {
      var i :| 0 <= i < |once| && once[i] == c;
      assert fitted[i] in fitted && once[i] == fitted[i].(index := i + 1);
      FitsAnyIndex(order, fitted[i], i + 1);
    }
    ReconcileIdentity(order, once);
  }

  lemma KeptOfMember(order: seq<Name>, other: seq<Name>, removed: Name, c: Chapter)
    requires Fits(order, c) && (removed == "" || removed !in order)
    ensures Kept(other, removed, c) == Names(c.members) && Names(c.members) <= Names(order)
  {
  }

  /** The chapter rows as they stand after moving to another order that has all their names. */
  function Carried(order: seq<Name>, chapters: seq<Chapter>): (r: seq<Chapter>)
    ensures |r| == |chapters|
  {
    seq(|chapters|, i requires 0 <= i < |chapters| =>
      match Fit(order, chapters[i], Names(chapters[i].members))
      case Some(c) => c
      case None => chapters[i])
  }

  lemma CarriedRow(order: seq<Name>, other: seq<Name>, c: Chapter)
    requires Distinct(order) && Distinct(other) && Fits(order, c) && Names(order) <= Names(other)
    ensures var m := Fit(other, c, Names(c.members));
      && m.Some? && m.value.index == c.index && m.value.members != []
      && Names(m.value.members) == Names(c.members)
      && Fit(order, m.value, Names(c.members)) == Some(c)
  {
    KeptOfMember(order, other, "", c);
    FitThereAndBack(order, other, c);
    FitFits(other, c, Names(c.members));
  }

  /** Moving to an order with more (or the same) names keeps every chapter and its members. */
  lemma ReconcileThere(order: seq<Name>, other: seq<Name>, chapters: seq<Chapter>)
    requires Distinct(order) && Distinct(other) && ChaptersNumbered(chapters) && AllFit(order, chapters)
    requires Names(order) <= Names(other)
    ensures Reconcile(other, "", chapters) == Rebuilt(Carried(other, chapters), true)
  {
    var there := Carried(other, chapters);
    forall i | 0 <= i < |chapters|
      ensures Fit(other, chapters[i], KeptNames(other, "", chapters)[i]) == Some(there[i]) && there[i].index == i + 1
    {
      assert chapters[i] in chapters;
      CarriedRow(order, other, chapters[i]);
      assert KeptNames(other, "", chapters)[i] == Names(chapters[i].members);
    }
    RefitRowwise(other, chapters, KeptNames(other, "", chapters), there);
  }

  /**
   Going to another order and back restores the chapters exactly. `gone` is a name that may be
   removed on the way back; it belongs to no chapter.
  */
  lemma ReconcileThereAndBack(order: seq<Name>, other: seq<Name>, gone: Name, chapters: seq<Chapter>)
    requires Distinct(order) && Distinct(other) && ChaptersNumbered(chapters) && AllFit(order, chapters)
    requires Names(order) <= Names(other) && gone !in order
    ensures Reconcile(other, "", chapters) == Rebuilt(Carried(other, chapters), true)
    ensures Reconcile(order, gone, Carried(other, chapters)) == Rebuilt(chapters, true)
  {
    ReconcileThere(order, other, chapters);
    var there := Carried(other, chapters);
    forall i | 0 <= i < |there| ensures Fit(order, there[i], KeptNames(order, gone, there)[i]) == Some(chapters[i]) {
      assert chapters[i] in chapters;
      CarriedRow(order, other, chapters[i]);
      KeptOfMember(order, other, gone, chapters[i]);
      assert Kept(order, gone, there[i]) == Names(chapters[i].members);
    }
    RefitRowwise(order, there, KeptNames(order, gone, there), chapters);
  }

  /** The loop stops early exactly when some chapter would be given a repeated filename. */
  lemma {:induction false} RefitStopsIff(order: seq<Name>, done: seq<Chapter>, todo: seq<Chapter>,
                                         names: seq<set<Name>>)
    requires |names| == |todo|
    ensures RefitFrom(order, done, todo, names).ok <==>
              forall i :: 0 <= i < |todo| ==> Distinct(Select(order, names[i]))
    decreases |todo|
  {
    if todo != [] {
      var selected := Select(order, names[0]);
      match Fit(order, todo[0], names[0])
      case None =>
        RefitStopsIff(order, done, todo[1..], names[1..]);
        assert Distinct(selected);
      case Some(c) =>
        RefitStopsIff(order, done + [c], todo[1..], names[1..]);
        assert c.members == selected;
      assert forall i :: 0 < i < |todo| ==> names[i] == names[1..][i - 1];
      assert forall i :: 0 <= i < |todo| - 1 ==> names[1..][i] == names[i + 1];
    }
  }
}
