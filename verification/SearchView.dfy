/** The search index as a view: what every row should say, recomputed from the base tables. */
module SearchView {
  import opened Wrappers

  datatype WorkRow = WorkRow(id: string, title: string, summary: string, uploader: Option<string>)

  datatype Tag = Tag(name: string, kind: string)

  datatype Link = Link(work: string, tag: nat)

  /** The base tables: works by rowid, display names by username, tags by id, tag links in table order. */
  datatype Tables = Tables(works: map<nat, WorkRow>, users: map<string, string>, tags: map<nat, Tag>, links: seq<Link>)

  /** One row of `works_search`; `group_concat` fixes no order, so the fandom names are a multiset. */
  datatype IndexRow = IndexRow(workId: string, title: string, summary: string, fandom: multiset<string>,
                               uploader: string, displayName: string)

  /** Names of the tags of type `fandom` linked to a work. */
  function Fandom(tags: map<nat, Tag>, links: seq<Link>, id: string): multiset<string> {
    if links == [] then multiset{}
    else
      var rest := Fandom(tags, links[1..], id);
      var l := links[0];
      if l.work == id && l.tag in tags && tags[l.tag].kind == "fandom" then rest + multiset{tags[l.tag].name} else rest
  }

  /** The display name of a live uploader if it has one, else the username, else nothing. */
  function ShownName(users: map<string, string>, uploader: Option<string>): string {
    match uploader
    case None => ""
    case Some(u) => if u in users && users[u] != "" then users[u] else u
  }

  function RowFor(t: Tables, w: WorkRow): IndexRow {
    IndexRow(w.id, w.title, w.summary, Fandom(t.tags, t.links, w.id),
             if w.uploader.Some? then w.uploader.value else "", ShownName(t.users, w.uploader))
  }

  predicate HasWork(works: map<nat, WorkRow>, id: string) {
    exists r :: r in works && works[r].id == id
  }

  ghost predicate IdsUnique(works: map<nat, WorkRow>) {
    forall r, s :: r in works && s in works && r != s ==> works[r].id != works[s].id
  }

  ghost predicate LinksUnique(links: seq<Link>) {
    forall i, j :: 0 <= i < j < |links| ==> links[i] != links[j]
  }

  ghost predicate LinksResolve(works: map<nat, WorkRow>, tags: map<nat, Tag>, links: seq<Link>) {
    forall i :: 0 <= i < |links| ==> links[i].tag in tags && HasWork(works, links[i].work)
  }

  /** Unique work ids, unique links, and links that point at existing works and tags. */
  ghost predicate KeysOk(t: Tables) {
    IdsUnique(t.works) && LinksUnique(t.links) && LinksResolve(t.works, t.tags, t.links)
  }

  lemma KeysInsertWork(t: Tables, rowid: nat, row: WorkRow)
    requires KeysOk(t) && rowid !in t.works && !HasWork(t.works, row.id)
    ensures KeysOk(t.(works := t.works[rowid := row]))
  {
    var works := t.works[rowid := row];
    forall i | 0 <= i < |t.links| ensures HasWork(works, t.links[i].work) {
      assert HasWork(t.works, t.links[i].work);
      var r :| r in t.works && t.works[r].id == t.links[i].work;
      assert works[r].id == t.links[i].work;
    }
  }

  /** Whether a work may change its id: the new one is free and no tag link refers to the old one. */
  predicate IdChangeOk(t: Tables, was: string, id: string) {
    id == was || (!HasWork(t.works, id) && forall l :: l in t.links ==> l.work != was)
  }

  lemma KeysUpdateWork(t: Tables, rowid: nat, row: WorkRow)
    requires KeysOk(t) && rowid in t.works && IdChangeOk(t, t.works[rowid].id, row.id)
    ensures KeysOk(t.(works := t.works[rowid := row]))
  {
    var works := t.works[rowid := row];
    forall i | 0 <= i < |t.links| ensures HasWork(works, t.links[i].work) {
      var r :| r in t.works && t.works[r].id == t.links[i].work;
      assert t.links[i] in t.links;
      assert works[r].id == t.links[i].work;
    }
  }

  lemma KeysInsertLink(t: Tables, l: Link)
    requires KeysOk(t) && l.tag in t.tags && HasWork(t.works, l.work) && l !in t.links
    ensures KeysOk(t.(links := t.links + [l]))
  {
  }

  lemma KeysDeleteLink(t: Tables, k: nat)
    requires KeysOk(t) && k < |t.links|
    ensures KeysOk(t.(links := t.links[..k] + t.links[k + 1..]))
    ensures t.links[k] !in t.links[..k] + t.links[k + 1..]
  {
  }

  /**
   What the index shows in one row: the view's row, with the display name in `kept` instead if there is one.
   `kept` has the rows whose uploader was deleted since a trigger last selected them.
  */
  function Shows(t: Tables, r: nat, kept: map<nat, string>): IndexRow
    requires r in t.works
  {
    var wanted := RowFor(t, t.works[r]);
    if r in kept then wanted.(displayName := kept[r]) else wanted
  }

  ghost predicate Agrees(t: Tables, index: map<nat, IndexRow>, kept: map<nat, string>) {
    && index.Keys == t.works.Keys
    && forall r :: r in t.works ==> index[r] == Shows(t, r, kept)
  }

  /** A name is kept only for the row of an uploader who is gone. */
  ghost predicate KeptOk(t: Tables, kept: map<nat, string>) {
    forall r :: r in kept ==> r in t.works && t.works[r].uploader.Some? && t.works[r].uploader.value !in t.users
  }

  function View(t: Tables): map<nat, IndexRow> {
    map r | r in t.works :: RowFor(t, t.works[r])
  }

  /**
   The index is the recomputed view if and only if every name kept is the uploader's username, which the view
   shows instead.
  */
  lemma IndexIsViewIff(t: Tables, index: map<nat, IndexRow>, kept: map<nat, string>)
    requires KeptOk(t, kept) && Agrees(t, index, kept)
    ensures index == View(t) <==> forall r :: r in kept ==> t.works[r].uploader == Some(kept[r])
  {
    hide Fandom;
    forall r | r in t.works
      ensures index[r] == View(t)[r] <==> (r in kept ==> t.works[r].uploader == Some(kept[r]))
    {
      assert index[r] == Shows(t, r, kept);
    }
  }

  // ---- Which rows of the view a change of the base tables can touch

  lemma {:induction false} FandomConcat(tags: map<nat, Tag>, a: seq<Link>, b: seq<Link>, id: string)
    ensures Fandom(tags, a + b, id) == Fandom(tags, a, id) + Fandom(tags, b, id)
  {
    if a == [] {
      assert [] + b == b;
    } else {
      assert (a + b)[1..] == a[1..] + b;
      FandomConcat(tags, a[1..], b, id);
    }
  }

  /** Whether a link gives a work a fandom of this name. */
  predicate GivesFandom(tags: map<nat, Tag>, l: Link, id: string, name: string) {
    l.work == id && l.tag in tags && tags[l.tag] == Tag(name, "fandom")
  }

  ghost function FandomLinks(tags: map<nat, Tag>, links: seq<Link>, id: string, name: string): set<nat> {
    set i: nat | i < |links| && GivesFandom(tags, links[i], id, name)
  }

  lemma FandomLinksAppend(tags: map<nat, Tag>, front: seq<Link>, last: Link, id: string, name: string)
    ensures FandomLinks(tags, front + [last], id, name)
            == FandomLinks(tags, front, id, name) + if GivesFandom(tags, last, id, name) then {|front|} else {}
  {
    hide GivesFandom;
  }

  lemma FandomOne(tags: map<nat, Tag>, l: Link, id: string, name: string)
    ensures Fandom(tags, [l], id)[name] == if GivesFandom(tags, l, id, name) then 1 else 0
  {
    assert Fandom(tags, [l][1..], id) == multiset{};
  }

  /** A fandom name occurs once for every link from the work to a tag of that name and of type `fandom`. */
  lemma {:induction false} FandomCounts(tags: map<nat, Tag>, links: seq<Link>, id: string, name: string)
    ensures Fandom(tags, links, id)[name] == |FandomLinks(tags, links, id, name)|
  {
    if links == [] {
      assert FandomLinks(tags, links, id, name) == {};
    } else {
      var front, last := links[..|links| - 1], links[|links| - 1];
      assert links == front + [last];
      FandomCounts(tags, front, id, name);
      FandomConcat(tags, front, [last], id);
      FandomOne(tags, last, id, name);
      FandomLinksAppend(tags, front, last, id, name);
      assert |front| !in FandomLinks(tags, front, id, name);
      hide Fandom, GivesFandom, FandomLinks;
    }
  }

  /** The columns of a row of the view, one by one. */
  lemma RowColumns(t: Tables, w: WorkRow)
    ensures var row := RowFor(t, w);
      && row.workId == w.id && row.title == w.title && row.summary == w.summary
      && (forall name :: row.fandom[name] == |FandomLinks(t.tags, t.links, w.id, name)|)
      && (w.uploader == None ==> row.uploader == row.displayName == "")
      && (w.uploader.Some? ==>
            && row.uploader == w.uploader.value
            && (row.uploader in t.users && t.users[row.uploader] != "" ==> row.displayName == t.users[row.uploader])
            && (row.uploader !in t.users || t.users[row.uploader] == "" ==> row.displayName == row.uploader))
  {
    forall name ensures RowFor(t, w).fandom[name] == |FandomLinks(t.tags, t.links, w.id, name)| {
      FandomCounts(t.tags, t.links, w.id, name);
    }
  }

  /** Adding or removing a link changes the row of that work only. */
  lemma LinkTouchesItsWork(t: Tables, before: seq<Link>, l: Link, after: seq<Link>, w: WorkRow)
    requires l.work != w.id
    ensures RowFor(t.(links := before + [l] + after), w) == RowFor(t.(links := before + after), w)
  {
    FandomConcat(t.tags, before + [l], after, w.id);
    FandomConcat(t.tags, before, [l], w.id);
    FandomConcat(t.tags, before, after, w.id);
    assert Fandom(t.tags, [l], w.id) == multiset{};
  }

  /** Changing, adding or removing a tag changes the fandom names of the works linked to it only. */
  lemma {:induction false} TagTouchesItsWorks(tags: map<nat, Tag>, tags': map<nat, Tag>, tag: nat, links: seq<Link>,
                                              id: string)
    requires forall k :: k != tag ==> (k in tags <==> k in tags') && (k in tags ==> tags[k] == tags'[k])
    requires Link(id, tag) !in links
    ensures Fandom(tags', links, id) == Fandom(tags, links, id)
  {
    if links != [] {
      assert links[0] != Link(id, tag) && Link(id, tag) !in links[1..];
      TagTouchesItsWorks(tags, tags', tag, links[1..], id);
    }
  }

  /** A work without links has no fandom names. */
  lemma {:induction false} UnlinkedHasNone(tags: map<nat, Tag>, links: seq<Link>, id: string)
    requires forall l :: l in links ==> l.work != id
    ensures Fandom(tags, links, id) == multiset{}
  {
    if links != [] {
      assert links[0] in links;
      UnlinkedHasNone(tags, links[1..], id);
    }
  }

  // ---- Deleting a work or a tag takes its links along

  /** The links that survive deleting a work. */
  function LinksWithout(links: seq<Link>, id: string): seq<Link> {
    if links == [] then []
    else if links[0].work == id then LinksWithout(links[1..], id)
    else [links[0]] + LinksWithout(links[1..], id)
  }

  /** The links that survive deleting a tag. */
  function LinksNotTo(links: seq<Link>, tag: nat): seq<Link> {
    if links == [] then []
    else if links[0].tag == tag then LinksNotTo(links[1..], tag)
    else [links[0]] + LinksNotTo(links[1..], tag)
  }

  lemma {:induction false} SurvivingLinks(links: seq<Link>, id: string, tag: nat)
    ensures forall l :: l in LinksWithout(links, id) <==> l in links && l.work != id
    ensures forall l :: l in LinksNotTo(links, tag) <==> l in links && l.tag != tag
  {
    if links != [] {
      SurvivingLinks(links[1..], id, tag);
      assert links == [links[0]] + links[1..];
    }
  }

  function FirstOfWork(links: seq<Link>, id: string): (k: nat)
    ensures k <= |links| && (k < |links| ==> links[k].work == id)
    ensures forall i :: 0 <= i < k ==> links[i].work != id
  {
    if links == [] || links[0].work == id then 0 else 1 + FirstOfWork(links[1..], id)
  }

  function FirstToTag(links: seq<Link>, tag: nat): (k: nat)
    ensures k <= |links| && (k < |links| ==> links[k].tag == tag)
    ensures forall i :: 0 <= i < k ==> links[i].tag != tag
  {
    if links == [] || links[0].tag == tag then 0 else 1 + FirstToTag(links[1..], tag)
  }

  lemma {:induction false} RemoveWithout(links: seq<Link>, k: nat)
    requires k < |links|
    ensures LinksWithout(links[..k] + links[k + 1..], links[k].work) == LinksWithout(links, links[k].work)
    ensures LinksNotTo(links[..k] + links[k + 1..], links[k].tag) == LinksNotTo(links, links[k].tag)
  {
    if k == 0 {
      assert links[..0] + links[1..] == links[1..];
    } else {
      RemoveWithout(links[1..], k - 1);
      assert (links[..k] + links[k + 1..])[1..] == links[1..][..k - 1] + links[1..][k..];
    }
  }

  lemma {:induction false} NothingWithout(links: seq<Link>, id: string, tag: nat)
    ensures (forall i :: 0 <= i < |links| ==> links[i].work != id) ==> LinksWithout(links, id) == links
    ensures (forall i :: 0 <= i < |links| ==> links[i].tag != tag) ==> LinksNotTo(links, tag) == links
  {
    if links != [] {
      NothingWithout(links[1..], id, tag);
      assert links == [links[0]] + links[1..];
      assert forall i :: 0 <= i < |links[1..]| ==> links[1..][i] == links[i + 1];
    }
  }

  /** Rows of other uploaders do not depend on a user's display name. */
  lemma UserTouchesItsWorks(t: Tables, users': map<string, string>, name: string, w: WorkRow)
    requires forall u :: u != name ==> (u in users' <==> u in t.users) && (u in t.users ==> users'[u] == t.users[u])
    requires w.uploader != Some(name)
    ensures RowFor(t.(users := users'), w) == RowFor(t, w)
  {
  }
}
