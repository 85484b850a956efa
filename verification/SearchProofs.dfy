/** What each statement and its triggers do to the search index, as facts about the tables and the view. */
module SearchProofs {
  import opened Wrappers
  import opened SearchView

  /** The keys hold, and the index shows exactly the view but for the names kept. */
  ghost predicate Current(t: Tables, index: map<nat, IndexRow>, kept: map<nat, string>) {
    KeysOk(t) && KeptOk(t, kept) && Agrees(t, index, kept)
  }

  lemma CurrentSize(t: Tables, index: map<nat, IndexRow>, kept: map<nat, string>)
    requires Current(t, index, kept)
    ensures |index| == |t.works|
  {
    assert |index| == |index.Keys| && |t.works| == |t.works.Keys|;
  }

  lemma CurrentShows(t: Tables, index: map<nat, IndexRow>, kept: map<nat, string>)
    requires Current(t, index, kept)
    ensures forall r :: r in t.works ==> r in index && index[r] == Shows(t, r, kept)
    ensures index == View(t) <==> forall r :: r in kept ==> r in t.works && t.works[r].uploader == Some(kept[r])
  {
    IndexIsViewIff(t, index, kept);
    hide Shows, View;
  }

  lemma InIndexIsWork(t: Tables, index: map<nat, IndexRow>, kept: map<nat, string>)
    requires Current(t, index, kept)
    ensures index.Keys == t.works.Keys
  {
  }

  /** `index'` is `index` with the given rows dropped and selected again from `t`. */
  ghost predicate Refreshed(t: Tables, index: map<nat, IndexRow>, index': map<nat, IndexRow>, rows: set<nat>) {
    && rows <= t.works.Keys && index'.Keys == index.Keys + rows
    && forall r :: r in index' ==> index'[r] == if r in rows then RowFor(t, t.works[r]) else index[r]
  }

  /**
   Refreshing the rows a change can touch brings the index back in step with the view, and settles the names
   kept for them.
  */
  lemma RefreshAgrees(t: Tables, t': Tables, index: map<nat, IndexRow>, index': map<nat, IndexRow>, rows: set<nat>,
                      kept: map<nat, string>)
    requires Agrees(t, index, kept) && t'.works == t.works && Refreshed(t', index, index', rows)
    requires forall r :: r in t.works && r !in rows ==> RowFor(t', t.works[r]) == RowFor(t, t.works[r])
    ensures Agrees(t', index', kept - rows)
  {
    hide RowFor;
    forall r | r in t.works ensures index'[r] == Shows(t', r, kept - rows) {
      assert index[r] == Shows(t, r, kept);
    }
  }

  function RowsOf(works: map<nat, WorkRow>, id: string): set<nat> {
    set r | r in works && works[r].id == id
  }

  function RowsBy(works: map<nat, WorkRow>, username: string): set<nat> {
    set r | r in works && works[r].uploader == Some(username)
  }

  lemma RowsKnown(works: map<nat, WorkRow>, key: string)
    ensures RowsOf(works, key) <= works.Keys && RowsBy(works, key) <= works.Keys
  {
  }

  // ---- Works

  lemma WorkPut(t: Tables, index: map<nat, IndexRow>, kept: map<nat, string>, rowid: nat, row: WorkRow)
    requires Agrees(t, index, kept) && KeptOk(t, kept)
    ensures var t' := t.(works := t.works[rowid := row]);
      Agrees(t', index[rowid := RowFor(t', row)], kept - {rowid}) && KeptOk(t', kept - {rowid})
  {
    hide Fandom, ShownName;
    var t' := t.(works := t.works[rowid := row]);
    forall r | r in t'.works ensures index[rowid := RowFor(t', row)][r] == Shows(t', r, kept - {rowid}) {
      if r != rowid {
        assert index[r] == Shows(t, r, kept);
      }
    }
  }

  lemma WorkInserted(t: Tables, index: map<nat, IndexRow>, kept: map<nat, string>, rowid: nat, row: WorkRow)
    requires Current(t, index, kept) && rowid !in t.works && !HasWork(t.works, row.id)
    ensures var t' := t.(works := t.works[rowid := row]); Current(t', index[rowid := RowFor(t', row)], kept)
  {
    KeysInsertWork(t, rowid, row);
    WorkPut(t, index, kept, rowid, row);
    assert kept - {rowid} == kept;
    hide KeysOk, Agrees, RowFor;
  }

  lemma WorkUpdated(t: Tables, index: map<nat, IndexRow>, kept: map<nat, string>, rowid: nat, row: WorkRow)
    requires Current(t, index, kept) && rowid in t.works && IdChangeOk(t, t.works[rowid].id, row.id)
    ensures var t' := t.(works := t.works[rowid := row]); Current(t', index[rowid := RowFor(t', row)], kept - {rowid})
  {
    KeysUpdateWork(t, rowid, row);
    WorkPut(t, index, kept, rowid, row);
    hide KeysOk, Agrees, KeptOk, RowFor;
  }

  // ---- Links

  lemma KeptSameWorks(t: Tables, t': Tables, kept: map<nat, string>, rows: set<nat>)
    requires KeptOk(t, kept) && t'.works == t.works && t'.users == t.users
    ensures KeptOk(t', kept - rows)
  {
  }

  lemma LinkAdded(t: Tables, l: Link, index: map<nat, IndexRow>, index': map<nat, IndexRow>, kept: map<nat, string>)
    requires Current(t, index, kept) && l.tag in t.tags && HasWork(t.works, l.work) && l !in t.links
    requires Refreshed(t.(links := t.links + [l]), index, index', RowsOf(t.works, l.work))
    ensures Current(t.(links := t.links + [l]), index', kept - RowsOf(t.works, l.work))
  {
    KeysInsertLink(t, l);
    hide KeysOk, Agrees, KeptOk, Refreshed, RowFor;
    var t' := t.(links := t.links + [l]);
    forall r | r in t.works && r !in RowsOf(t.works, l.work) ensures RowFor(t', t.works[r]) == RowFor(t, t.works[r]) {
      LinkTouchesItsWork(t, t.links, l, [], t.works[r]);
      assert t.links + [] == t.links && t'.links + [] == t'.links;
    }
    KeptSameWorks(t, t', kept, RowsOf(t.works, l.work));
    RefreshAgrees(t, t', index, index', RowsOf(t.works, l.work), kept);
  }

  /** The view outside the row of a removed link. */
  lemma LinkDropped(t: Tables, k: nat, index: map<nat, IndexRow>, index': map<nat, IndexRow>, kept: map<nat, string>)
    requires Agrees(t, index, kept) && k < |t.links|
    requires Refreshed(t.(links := t.links[..k] + t.links[k + 1..]), index, index', RowsOf(t.works, t.links[k].work))
    ensures Agrees(t.(links := t.links[..k] + t.links[k + 1..]), index', kept - RowsOf(t.works, t.links[k].work))
  {
    hide Agrees, Refreshed, RowFor;
    var l := t.links[k];
    var t' := t.(links := t.links[..k] + t.links[k + 1..]);
    assert t.links == t.links[..k] + [l] + t.links[k + 1..];
    forall r | r in t.works && r !in RowsOf(t.works, l.work) ensures RowFor(t', t.works[r]) == RowFor(t, t.works[r]) {
      LinkTouchesItsWork(t, t.links[..k], l, t.links[k + 1..], t.works[r]);
    }
    RefreshAgrees(t, t', index, index', RowsOf(t.works, l.work), kept);
  }

  lemma LinkDeleted(t: Tables, k: nat, index: map<nat, IndexRow>, index': map<nat, IndexRow>, kept: map<nat, string>)
    requires Current(t, index, kept) && k < |t.links|
    requires Refreshed(t.(links := t.links[..k] + t.links[k + 1..]), index, index', RowsOf(t.works, t.links[k].work))
    ensures Current(t.(links := t.links[..k] + t.links[k + 1..]), index', kept - RowsOf(t.works, t.links[k].work))
  {
    KeysDeleteLink(t, k);
    hide KeysOk, Agrees, KeptOk, Refreshed, RowFor, RowsOf;
    LinkDropped(t, k, index, index', kept);
    KeptSameWorks(t, t.(links := t.links[..k] + t.links[k + 1..]), kept, RowsOf(t.works, t.links[k].work));
  }

  // ---- Deleting a work takes its links along

  /** The keys while the links of a deleted work are being removed. */
  ghost predicate KeysBut(t: Tables, id: string) {
    && IdsUnique(t.works) && LinksUnique(t.links)
    && forall i :: 0 <= i < |t.links| ==>
         t.links[i].tag in t.tags && (t.links[i].work == id || HasWork(t.works, t.links[i].work))
  }

  /** Between the deletion of a work row and the end of its cascade. */
  ghost predicate Cascading(t: Tables, index: map<nat, IndexRow>, kept: map<nat, string>, id: string, rowid: nat) {
    && KeysBut(t, id) && !HasWork(t.works, id) && KeptOk(t, kept)
    && rowid in index && rowid !in t.works && Agrees(t, index - {rowid}, kept)
  }

  lemma NoRowsOf(works: map<nat, WorkRow>, id: string)
    requires !HasWork(works, id)
    ensures RowsOf(works, id) == {}
  {
    assert forall r :: r in works ==> works[r].id != id;
  }

  lemma KeysGone(t: Tables, rowid: nat)
    requires KeysOk(t) && rowid in t.works
    ensures KeysBut(t.(works := t.works - {rowid}), t.works[rowid].id) && !HasWork(t.works - {rowid}, t.works[rowid].id)
  {
    var works := t.works - {rowid};
    forall i | 0 <= i < |t.links| && t.links[i].work != t.works[rowid].id ensures HasWork(works, t.links[i].work) {
      assert HasWork(t.works, t.links[i].work);
      var r :| r in t.works && t.works[r].id == t.links[i].work;
      assert r in works;
    }
  }

  /** What a row should say depends on its own work, the users, the tags and the links, not on other works. */
  lemma RowForWorks(t: Tables, works: map<nat, WorkRow>, w: WorkRow)
    ensures RowFor(t.(works := works), w) == RowFor(t, w)
  {
    hide Fandom, ShownName;
  }

  lemma WorkGone(t: Tables, index: map<nat, IndexRow>, kept: map<nat, string>, rowid: nat)
    requires Current(t, index, kept) && rowid in t.works
    ensures Cascading(t.(works := t.works - {rowid}), index, kept - {rowid}, t.works[rowid].id, rowid)
  {
    hide KeysOk, KeysBut, RowFor;
    KeysGone(t, rowid);
    var t' := t.(works := t.works - {rowid});
    forall r | r in t'.works ensures (index - {rowid})[r] == Shows(t', r, kept - {rowid}) {
      assert index[r] == Shows(t, r, kept);
      RowForWorks(t, t'.works, t.works[r]);
    }
  }

  lemma KeysButStep(t: Tables, id: string, k: nat)
    requires KeysBut(t, id) && k < |t.links|
    ensures KeysBut(t.(links := t.links[..k] + t.links[k + 1..]), id)
  {
  }

  /** A cascaded link finds no work row, so its trigger refreshes nothing. */
  lemma CascadeStep(t: Tables, k: nat, index: map<nat, IndexRow>, index': map<nat, IndexRow>, kept: map<nat, string>,
                    id: string, rowid: nat)
    requires Cascading(t, index, kept, id, rowid) && k < |t.links| && t.links[k].work == id
    requires Refreshed(t.(links := t.links[..k] + t.links[k + 1..]), index, index', RowsOf(t.works, id))
    ensures Cascading(t.(links := t.links[..k] + t.links[k + 1..]), index', kept, id, rowid)
  {
    KeysButStep(t, id, k);
    NoRowsOf(t.works, id);
    assert index' == index;
    var t' := t.(links := t.links[..k] + t.links[k + 1..]);
    assert Refreshed(t', index - {rowid}, index - {rowid}, {});
    hide KeysBut, Agrees, Refreshed, RowFor, RowsOf, HasWork;
    LinkDropped(t, k, index - {rowid}, index - {rowid}, kept);
    assert kept - {} == kept;
  }

  lemma CascadeEnds(t: Tables, index: map<nat, IndexRow>, kept: map<nat, string>, id: string, rowid: nat)
    requires Cascading(t, index, kept, id, rowid) && forall i :: 0 <= i < |t.links| ==> t.links[i].work != id
    ensures Current(t, index - {rowid}, kept)
  {
    hide Agrees, KeptOk;
  }

  // ---- Tags

  function RowsLinked(t: Tables, tag: nat): set<nat> {
    set r | r in t.works && Link(t.works[r].id, tag) in t.links
  }

  lemma LinkedIgnoresTags(t: Tables, tags': map<nat, Tag>, tag: nat)
    ensures RowsLinked(t.(tags := tags'), tag) == RowsLinked(t, tag)
  {
  }

  lemma TagTouchesUnlinked(t: Tables, tags': map<nat, Tag>, id: nat, r: nat)
    requires r in t.works && r !in RowsLinked(t, id)
    requires forall k :: k != id ==> (k in t.tags <==> k in tags') && (k in t.tags ==> t.tags[k] == tags'[k])
    ensures RowFor(t.(tags := tags'), t.works[r]) == RowFor(t, t.works[r])
  {
    TagTouchesItsWorks(t.tags, tags', id, t.links, t.works[r].id);
  }

  lemma KeysInsertTag(t: Tables, id: nat, tag: Tag)
    requires KeysOk(t) && id !in t.tags
    ensures KeysOk(t.(tags := t.tags[id := tag])) && RowsLinked(t, id) == {}
  {
    forall r | r in t.works ensures Link(t.works[r].id, id) !in t.links {
      assert forall i :: 0 <= i < |t.links| ==> t.links[i].tag != id;
    }
  }

  lemma TagInserted(t: Tables, index: map<nat, IndexRow>, kept: map<nat, string>, id: nat, tag: Tag)
    requires Current(t, index, kept) && id !in t.tags
    ensures Current(t.(tags := t.tags[id := tag]), index, kept)
  {
    KeysInsertTag(t, id, tag);
    hide KeysOk, RowFor, RowsLinked;
    var t' := t.(tags := t.tags[id := tag]);
    forall r | r in t.works ensures index[r] == Shows(t', r, kept) {
      assert index[r] == Shows(t, r, kept);
      TagTouchesUnlinked(t, t'.tags, id, r);
    }
  }

  lemma KeysUpdateTag(t: Tables, id: nat, tag: Tag)
    requires KeysOk(t) && id in t.tags
    ensures KeysOk(t.(tags := t.tags[id := tag]))
  {
  }

  lemma TagUpdated(t: Tables, id: nat, tag: Tag, index: map<nat, IndexRow>, index': map<nat, IndexRow>,
                   kept: map<nat, string>)
    requires Current(t, index, kept) && id in t.tags
    requires Refreshed(t.(tags := t.tags[id := tag]), index, index', RowsLinked(t, id))
    ensures Current(t.(tags := t.tags[id := tag]), index', kept - RowsLinked(t, id))
  {
    KeysUpdateTag(t, id, tag);
    hide KeysOk, Agrees, KeptOk, Refreshed, RowFor, RowsLinked;
    var t' := t.(tags := t.tags[id := tag]);
    forall r | r in t.works && r !in RowsLinked(t, id) ensures RowFor(t', t.works[r]) == RowFor(t, t.works[r]) {
      TagTouchesUnlinked(t, t'.tags, id, r);
    }
    KeptSameWorks(t, t', kept, RowsLinked(t, id));
    RefreshAgrees(t, t', index, index', RowsLinked(t, id), kept);
  }

  /** The next link to the tag brings in rows that no earlier link brought in. */
  lemma LinkedStep(t: Tables, tag: nat, i: nat)
    requires KeysOk(t) && i < |t.links|
    ensures var put := RowsLinked(t.(links := t.links[..i]), tag);
      var rows := RowsOf(t.works, t.links[i].work);
      RowsLinked(t.(links := t.links[..i + 1]), tag) == (if t.links[i].tag == tag then put + rows else put)
      && (t.links[i].tag == tag ==> put !! rows && rows <= RowsLinked(t, tag))
  {
    var put := RowsLinked(t.(links := t.links[..i]), tag);
    assert t.links[..i + 1] == t.links[..i] + [t.links[i]];
    if t.links[i].tag == tag {
      forall r | r in t.works && t.works[r].id == t.links[i].work ensures r !in put && r in RowsLinked(t, tag) {
        assert t.links[i] == Link(t.works[r].id, tag);
        assert forall j :: 0 <= j < i ==> t.links[..i][j] == t.links[j];
      }
    }
  }

  // ---- Deleting a tag takes its links along

  /** The keys while the links of a deleted tag are being removed. */
  ghost predicate TagKeys(t: Tables, tag: nat) {
    && IdsUnique(t.works) && LinksUnique(t.links) && tag !in t.tags
    && (forall i :: 0 <= i < |t.links| ==>
          HasWork(t.works, t.links[i].work) && (t.links[i].tag == tag || t.links[i].tag in t.tags))
  }

  /** Between the deletion of a tag and the end of its cascade, the works still linked to it may be out of date. */
  ghost predicate TagCascading(t: Tables, index: map<nat, IndexRow>, kept: map<nat, string>, tag: nat) {
    && TagKeys(t, tag) && KeptOk(t, kept) && kept.Keys !! RowsLinked(t, tag)
    && index.Keys == t.works.Keys
    && (forall r :: r in t.works && r !in RowsLinked(t, tag) ==> index[r] == Shows(t, r, kept))
  }

  lemma TagKeysStep(t: Tables, tag: nat, k: nat)
    requires TagKeys(t, tag) && k < |t.links|
    ensures TagKeys(t.(links := t.links[..k] + t.links[k + 1..]), tag)
  {
  }

  lemma TagKeysGone(t: Tables, id: nat)
    requires KeysOk(t)
    ensures TagKeys(t.(tags := t.tags - {id}), id)
  {
  }

  lemma TagGone(t: Tables, index: map<nat, IndexRow>, kept: map<nat, string>, id: nat)
    requires Current(t, index, kept)
    ensures TagCascading(t.(tags := t.tags - {id}), index, kept - RowsLinked(t, id), id)
  {
    hide KeysOk, KeptOk, RowFor, RowsLinked;
    var t' := t.(tags := t.tags - {id});
    TagKeysGone(t, id);
    LinkedIgnoresTags(t, t'.tags, id);
    KeptSameWorks(t, t', kept, RowsLinked(t, id));
    forall r | r in t.works && r !in RowsLinked(t, id) ensures index[r] == Shows(t', r, kept - RowsLinked(t, id)) {
      assert index[r] == Shows(t, r, kept);
      TagTouchesUnlinked(t, t'.tags, id, r);
    }
    hide TagKeys, Agrees;
  }

  lemma OtherWorkKept(t: Tables, k: nat, w: WorkRow, tag: nat)
    requires k < |t.links| && t.links[k].work != w.id
    ensures var t' := t.(links := t.links[..k] + t.links[k + 1..]);
      RowFor(t', w) == RowFor(t, w) && (Link(w.id, tag) in t.links <==> Link(w.id, tag) in t'.links)
  {
    assert t.links == t.links[..k] + [t.links[k]] + t.links[k + 1..];
    LinkTouchesItsWork(t, t.links[..k], t.links[k], t.links[k + 1..], w);
  }

  lemma OtherRowKept(t: Tables, k: nat, r: nat)
    requires k < |t.links| && r in t.works && r !in RowsOf(t.works, t.links[k].work)
    ensures RowFor(t.(links := t.links[..k] + t.links[k + 1..]), t.works[r]) == RowFor(t, t.works[r])
  {
    OtherWorkKept(t, k, t.works[r], 0);
  }

  lemma LinkedLeaves(t: Tables, k: nat, tag: nat)
    requires k < |t.links|
    ensures var t' := t.(links := t.links[..k] + t.links[k + 1..]);
      && RowsLinked(t', tag) <= RowsLinked(t, tag)
      && forall r :: r in t.works && r !in RowsLinked(t', tag) && r in RowsLinked(t, tag) ==>
           r in RowsOf(t.works, t.links[k].work)
  {
    var t' := t.(links := t.links[..k] + t.links[k + 1..]);
    assert forall l :: l in t'.links ==> l in t.links;
    forall r | r in t.works && r !in RowsOf(t.works, t.links[k].work) && r in RowsLinked(t, tag)
      ensures r in RowsLinked(t', tag)
    {
      OtherWorkKept(t, k, t.works[r], tag);
    }
  }

  lemma LinkedRows(t: Tables, k: nat)
    requires k < |t.links|
    ensures RowsOf(t.works, t.links[k].work) <= RowsLinked(t, t.links[k].tag)
  {
    forall r | r in RowsOf(t.works, t.links[k].work) ensures r in RowsLinked(t, t.links[k].tag) {
      assert t.links[k] == Link(t.works[r].id, t.links[k].tag);
    }
  }

  lemma TagLinkCascaded(t: Tables, k: nat, index: map<nat, IndexRow>, index': map<nat, IndexRow>,
                        kept: map<nat, string>, tag: nat)
    requires TagCascading(t, index, kept, tag) && k < |t.links| && t.links[k].tag == tag
    requires Refreshed(t.(links := t.links[..k] + t.links[k + 1..]), index, index', RowsOf(t.works, t.links[k].work))
    ensures TagCascading(t.(links := t.links[..k] + t.links[k + 1..]), index', kept, tag)
  {
    hide TagKeys, KeptOk, RowFor, RowsLinked, RowsOf;
    var t' := t.(links := t.links[..k] + t.links[k + 1..]);
    TagKeysStep(t, tag, k);
    LinkedLeaves(t, k, tag);
    LinkedRows(t, k);
    KeptSameWorks(t, t', kept, {});
    assert kept - {} == kept;
    forall r | r in t.works && r !in RowsLinked(t', tag) ensures index'[r] == Shows(t', r, kept) {
      if r !in RowsOf(t.works, t.links[k].work) {
        OtherRowKept(t, k, r);
        assert index[r] == Shows(t, r, kept);
      }
    }
  }

  lemma TagCascadeEnds(t: Tables, index: map<nat, IndexRow>, kept: map<nat, string>, tag: nat)
    requires TagCascading(t, index, kept, tag) && forall i :: 0 <= i < |t.links| ==> t.links[i].tag != tag
    ensures Current(t, index, kept)
  {
    assert RowsLinked(t, tag) == {};
    hide Shows, KeptOk, RowsLinked;
  }

  // ---- Users

  lemma KeysUsers(t: Tables, users': map<string, string>)
    requires KeysOk(t)
    ensures KeysOk(t.(users := users'))
  {
  }

  lemma KeptUserAdded(t: Tables, kept: map<nat, string>, name: string, display: string)
    requires KeptOk(t, kept)
    ensures KeptOk(t.(users := t.users[name := display]), kept - RowsBy(t.works, name))
  {
  }

  /**
   Both user triggers: the rows of that uploader are selected again under the new display name, and no name is
   kept for them.
  */
  lemma UserRefreshed(t: Tables, name: string, display: string, index: map<nat, IndexRow>, index': map<nat, IndexRow>,
                      kept: map<nat, string>)
    requires Current(t, index, kept)
    requires Refreshed(t.(users := t.users[name := display]), index, index', RowsBy(t.works, name))
    ensures Current(t.(users := t.users[name := display]), index', kept - RowsBy(t.works, name))
  {
    var t' := t.(users := t.users[name := display]);
    hide KeysOk, KeptOk, Agrees, Refreshed, RowFor;
    KeysUsers(t, t'.users);
    KeptUserAdded(t, kept, name, display);
    forall r | r in t.works && r !in RowsBy(t.works, name) ensures RowFor(t', t.works[r]) == RowFor(t, t.works[r]) {
      UserTouchesItsWorks(t, t'.users, name, t.works[r]);
    }
    RefreshAgrees(t, t', index, index', RowsBy(t.works, name), kept);
  }

  /** No name is kept for a user who is there. */
  lemma KeptNobody(t: Tables, kept: map<nat, string>, name: string)
    requires KeptOk(t, kept) && name in t.users
    ensures kept - RowsBy(t.works, name) == kept
  {
  }

  /** What the rows of a deleted user go on showing. */
  function LeftBehind(t: Tables, name: string): map<nat, string> {
    map r | r in t.works && t.works[r].uploader == Some(name) :: ShownName(t.users, Some(name))
  }

  lemma KeptUserGone(t: Tables, kept: map<nat, string>, name: string)
    requires KeptOk(t, kept)
    ensures KeptOk(t.(users := t.users - {name}), kept + LeftBehind(t, name))
  {
    hide ShownName;
  }

  lemma RowUserGone(t: Tables, kept: map<nat, string>, name: string, r: nat)
    requires KeptOk(t, kept) && name in t.users && r in t.works
    ensures Shows(t.(users := t.users - {name}), r, kept + LeftBehind(t, name)) == Shows(t, r, kept)
  {
    hide Fandom;
    if t.works[r].uploader == Some(name) {
      assert r in LeftBehind(t, name) && r !in kept;
    }
  }

  lemma UserDeleted(t: Tables, index: map<nat, IndexRow>, kept: map<nat, string>, name: string)
    requires Current(t, index, kept) && name in t.users
    ensures Current(t.(users := t.users - {name}), index, kept + LeftBehind(t, name))
  {
    var t', kept' := t.(users := t.users - {name}), kept + LeftBehind(t, name);
    hide KeysOk, KeptOk, Shows, LeftBehind;
    KeysUsers(t, t'.users);
    KeptUserGone(t, kept, name);
    forall r | r in t.works ensures index[r] == Shows(t', r, kept') {
      RowUserGone(t, kept, name, r);
    }
  }

  /**
   Deleting a user whose display name is neither blank nor the username leaves the index different from the
   view, if there is a work of that user.
  */
  lemma DeletedUserLingers(t: Tables, index: map<nat, IndexRow>, kept: map<nat, string>, name: string, r: nat)
    requires Current(t, index, kept) && name in t.users && t.users[name] != "" && t.users[name] != name
    requires r in t.works && t.works[r].uploader == Some(name)
    ensures var t' := t.(users := t.users - {name});
      index[r].displayName == t.users[name] && View(t')[r].displayName == name && index != View(t')
  {
    hide Fandom, KeysOk;
    assert index[r] == Shows(t, r, kept);
  }
}
