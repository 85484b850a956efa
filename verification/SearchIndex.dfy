/**
 The works search index as the database maintains it: base-table statements with the triggers of
 the runtime schema, row by row, and the full rebuild.
*/
module SearchIndex {
  import opened Wrappers
  import opened SearchView
  import opened SearchProofs

  datatype Command =
    | AddWork(rowid: nat, row: WorkRow)
    | ChangeWork(rowid: nat, row: WorkRow)
    | RemoveWork(rowid: nat)
    | AddLink(id: string, tagId: nat)
    | RemoveLink(position: nat)
    | AddTag(tagId: nat, tag: Tag)
    | ChangeTag(tagId: nat, tag: Tag)
    | RemoveTag(tagId: nat)
    | AddUser(name: string, display: string)
    | ChangeDisplayName(name: string, display: string)
    | RemoveUser(name: string)

  class SearchTables {
    var works: map<nat, WorkRow>
    var users: map<string, string>
    var tags: map<nat, Tag>
    var links: seq<Link>
    var index: map<nat, IndexRow>
    /**
     The index rows whose uploader was deleted since a trigger last selected them, with the display name they
     show.
    */
    ghost var kept: map<nat, string>

    function Base(): Tables
      reads this
    {
      Tables(works, users, tags, links)
    }

    ghost predicate Valid()
      reads this
    {
      Current(Base(), index, kept)
    }

    constructor ()
      ensures Valid() && kept == map[] && Base() == Tables(map[], map[], map[], [])
    {
      works, users, tags, links, index, kept := map[], map[], map[], [], map[], map[];
    }

    // ---- The two statements the triggers are made of

    /** `DELETE FROM works_search WHERE rowid IN (...)` */
    method IndexDelete(rows: set<nat>)
      modifies this`index
      ensures index == old(index) - rows
    {
      index := index - rows;
    }

    /** `INSERT INTO works_search`: the rowid must be free, or the statement fails. */
    method IndexInsert(row: nat, value: IndexRow)
      requires row !in index
      modifies this`index
      ensures index == old(index)[row := value]
    {
      index := index[row := value];
    }

    /** `INSERT INTO works_search ... SELECT ... FROM works w WHERE ...`, one row at a time. */
    method IndexInsertSelect(rows: set<nat>)
      requires rows <= works.Keys && rows !! index.Keys
      modifies this`index
      ensures index.Keys == old(index).Keys + rows
      ensures forall r :: r in index ==> index[r] == if r in rows then RowFor(Base(), works[r]) else old(index)[r]
    {
      var left := rows;
      while left != {}
        invariant left <= rows && left !! index.Keys
        invariant index.Keys == old(index).Keys + (rows - left)
        invariant forall r :: r in index ==> index[r] == if r in rows then RowFor(Base(), works[r]) else old(index)[r]
      {
        var r :| r in left;
        IndexInsert(r, RowFor(Base(), works[r]));
        left := left - {r};
      }
    }

    /** The body of most triggers: drop the index rows a change can touch and select them again. */
    method Refresh(rows: set<nat>)
      requires rows <= works.Keys
      modifies this`index
      ensures Refreshed(Base(), old(index), index, rows)
    {
      IndexDelete(rows);
      IndexInsertSelect(rows);
    }

    // ---- Works

    /** Insert a work: `works_search_ai`. The id is a primary key. */
    method InsertWork(rowid: nat, row: WorkRow) returns (ok: bool)
      requires Valid() && rowid !in works
      modifies this`works, this`index
      ensures Valid()
      ensures ok <==> !HasWork(old(works), row.id)
      ensures works == if ok then old(works)[rowid := row] else old(works)
    {
      InIndexIsWork(Base(), index, kept);
      hide Current, RowFor, HasWork;
      if HasWork(works, row.id) {
        return false;
      }
      WorkInserted(Base(), index, kept, rowid, row);
      works := works[rowid := row];
      IndexInsert(rowid, RowFor(Base(), row));
      return true;
    }

    /** The body of `works_search_au`. */
    method ReindexRow(rowid: nat)
      requires rowid in works
      modifies this`index
      ensures index == old(index)[rowid := RowFor(Base(), works[rowid])]
    {
      hide RowFor;
      IndexDelete({rowid});
      IndexInsert(rowid, RowFor(Base(), works[rowid]));
      assert (old(index) - {rowid})[rowid := RowFor(Base(), works[rowid])]
             == old(index)[rowid := RowFor(Base(), works[rowid])];
    }

    /**
     Update the indexed columns of a work: `works_search_au`. Changing the id is refused while tag
     links refer to the old one, or if the new one is taken.
    */
    method UpdateWork(rowid: nat, row: WorkRow) returns (ok: bool)
      requires Valid() && rowid in works
      modifies this`works, this`index, this`kept
      ensures Valid()
      ensures ok <==> IdChangeOk(old(Base()), old(works)[rowid].id, row.id)
      ensures works == if ok then old(works)[rowid := row] else old(works)
      ensures kept == if ok then old(kept) - {rowid} else old(kept)
    {
      hide Current, HasWork, RowFor, IdChangeOk;
      if !IdChangeOk(Base(), works[rowid].id, row.id) {
        return false;
      }
      WorkUpdated(Base(), index, kept, rowid, row);
      works := works[rowid := row];
      ReindexRow(rowid);
      kept := kept - {rowid};
      return true;
    }

    // ---- Tag links

    /** `INSERT OR IGNORE INTO work_tags`, with `works_search_work_tags_ai` if a row went in. */
    method InsertLink(id: string, tag: nat) returns (ok: bool)
      requires Valid()
      modifies this`links, this`index, this`kept
      ensures Valid()
      ensures ok <==> tag in tags && HasWork(works, id)
      ensures links == if ok && Link(id, tag) !in old(links) then old(links) + [Link(id, tag)] else old(links)
      ensures kept == if links != old(links) then old(kept) - RowsOf(works, id) else old(kept)
    {
      hide Current, Refreshed, RowFor, HasWork, RowsOf;
      if tag !in tags || !HasWork(works, id) {
        return false;
      }
      if Link(id, tag) in links {
        return true;
      }
      ghost var before, was := Base(), index;
      RowsKnown(works, id);
      links := links + [Link(id, tag)];
      Refresh(RowsOf(works, id));
      LinkAdded(before, Link(id, tag), was, index, kept);
      kept := kept - RowsOf(works, id);
      return true;
    }

    /** `DELETE FROM work_tags` for one row, with `works_search_work_tags_ad`. */
    method DeleteLinkAt(k: nat)
      requires Valid() && k < |links|
      modifies this`links, this`index, this`kept
      ensures Valid() && links == old(links)[..k] + old(links)[k + 1..]
      ensures kept == old(kept) - RowsOf(works, old(links)[k].work)
    {
      hide Current, Refreshed, RowFor, RowsOf;
      ghost var before, was := Base(), index;
      var id := links[k].work;
      RowsKnown(works, id);
      links := links[..k] + links[k + 1..];
      Refresh(RowsOf(works, id));
      LinkDeleted(before, k, was, index, kept);
      kept := kept - RowsOf(works, id);
    }

    /** One cascaded link of a deleted work: its trigger finds no work row and leaves the index alone. */
    method CascadeLink(k: nat, ghost id: string, ghost rowid: nat)
      requires k < |links| && links[k].work == id && Cascading(Base(), index, kept, id, rowid)
      modifies this`links, this`index
      ensures links == old(links)[..k] + old(links)[k + 1..] && Cascading(Base(), index, kept, id, rowid)
    {
      hide Cascading, Refreshed, RowFor, RowsOf;
      ghost var before, was := Base(), index;
      RowsKnown(works, id);
      var rows := RowsOf(works, links[k].work);
      links := links[..k] + links[k + 1..];
      Refresh(rows);
      CascadeStep(before, k, was, index, kept, id, rowid);
    }

    /** `ON DELETE CASCADE` from `works` to `work_tags`. */
    method CascadeLinks(id: string, ghost rowid: nat)
      requires Cascading(Base(), index, kept, id, rowid)
      modifies this`links, this`index
      ensures Cascading(Base(), index, kept, id, rowid)
      ensures links == LinksWithout(old(links), id) && forall i :: 0 <= i < |links| ==> links[i].work != id
    {
      hide Cascading;
      var k := FirstOfWork(links, id);
      while k < |links|
        invariant Cascading(Base(), index, kept, id, rowid) && k == FirstOfWork(links, id)
        invariant LinksWithout(links, id) == LinksWithout(old(links), id)
        decreases |links|
      {
        RemoveWithout(links, k);
        CascadeLink(k, id, rowid);
        k := FirstOfWork(links, id);
      }
      NothingWithout(links, id, 0);
    }

    /** Delete a work: the row, its links one by one with their triggers, then `works_search_ad`. */
    method DeleteWork(rowid: nat)
      requires Valid() && rowid in works
      modifies this
      ensures Valid() && kept == old(kept) - {rowid}
      ensures Base() == old(Base()).(works := old(works) - {rowid},
                                     links := LinksWithout(old(links), old(works)[rowid].id))
      ensures forall l :: l in links <==> l in old(links) && l.work != old(works)[rowid].id
    {
      SurvivingLinks(links, works[rowid].id, 0);
      hide Current, Cascading;
      var id := works[rowid].id;
      WorkGone(Base(), index, kept, rowid);
      works := works - {rowid};
      kept := kept - {rowid};
      CascadeLinks(id, rowid);
      CascadeEnds(Base(), index, kept, id, rowid);
      IndexDelete({rowid});
    }

    // ---- Tags

    /** Insert a tag; nothing links to it yet, and there is no trigger. */
    method InsertTag(id: nat, tag: Tag)
      requires Valid() && id !in tags
      modifies this`tags
      ensures Valid() && tags == old(tags)[id := tag]
    {
      hide Current;
      TagInserted(Base(), index, kept, id, tag);
      tags := tags[id := tag];
    }

    /**
     `INSERT ... SELECT ... JOIN work_tags wt ... WHERE wt.tag_id = ?`: one row per link, and never the same row
     twice.
    */
    method IndexInsertLinked(tag: nat, ghost rows: set<nat>)
      requires KeysOk(Base()) && rows == RowsLinked(Base(), tag) && rows !! index.Keys
      modifies this`index
      ensures index.Keys == old(index).Keys + rows
      ensures forall r :: r in index ==> index[r] == if r in rows then RowFor(Base(), works[r]) else old(index)[r]
    {
      ghost var put: set<nat> := {};
      for i := 0 to |links|
        invariant put == RowsLinked(Base().(links := links[..i]), tag) && put <= rows
        invariant index.Keys == old(index).Keys + put
        invariant forall r :: r in index ==> index[r] == if r in put then RowFor(Base(), works[r]) else old(index)[r]
      {
        LinkedStep(Base(), tag, i);
        if links[i].tag == tag {
          IndexInsertSelect(RowsOf(works, links[i].work));
          put := put + RowsOf(works, links[i].work);
        }
      }
      assert links[..|links|] == links;
    }

    method RefreshLinked(tag: nat)
      requires KeysOk(Base())
      modifies this`index
      ensures Refreshed(Base(), old(index), index, RowsLinked(Base(), tag))
    {
      hide KeysOk, RowFor;
      var rows := RowsLinked(Base(), tag);
      IndexDelete(rows);
      IndexInsertLinked(tag, rows);
    }

    /** Update a tag's name or type: `works_search_tags_au`. */
    method UpdateTag(id: nat, tag: Tag)
      requires Valid() && id in tags
      modifies this`tags, this`index, this`kept
      ensures Valid() && tags == old(tags)[id := tag] && kept == old(kept) - RowsLinked(Base(), id)
    {
      KeysUpdateTag(Base(), id, tag);
      LinkedIgnoresTags(Base(), tags[id := tag], id);
      hide Current, KeysOk, Refreshed, RowsLinked;
      ghost var before, was := Base(), index;
      tags := tags[id := tag];
      RefreshLinked(id);
      TagUpdated(before, id, tag, was, index, kept);
      kept := kept - RowsLinked(before, id);
    }

    /** One cascaded link of a deleted tag. */
    method CascadeTagLink(k: nat, ghost tag: nat)
      requires k < |links| && links[k].tag == tag && TagCascading(Base(), index, kept, tag)
      modifies this`links, this`index
      ensures links == old(links)[..k] + old(links)[k + 1..] && TagCascading(Base(), index, kept, tag)
    {
      hide TagCascading, Refreshed, RowFor, RowsOf;
      ghost var before, was := Base(), index;
      RowsKnown(works, links[k].work);
      var rows := RowsOf(works, links[k].work);
      links := links[..k] + links[k + 1..];
      Refresh(rows);
      TagLinkCascaded(before, k, was, index, kept, tag);
    }

    method CascadeTagLinks(tag: nat)
      requires TagCascading(Base(), index, kept, tag)
      modifies this`links, this`index
      ensures TagCascading(Base(), index, kept, tag)
      ensures links == LinksNotTo(old(links), tag) && forall i :: 0 <= i < |links| ==> links[i].tag != tag
    {
      hide TagCascading;
      var k := FirstToTag(links, tag);
      while k < |links|
        invariant TagCascading(Base(), index, kept, tag) && k == FirstToTag(links, tag)
        invariant LinksNotTo(links, tag) == LinksNotTo(old(links), tag)
        decreases |links|
      {
        RemoveWithout(links, k);
        CascadeTagLink(k, tag);
        k := FirstToTag(links, tag);
      }
      NothingWithout(links, "", tag);
    }

    /** Delete a tag: the row, then its links one by one with their triggers. */
    method DeleteTag(id: nat)
      requires Valid() && id in tags
      modifies this`tags, this`links, this`index, this`kept
      ensures Valid() && tags == old(tags) - {id} && links == LinksNotTo(old(links), id)
      ensures forall l :: l in links <==> l in old(links) && l.tag != id
      ensures kept == old(kept) - RowsLinked(old(Base()), id)
    {
      SurvivingLinks(links, "", id);
      hide Current, TagCascading, RowsLinked;
      TagGone(Base(), index, kept, id);
      kept := kept - RowsLinked(Base(), id);
      tags := tags - {id};
      CascadeTagLinks(id);
      TagCascadeEnds(Base(), index, kept, id);
    }

    // ---- Users

    /** The row of a user and the trigger that goes with it. */
    method PutUser(name: string, display: string)
      requires Valid()
      modifies this`users, this`kept, this`index
      ensures Valid() && users == old(users)[name := display] && kept == old(kept) - RowsBy(works, name)
    {
      hide Current, Refreshed, RowFor, RowsBy;
      ghost var before, was := Base(), index;
      RowsKnown(works, name);
      users := users[name := display];
      Refresh(RowsBy(works, name));
      UserRefreshed(before, name, display, was, index, kept);
      kept := kept - RowsBy(works, name);
    }

    /** Insert a user: `works_search_users_ai`. Usernames are unique. */
    method InsertUser(name: string, display: string) returns (ok: bool)
      requires Valid()
      modifies this`users, this`kept, this`index
      ensures Valid()
      ensures ok <==> name !in old(users)
      ensures users == if ok then old(users)[name := display] else old(users)
      ensures kept == if ok then old(kept) - RowsBy(works, name) else old(kept)
    {
      hide Current, Refreshed, RowFor, RowsBy;
      if name in users {
        return false;
      }
      PutUser(name, display);
      return true;
    }

    /** Update a display name: `works_search_users_au`. */
    method UpdateDisplayName(name: string, display: string)
      requires Valid() && name in users
      modifies this`users, this`kept, this`index
      ensures Valid() && users == old(users)[name := display] && kept == old(kept)
    {
      KeptNobody(Base(), kept, name);
      hide Current, RowsBy;
      PutUser(name, display);
    }

    /** `delete_user`: no trigger, so the user's rows keep the display name they had. */
    method DeleteUser(name: string)
      requires Valid()
      modifies this`users, this`kept
      ensures Valid() && users == old(users) - {name}
      ensures kept == if name in old(users) then old(kept) + LeftBehind(old(Base()), name) else old(kept)
    {
      hide Current, LeftBehind;
      if name in users {
        UserDeleted(Base(), index, kept, name);
        kept := kept + LeftBehind(Base(), name);
        users := users - {name};
      } else {
        assert users - {name} == users;
      }
    }

    // ---- Startup

    method RebuildAll()
      modifies this`index
      ensures index == View(Base())
    {
      hide RowFor;
      IndexDelete(index.Keys);
      IndexInsertSelect(works.Keys);
    }

    /** The rebuild at startup, which runs only if the row counts differ; it repairs any index whatever. */
    method RebuildIfMiscounted()
      modifies this`index
      ensures |old(index)| != |works| ==> index == View(Base())
      ensures |old(index)| == |works| ==> index == old(index)
    {
      if |works| != |index| {
        RebuildAll();
      }
    }

    // ---- Runs

    /** One statement; updates and deletes of rows that do not exist touch nothing. */
    method Apply(c: Command)
      requires Valid()
      modifies this
      ensures Valid()
      ensures !c.RemoveUser? ==> kept.Items <= old(kept).Items
    {
      hide Current, RowsOf, RowsBy, RowsLinked, LeftBehind, IdChangeOk, HasWork;
      match c {
        case AddWork(rowid, row) => if rowid !in works { var ok := InsertWork(rowid, row); }
        case ChangeWork(rowid, row) => if rowid in works { var ok := UpdateWork(rowid, row); }
        case RemoveWork(rowid) => if rowid in works { DeleteWork(rowid); }
        case AddLink(id, tag) => var ok := InsertLink(id, tag);
        case RemoveLink(k) => if k < |links| { DeleteLinkAt(k); }
        case AddTag(id, tag) => if id !in tags { InsertTag(id, tag); }
        case ChangeTag(id, tag) => if id in tags { UpdateTag(id, tag); }
        case RemoveTag(id) => if id in tags { DeleteTag(id); }
        case AddUser(name, display) => var ok := InsertUser(name, display);
        case ChangeDisplayName(name, display) => if name in users { UpdateDisplayName(name, display); }
        case RemoveUser(name) => DeleteUser(name);
      }
    }

    /**
     Any run of statements: every index row is the view's, with the display name kept for it if its uploader
     was deleted since; so the index is the view if and only if every name kept is the username. Without
     deletions of users nothing is kept. The row count is always right, so the startup rebuild never runs.
    */
    method Run(commands: seq<Command>)
      requires Valid()
      modifies this
      ensures Valid() && |index| == |works|
      ensures forall r :: r in works ==> r in index && index[r] == Shows(Base(), r, kept)
      ensures index == View(Base()) <==> forall r :: r in kept ==> r in works && works[r].uploader == Some(kept[r])
      ensures (forall c :: c in commands ==> !c.RemoveUser?) ==> kept.Items <= old(kept).Items
    {
      hide Current, Shows, View;
      for i := 0 to |commands|
        invariant Valid()
        invariant (forall c :: c in commands ==> !c.RemoveUser?) ==> kept.Items <= old(kept).Items
      {
        assert commands[i] in commands;
        Apply(commands[i]);
      }
      CurrentSize(Base(), index, kept);
      CurrentShows(Base(), index, kept);
    }
  }

  /**
   A user with a display name, a work of that user, and the user gone: the index shows the name, the view the
   username.
  */
  method DeletedNameLingers(name: string, display: string) returns (t: SearchTables)
    requires display != "" && display != name
    ensures fresh(t) && t.Valid() && 0 in t.index && 0 in t.works
    ensures t.index[0].displayName == display && RowFor(t.Base(), t.works[0]).displayName == name
    ensures t.index != View(t.Base())
  {
    t := new SearchTables();
    var ok := t.InsertUser(name, display);
    ok := t.InsertWork(0, WorkRow("w", "", "", Some(name)));
    DeletedUserLingers(t.Base(), t.index, t.kept, name, 0);
    hide Current, RowsBy, LeftBehind, View;
    t.DeleteUser(name);
  }
}
