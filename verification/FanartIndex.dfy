/** The fanart search index: the view it should show, and the triggers that keep it row by row. */
module FanartIndex {

  datatype ItemRow = ItemRow(id: string, uploader: string, title: string, summary: string, fandom: string)

  datatype IndexRow = IndexRow(item: ItemRow, displayName: string)

  /** `COALESCE(NULLIF(display_name, ''), uploader_username)`. */
  function ShownName(display: string, uploader: string): string {
    if display == "" then uploader else display
  }

  function Display(users: map<string, string>, uploader: string): string {
    if uploader in users then users[uploader] else ""
  }

  /** The row recomputed from the base tables. */
  function RowFor(users: map<string, string>, item: ItemRow): IndexRow {
    IndexRow(item, ShownName(Display(users, item.uploader), item.uploader))
  }

  /** A row shows its item, and a display name that is not blank before the username. */
  lemma RowColumns(users: map<string, string>, item: ItemRow)
    ensures RowFor(users, item).item == item
    ensures item.uploader in users && users[item.uploader] != "" ==>
              RowFor(users, item).displayName == users[item.uploader]
    ensures item.uploader !in users || users[item.uploader] == "" ==> RowFor(users, item).displayName == item.uploader
  {
  }

  function View(items: map<nat, ItemRow>, users: map<string, string>): map<nat, IndexRow> {
    map r | r in items :: RowFor(users, items[r])
  }

  /**
   What the index shows in one row: the view's row, with the display name in `kept` instead if there is one.
   `kept` has the rows whose uploader was deleted since a trigger last selected them.
  */
  function Shows(items: map<nat, ItemRow>, users: map<string, string>, kept: map<nat, string>, r: nat): IndexRow
    requires r in items
  {
    if r in kept then IndexRow(items[r], kept[r]) else RowFor(users, items[r])
  }

  ghost predicate Current(items: map<nat, ItemRow>, users: map<string, string>, index: map<nat, IndexRow>,
                          kept: map<nat, string>)
  {
    && index.Keys == items.Keys
    && (forall r :: r in items ==> index[r] == Shows(items, users, kept, r))
    && (forall r :: r in kept ==> r in items && items[r].uploader !in users)
  }

  /**
   The index is the recomputed view if and only if every name kept is the uploader's username, which the view
   shows instead.
  */
  lemma IndexIsViewIff(items: map<nat, ItemRow>, users: map<string, string>, index: map<nat, IndexRow>,
                       kept: map<nat, string>)
    requires Current(items, users, index, kept)
    ensures index == View(items, users) <==> forall r :: r in kept ==> items[r].uploader == kept[r]
  {
    forall r | r in items ensures index[r] == View(items, users)[r] <==> (r in kept ==> items[r].uploader == kept[r]) {
      assert index[r] == Shows(items, users, kept, r);
    }
  }

  function RowsBy(items: map<nat, ItemRow>, name: string): set<nat> {
    set r | r in items && items[r].uploader == name
  }

  /** What both user triggers do: the rows of one uploader are dropped and selected again under the new name. */
  lemma UserCurrent(items: map<nat, ItemRow>, users: map<string, string>, index: map<nat, IndexRow>,
                    kept: map<nat, string>, name: string, display: string, index': map<nat, IndexRow>)
    requires Current(items, users, index, kept) && index'.Keys == items.Keys
    requires forall r :: r in items ==>
      index'[r] == if items[r].uploader == name then IndexRow(items[r], ShownName(display, name)) else index[r]
    ensures Current(items, users[name := display], index', kept - RowsBy(items, name))
  {
    forall r | r in items ensures index'[r] == Shows(items, users[name := display], kept - RowsBy(items, name), r) {
      assert index[r] == Shows(items, users, kept, r);
    }
  }

  /** No name is kept for a user who is there. */
  lemma KeptNobody(items: map<nat, ItemRow>, users: map<string, string>, index: map<nat, IndexRow>,
                   kept: map<nat, string>, name: string)
    requires Current(items, users, index, kept) && name in users
    ensures kept - RowsBy(items, name) == kept
  {
  }

  /** What the rows of a deleted user go on showing. */
  function LeftBehind(items: map<nat, ItemRow>, users: map<string, string>, name: string): map<nat, string>
    requires name in users
  {
    map r | r in items && items[r].uploader == name :: ShownName(users[name], name)
  }

  lemma UserGone(items: map<nat, ItemRow>, users: map<string, string>, index: map<nat, IndexRow>,
                 kept: map<nat, string>, name: string)
    requires Current(items, users, index, kept) && name in users
    ensures Current(items, users - {name}, index, kept + LeftBehind(items, users, name))
  {
    var kept' := kept + LeftBehind(items, users, name);
    forall r | r in items ensures index[r] == Shows(items, users - {name}, kept', r) {
      assert index[r] == Shows(items, users, kept, r);
    }
  }

  /**
   Deleting a user whose display name is neither blank nor the username leaves the index different from the
   view, if there is fanart of that user.
  */
  lemma DeletedUserLingers(items: map<nat, ItemRow>, users: map<string, string>, index: map<nat, IndexRow>,
                           kept: map<nat, string>, name: string, r: nat)
    requires Current(items, users, index, kept) && name in users && users[name] != "" && users[name] != name
    requires r in items && items[r].uploader == name
    ensures index[r].displayName == users[name] && RowFor(users - {name}, items[r]).displayName == name
    ensures index != View(items, users - {name})
  {
    assert index[r] == Shows(items, users, kept, r);
    assert View(items, users - {name})[r] == RowFor(users - {name}, items[r]);
  }

  lemma RowPut(items: map<nat, ItemRow>, users: map<string, string>, index: map<nat, IndexRow>,
               kept: map<nat, string>, rowid: nat, row: ItemRow)
    requires Current(items, users, index, kept)
    ensures Current(items[rowid := row], users, index[rowid := RowFor(users, row)], kept - {rowid})
  {
    var next, selected := items[rowid := row], index[rowid := RowFor(users, row)];
    forall r | r in next ensures selected[r] == Shows(next, users, kept - {rowid}, r) {
      assert r != rowid ==> index[r] == Shows(items, users, kept, r);
    }
  }

  lemma RowGone(items: map<nat, ItemRow>, users: map<string, string>, index: map<nat, IndexRow>,
                kept: map<nat, string>, rowid: nat)
    requires Current(items, users, index, kept)
    ensures Current(items - {rowid}, users, index - {rowid}, kept - {rowid})
  {
    var rest, left := items - {rowid}, index - {rowid};
    forall r | r in rest ensures left[r] == Shows(rest, users, kept - {rowid}, r) {
      assert index[r] == Shows(items, users, kept, r);
    }
  }

  datatype Command =
    | AddItem(rowid: nat, row: ItemRow)
    | ChangeItem(rowid: nat, row: ItemRow)
    | RemoveItem(rowid: nat)
    | AddUser(name: string, display: string)
    | ChangeDisplayName(name: string, display: string)
    | RemoveUser(name: string)

  class FanartTables {
    var items: map<nat, ItemRow>
    var users: map<string, string>
    var index: map<nat, IndexRow>
    /**
     The index rows whose uploader was deleted since a trigger last selected them, with the display name they
     show.
    */
    ghost var kept: map<nat, string>

    ghost predicate Valid()
      reads this
    {
      Current(items, users, index, kept)
    }

    constructor ()
      ensures Valid() && kept == map[] && items == map[] && users == map[]
    {
      items, users, index, kept := map[], map[], map[], map[];
    }

    /** `fanart_search_ai`. */
    method InsertItem(rowid: nat, row: ItemRow)
      requires Valid() && rowid !in items
      modifies `items, `index
      ensures Valid() && items == old(items)[rowid := row]
    {
      RowPut(items, users, index, kept, rowid, row);
      assert kept - {rowid} == kept;
      hide Current, RowFor;
      items := items[rowid := row];
      index := index[rowid := RowFor(users, row)];
    }

    /** `fanart_search_au`. */
    method UpdateItem(rowid: nat, row: ItemRow)
      requires Valid() && rowid in items
      modifies `items, `index, `kept
      ensures Valid() && items == old(items)[rowid := row] && kept == old(kept) - {rowid}
    {
      hide Current, RowFor;
      RowPut(items, users, index, kept, rowid, row);
      assert (index - {rowid})[rowid := RowFor(users, row)] == index[rowid := RowFor(users, row)];
      items := items[rowid := row];
      index := index - {rowid};
      index := index[rowid := RowFor(users, row)];
      kept := kept - {rowid};
    }

    /** `fanart_search_ad`. */
    method DeleteItem(rowid: nat)
      requires Valid()
      modifies `items, `index, `kept
      ensures Valid() && items == old(items) - {rowid} && kept == old(kept) - {rowid}
    {
      hide Current;
      RowGone(items, users, index, kept, rowid);
      items := items - {rowid};
      index := index - {rowid};
      kept := kept - {rowid};
    }

    /** The body of `fanart_search_users_ai` and `fanart_search_users_au`. */
    method RefreshUploader(name: string, display: string)
      requires index.Keys == items.Keys
      modifies `index
      ensures index.Keys == items.Keys
      ensures forall r :: r in items ==>
        index[r] == if items[r].uploader == name then IndexRow(items[r], ShownName(display, name)) else old(index)[r]
    {
      var rows := RowsBy(items, name);
      index := index - rows;
      var left := rows;
      while left != {}
        invariant left <= rows && index.Keys == items.Keys - left
        invariant forall r :: r in index ==>
          index[r] == if items[r].uploader == name then IndexRow(items[r], ShownName(display, name)) else old(index)[r]
        decreases |left|
      {
        var r :| r in left;
        index := index[r := IndexRow(items[r], ShownName(display, items[r].uploader))];
        left := left - {r};
      }
    }

    /** The row of a user and the trigger that goes with it. */
    method PutUser(name: string, display: string)
      requires Valid()
      modifies `users, `index, `kept
      ensures Valid() && users == old(users)[name := display] && kept == old(kept) - RowsBy(items, name)
    {
      ghost var was := index;
      RefreshUploader(name, display);
      UserCurrent(items, users, was, kept, name, display, index);
      hide Current, RowsBy;
      users := users[name := display];
      kept := kept - RowsBy(items, name);
    }

    method InsertUser(name: string, display: string)
      requires Valid() && name !in users
      modifies `users, `index, `kept
      ensures Valid() && users == old(users)[name := display] && kept == old(kept) - RowsBy(items, name)
    {
      hide Current, RowsBy;
      PutUser(name, display);
    }

    method UpdateDisplayName(name: string, display: string)
      requires Valid() && name in users
      modifies `users, `index, `kept
      ensures Valid() && users == old(users)[name := display] && kept == old(kept)
    {
      hide Current, RowsBy;
      KeptNobody(items, users, index, kept, name);
      PutUser(name, display);
    }

    /** No trigger runs when a user is deleted. */
    method DeleteUser(name: string)
      requires Valid()
      modifies `users, `kept
      ensures Valid() && users == old(users) - {name}
      ensures kept == if name in old(users) then old(kept) + LeftBehind(items, old(users), name) else old(kept)
    {
      hide Current, LeftBehind;
      if name in users {
        UserGone(items, users, index, kept, name);
        kept := kept + LeftBehind(items, users, name);
        users := users - {name};
      } else {
        assert users - {name} == users;
      }
    }

    /**
     The rebuild of the runtime schema, whatever the index held before; on an index the triggers kept it does
     nothing.
    */
    method RebuildIfMiscounted()
      modifies `index
      ensures |old(index)| != |items| ==> index == View(items, users)
      ensures |old(index)| == |items| ==> index == old(index)
    {
      if |index| != |items| {
        index := map r | r in items :: RowFor(users, items[r]);
      }
    }

    /** One statement; updates and deletes of rows that do not exist touch nothing. */
    method Apply(c: Command)
      requires Valid()
      modifies this
      ensures Valid() && (!c.RemoveUser? ==> kept.Items <= old(kept).Items)
    {
      hide Current, RowsBy, LeftBehind;
      match c {
        case AddItem(rowid, row) => if rowid !in items { InsertItem(rowid, row); }
        case ChangeItem(rowid, row) => if rowid in items { UpdateItem(rowid, row); }
        case RemoveItem(rowid) => DeleteItem(rowid);
        case AddUser(name, display) => if name !in users { InsertUser(name, display); }
        case ChangeDisplayName(name, display) => if name in users { UpdateDisplayName(name, display); }
        case RemoveUser(name) => DeleteUser(name);
      }
    }

    /**
     Any run of statements: every index row is the view's, with the display name kept for it if its uploader
     was deleted since; so the index is the view if and only if every name kept is the username. Without
     deletions of users nothing is kept. The row count is always right, so the startup rebuild never runs.
    */
    method Run(commands: seq<Command>)
      requires Valid()
      modifies this
      ensures Valid() && |index| == |items|
      ensures forall r :: r in items ==> r in index && index[r] == Shows(items, users, kept, r)
      ensures index == View(items, users) <==> forall r :: r in kept ==> r in items && items[r].uploader == kept[r]
      ensures (forall c :: c in commands ==> !c.RemoveUser?) ==> kept.Items <= old(kept).Items
    {
      for i := 0 to |commands|
        invariant Valid()
        invariant (forall c :: c in commands ==> !c.RemoveUser?) ==> kept.Items <= old(kept).Items
      {
        assert commands[i] in commands;
        hide Current;
        Apply(commands[i]);
      }
      IndexIsViewIff(items, users, index, kept);
      assert |index| == |index.Keys| == |items.Keys| == |items|;
    }
  }

  /**
   A user with a display name, a picture of that user, and the user gone: the index shows the name, the view the
   username.
  */
  method DeletedNameLingers(name: string, display: string) returns (t: FanartTables)
    requires display != "" && display != name
    ensures fresh(t) && t.Valid() && 0 in t.index && 0 in t.items
    ensures t.index[0].displayName == display && RowFor(t.users, t.items[0]).displayName == name
    ensures t.index != View(t.items, t.users)
  {
    t := new FanartTables();
    t.InsertUser(name, display);
    t.InsertItem(0, ItemRow("f", name, "", "", ""));
    DeletedUserLingers(t.items, t.users, t.index, t.kept, name, 0);
    hide Current, RowsBy, LeftBehind, View;
    t.DeleteUser(name);
  }
}
