/** What the page rewrites do to the filenames in page order. */
module Pages {
  import opened Wrappers
  import opened PageOrder
  import opened WorkModel
  import opened Editor

  lemma RenumberNumbers(pages: seq<Page>)
    ensures Numbered(Renumber(pages)) && Order(Renumber(pages)) == Order(pages)
    ensures Numbered(pages) ==> Renumber(pages) == pages
  {
  }

  lemma OrderInsert(pages: seq<Page>, i: nat, row: Page)
    requires i <= |pages|
    ensures Order(InsertAt(pages, i, row)) == InsertAt(Order(pages), i, row.image)
  {
  }

  lemma OrderRemove(pages: seq<Page>, i: nat)
    requires i < |pages|
    ensures Order(RemoveAt(pages, i)) == RemoveAt(Order(pages), i)
  {
  }

  lemma InsertNames(s: seq<Name>, i: nat, n: Name)
    requires i <= |s|
    ensures Names(InsertAt(s, i, n)) == Names(s) + {n}
  {
    var t := InsertAt(s, i, n);
    assert t[i] == n;
    forall x | x in s ensures x in t {
      var k :| 0 <= k < |s| && s[k] == x;
      assert t[if k < i then k else k + 1] == x;
    }
  }

  /** Inserting a filename keeps the list free of repeats exactly when the name is new. */
  lemma DistinctInsert(s: seq<Name>, i: nat, n: Name)
    requires i <= |s|
    ensures Distinct(InsertAt(s, i, n)) <==> Distinct(s) && n !in s
  {
    var t := InsertAt(s, i, n);
    assert forall k :: 0 <= k < |s| ==> s[k] == t[if k < i then k else k + 1];
    assert t[i] == n;
    if Distinct(t) {
      forall j, k | 0 <= j < k < |s| ensures s[j] != s[k] {
        assert s[j] == t[if j < i then j else j + 1] && s[k] == t[if k < i then k else k + 1];
      }
      forall k | 0 <= k < |s| ensures s[k] != n {
        assert s[k] == t[if k < i then k else k + 1];
      }
    }
  }

  lemma InsertRemove<T>(s: seq<T>, i: nat, x: T)
    requires i <= |s|
    ensures InsertAt(s, i, x)[i] == x && RemoveAt(InsertAt(s, i, x), i) == s
  {
  }

  lemma RemoveInsert<T>(s: seq<T>, i: nat)
    requires i < |s|
    ensures InsertAt(RemoveAt(s, i), i, s[i]) == s
  {
  }

  lemma RemoveDistinct(s: seq<Name>, i: nat)
    requires i < |s| && Distinct(s)
    ensures Distinct(RemoveAt(s, i)) && Names(RemoveAt(s, i)) == Names(s) - {s[i]}
  {
    RemoveInsert(s, i);
    DistinctInsert(RemoveAt(s, i), i, s[i]);
    InsertNames(RemoveAt(s, i), i, s[i]);
  }

  ghost predicate NumberedFrom(pages: seq<Page>, k: nat) {
    forall i :: 0 <= i < |pages| ==> pages[i].index == k + i + 1
  }

  lemma NumberedRest(pages: seq<Page>, k: nat)
    requires NumberedFrom(pages, k) && pages != []
    ensures NumberedFrom(pages[1..], k + 1) && pages[0].index == k + 1
  {
    assert forall i :: 0 <= i < |pages[1..]| ==> pages[1..][i] == pages[i + 1];
  }

  lemma {:induction false} PageAtShifted(pages: seq<Page>, index: int, k: nat)
    requires NumberedFrom(pages, k)
    ensures PageAt(pages, index) == if k < index <= k + |pages| then Some(pages[index - k - 1]) else None
    decreases |pages|
  {
    if pages != [] {
      NumberedRest(pages, k);
      PageAtShifted(pages[1..], index, k + 1);
    }
  }

  lemma RemoveAtRest<T>(s: seq<T>, i: nat)
    requires i < |s|
    ensures RemoveAt(s, i) == if i == 0 then s[1..] else [s[0]] + RemoveAt(s[1..], i - 1)
  {
    if i > 0 {
      assert s[..i] == [s[0]] + s[1..][..i - 1];
      assert s[i + 1..] == s[1..][i..];
    }
  }

  lemma {:induction false} WithoutShifted(pages: seq<Page>, index: int, k: nat)
    requires NumberedFrom(pages, k)
    ensures Without(pages, index) == if k < index <= k + |pages| then RemoveAt(pages, index - k - 1) else pages
    decreases |pages|
  {
    if pages != [] {
      NumberedRest(pages, k);
      hide NumberedFrom, RemoveAt;
      WithoutShifted(pages[1..], index, k + 1);
      assert pages == [pages[0]] + pages[1..];
      if index == k + 1 {
        RemoveAtRest(pages, 0);
      } else if k < index <= k + |pages| {
        RemoveAtRest(pages, index - k - 1);
      }
    }
  }

  /** On numbered rows, looking up and dropping an index are looking up and dropping a position. */
  lemma PageAtNumbered(pages: seq<Page>, index: int)
    requires Numbered(pages)
    ensures PageAt(pages, index) == if 1 <= index <= |pages| then Some(pages[index - 1]) else None
    ensures 1 <= index <= |pages| ==> Without(pages, index) == RemoveAt(pages, index - 1)
  {
    PageAtShifted(pages, index, 0);
    WithoutShifted(pages, index, 0);
  }

  lemma OrderReplaced(pages: seq<Page>, index: int, row: Page)
    requires Numbered(pages) && 1 <= index <= |pages| && row.index == index
    ensures Replaced(pages, index, row) == pages[index - 1 := row] && Numbered(Replaced(pages, index, row))
    ensures Order(Replaced(pages, index, row)) == Order(pages)[index - 1 := row.image]
  {
  }

  /** Overwriting a filename keeps the list free of repeats exactly when no other page has the new name. */
  lemma DistinctUpdate(s: seq<Name>, k: nat, n: Name)
    requires k < |s| && Distinct(s)
    ensures Distinct(s[k := n]) <==> n !in RemoveAt(s, k)
  {
    RemoveDistinct(s, k);
    assert s[k := n] == InsertAt(RemoveAt(s, k), k, n);
    DistinctInsert(RemoveAt(s, k), k, n);
  }

  lemma OrderMoved(pages: seq<Page>, from: nat, to: nat)
    requires 1 <= from <= |pages| && 1 <= to <= |pages|
    ensures Order(Moved(pages, from, to)) == InsertAt(RemoveAt(Order(pages), from - 1), to - 1, Order(pages)[from - 1])
    ensures Numbered(Moved(pages, from, to))
  {
    RenumberNumbers(InsertAt(RemoveAt(pages, from - 1), to - 1, pages[from - 1]));
    OrderRemove(pages, from - 1);
    OrderInsert(RemoveAt(pages, from - 1), to - 1, pages[from - 1]);
  }

  lemma MovedNames(pages: seq<Page>, from: nat, to: nat)
    requires 1 <= from <= |pages| && 1 <= to <= |pages| && Distinct(Order(pages))
    ensures Distinct(Order(Moved(pages, from, to))) && Names(Order(Moved(pages, from, to))) == Names(Order(pages))
  {
    OrderMoved(pages, from, to);
    RemoveDistinct(Order(pages), from - 1);
    DistinctInsert(RemoveAt(Order(pages), from - 1), to - 1, Order(pages)[from - 1]);
    InsertNames(RemoveAt(Order(pages), from - 1), to - 1, Order(pages)[from - 1]);
    hide Distinct, Names, RemoveAt, InsertAt, Moved;
  }

  /** The columns that travel with a row. */
  function Bare(pages: seq<Page>): (r: seq<Page>)
    ensures |r| == |pages|
  {
    seq(|pages|, i requires 0 <= i < |pages| => pages[i].(index := 0))
  }

  lemma BareRenumber(pages: seq<Page>)
    ensures Bare(Renumber(pages)) == Bare(pages)
  {
  }

  lemma BareInsert(pages: seq<Page>, i: nat, row: Page)
    requires i <= |pages|
    ensures Bare(InsertAt(pages, i, row)) == InsertAt(Bare(pages), i, row.(index := 0))
  {
  }

  lemma BareRemove(pages: seq<Page>, i: nat)
    requires i < |pages|
    ensures Bare(RemoveAt(pages, i)) == RemoveAt(Bare(pages), i)
  {
  }

  lemma BareMove(pages: seq<Page>, from: nat, to: nat)
    requires 1 <= from <= |pages| && 1 <= to <= |pages|
    ensures Bare(Moved(pages, from, to)) == InsertAt(RemoveAt(Bare(pages), from - 1), to - 1, Bare(pages)[from - 1])
  {
    var rest := RemoveAt(pages, from - 1);
    assert Bare(pages)[from - 1] == pages[from - 1].(index := 0);
    BareRemove(pages, from - 1);
    BareInsert(rest, to - 1, pages[from - 1]);
    hide Bare;
    BareRenumber(InsertAt(rest, to - 1, pages[from - 1]));
  }

  lemma BareAt(pages: seq<Page>, i: nat)
    requires Numbered(pages) && i < |pages|
    ensures pages[i] == Bare(pages)[i].(index := i + 1)
  {
    assert Bare(pages)[i] == pages[i].(index := 0);
  }

  lemma NumberedBare(a: seq<Page>, b: seq<Page>)
    requires Numbered(a) && Numbered(b) && Bare(a) == Bare(b)
    ensures a == b
  {
    hide Numbered;
    assert |a| == |b|;
    forall i | 0 <= i < |a| ensures a[i] == b[i] {
      BareAt(a, i);
      BareAt(b, i);
    }
  }

  /** Moving a page and moving it back restores every row. */
  lemma MoveThereAndBack(pages: seq<Page>, from: nat, to: nat)
    requires 1 <= from <= |pages| && 1 <= to <= |pages| && Numbered(pages)
    ensures Moved(Moved(pages, from, to), to, from) == pages
  {
    var moved := Moved(pages, from, to);
    OrderMoved(pages, from, to);
    OrderMoved(moved, to, from);
    BareMove(pages, from, to);
    BareMove(moved, to, from);
    InsertRemove(RemoveAt(Bare(pages), from - 1), to - 1, Bare(pages)[from - 1]);
    RemoveInsert(Bare(pages), from - 1);
    NumberedBare(Moved(moved, to, from), pages);
  }

  // ---- Gallery order

  lemma {:induction false} DistinctCount(s: seq<Name>)
    requires Distinct(s)
    ensures |Names(s)| == |s|
  {
    if s != [] {
      var rest := s[1..];
      assert forall i :: 0 <= i < |rest| ==> rest[i] == s[i + 1];
      DistinctCount(rest);
      assert s[0] !in Names(rest);
      assert Names(s) == Names(rest) + {s[0]};
    }
  }

  lemma SubsetSameSize<T>(a: set<T>, b: set<T>)
    requires a <= b && |a| == |b|
    ensures a == b
  {
    assert |b - a| == |b| - |a|;
  }

  /** The cardinality test of a reorder is the test that every page is named. */
  lemma MentionsComplete(requested: seq<Name>, known: set<Name>)
    ensures var order := FirstMentions(requested, known, {});
      && Distinct(order)
      && (|order| == |known| <==> known <= Names(requested))
      && (|order| == |known| ==> Names(order) == known)
  {
    var order := FirstMentions(requested, known, {});
    MentionsKnown(requested, known, {});
    DistinctCount(order);
    assert Names(order) <= known;
    if known <= Names(requested) {
      assert Names(order) == known;
    }
    if |order| == |known| {
      SubsetSameSize(Names(order), known);
    }
  }

  lemma MentionedLater(requested: seq<Name>, known: set<Name>, seen: set<Name>, n: Name)
    requires requested != [] && n in FirstMentions(requested[1..], known, seen + {requested[0]})
    ensures n in requested && n != requested[0] && n in requested[1..]
    ensures IndexOf(requested, n) == 1 + IndexOf(requested[1..], n)
  {
    MentionsKnown(requested[1..], known, seen + {requested[0]});
    IndexOfTail(requested, n);
  }

  lemma MentionedAfter(requested: seq<Name>, known: set<Name>, seen: set<Name>, n: Name)
    requires requested != [] && !(requested[0] in known && requested[0] !in seen)
    requires n in FirstMentions(requested[1..], known, seen)
    ensures n in requested && n != requested[0] && n in requested[1..]
    ensures IndexOf(requested, n) == 1 + IndexOf(requested[1..], n)
  {
    MentionsKnown(requested[1..], known, seen);
    IndexOfTail(requested, n);
  }

  lemma TailFollows(order: seq<Name>, rest: seq<Name>, members: seq<Name>)
    requires Follows(rest, members)
    requires forall n :: n in members ==> n in order && n in rest && IndexOf(order, n) == 1 + IndexOf(rest, n)
    ensures Follows(order, members)
  {
    hide IndexOf;
  }

  lemma HeadFollows(order: seq<Name>, rest: seq<Name>, members: seq<Name>)
    requires order != [] && Follows(order, members)
    requires forall n :: n in members ==> n in rest && n in order && IndexOf(order, n) == 1 + IndexOf(rest, n)
    ensures Follows(order, [order[0]] + members)
  {
    assert IndexOf(order, order[0]) == 0;
    hide IndexOf;
    var longer := [order[0]] + members;
    forall i, j | 0 <= i < j < |longer|
      ensures longer[i] in order && longer[j] in order && IndexOf(order, longer[i]) < IndexOf(order, longer[j])
    {
      assert longer[j] == members[j - 1];
      if i > 0 {
        assert longer[i] == members[i - 1];
      }
    }
  }

  lemma NoneFollow(order: seq<Name>)
    ensures Follows(order, [])
  {
  }

  /** Names come in the order in which the request first mentions them. */
  lemma {:induction false} MentionsInOrder(requested: seq<Name>, known: set<Name>, seen: set<Name>)
    ensures Follows(requested, FirstMentions(requested, known, seen))
    decreases |requested|
  {
    hide IndexOf, Distinct, Follows;
    if requested == [] {
      NoneFollow(requested);
    } else if requested[0] in known && requested[0] !in seen {
      var rest, more := requested[1..], seen + {requested[0]};
      MentionsInOrder(rest, known, more);
      forall n | n in FirstMentions(rest, known, more)
        ensures n in requested && n in rest && IndexOf(requested, n) == 1 + IndexOf(rest, n)
      {
        MentionedLater(requested, known, seen, n);
      }
      TailFollows(requested, rest, FirstMentions(rest, known, more));
      HeadFollows(requested, rest, FirstMentions(rest, known, more));
    } else {
      var rest := requested[1..];
      MentionsInOrder(rest, known, seen);
      forall n | n in FirstMentions(rest, known, seen)
        ensures n in requested && n in rest && IndexOf(requested, n) == 1 + IndexOf(rest, n)
      {
        MentionedAfter(requested, known, seen, n);
      }
      TailFollows(requested, rest, FirstMentions(rest, known, seen));
    }
  }

  lemma {:induction false} RowNamedAt(pages: seq<Page>, i: nat)
    requires i < |pages| && Distinct(Order(pages))
    ensures Order(pages)[i] == pages[i].image && RowNamed(pages, pages[i].image) == pages[i]
    decreases |pages|
  {
    var last := |pages| - 1;
    assert Order(pages)[i] == pages[i].image && Order(pages)[last] == pages[last].image;
    if i < last {
      assert Order(pages[..last]) == Order(pages)[..last];
      RowNamedAt(pages[..last], i);
      assert pages[..last][i] == pages[i];
    }
  }

  lemma OrderRowsNamed(pages: seq<Page>, names: seq<Name>)
    requires forall n :: n in names ==> n in Order(pages)
    ensures Order(RowsNamed(pages, names)) == names
  {
  }
}
