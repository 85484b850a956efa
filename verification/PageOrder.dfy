/**
 Lists of image filenames: the position lookup and the ordered selection that
 the comic editor uses to put chapter members back into page order.
*/
module PageOrder {
  type Name = string

  predicate Distinct(s: seq<Name>) {
    forall i, j :: 0 <= i < j < |s| ==> s[i] != s[j]
  }

  function Names(s: seq<Name>): set<Name> {
    set n | n in s
  }

  /** `order.index(n)`: the first position of `n`. */
  function IndexOf(order: seq<Name>, n: Name): (i: nat)
    requires n in order
    ensures i < |order| && order[i] == n && n !in order[..i]
  {
    if order[0] == n then 0 else 1 + IndexOf(order[1..], n)
  }

  /** `[name for name in order if name in keep]`. */
  function Select(order: seq<Name>, keep: set<Name>): (r: seq<Name>)
    ensures forall n :: n in r <==> n in order && n in keep
  {
    if order == [] then []
    else if order[0] in keep then [order[0]] + Select(order[1..], keep)
    else Select(order[1..], keep)
  }

  /** `members` is a strictly increasing subsequence of `order`. */
  ghost predicate Follows(order: seq<Name>, members: seq<Name>) {
    && (forall i :: 0 <= i < |members| ==> members[i] in order)
    && (forall i, j :: 0 <= i < j < |members| ==> IndexOf(order, members[i]) < IndexOf(order, members[j]))
  }

  lemma IndexOfUnique(order: seq<Name>, i: nat)
    requires Distinct(order) && i < |order|
    ensures IndexOf(order, order[i]) == i
  {
    var k := IndexOf(order, order[i]);
    assert forall j :: 0 <= j < k ==> order[..k][j] == order[j];
  }

  lemma IndexOfTail(order: seq<Name>, n: Name)
    requires order != [] && n in order && n != order[0]
    ensures n in order[1..] && IndexOf(order, n) == 1 + IndexOf(order[1..], n)
  {
  }

  lemma FollowsDistinct(order: seq<Name>, members: seq<Name>)
    requires Follows(order, members)
    ensures Distinct(members)
  {
  }

  lemma DistinctTail(order: seq<Name>)
    requires Distinct(order) && order != []
    ensures Distinct(order[1..]) && order[0] !in order[1..]
  {
  }

  /** Prepending an element in front of both lists keeps `Follows`. */
  lemma FollowsCons(order: seq<Name>, members: seq<Name>)
    requires Distinct(order) && order != [] && Follows(order[1..], members)
    ensures Follows(order, members) && Follows(order, [order[0]] + members)
  {
    DistinctTail(order);
    forall n | n in members ensures n in order && IndexOf(order, n) == 1 + IndexOf(order[1..], n) {
      IndexOfTail(order, n);
    }
    var longer := [order[0]] + members;
    forall i, j | 0 <= i < j < |longer|
      ensures longer[i] in order && longer[j] in order && IndexOf(order, longer[i]) < IndexOf(order, longer[j])
    {
      assert longer[j] == members[j - 1];
      if i > 0 {
        assert longer[i] == members[i - 1];
      }
    }
  }

  /** Selection always yields a strictly increasing subsequence of the order. */
  lemma {:induction false} SelectFollows(order: seq<Name>, keep: set<Name>)
    requires Distinct(order)
    ensures Follows(order, Select(order, keep))
  {
    if order != [] {
      DistinctTail(order);
      SelectFollows(order[1..], keep);
      FollowsCons(order, Select(order[1..], keep));
    }
  }

  lemma {:induction false} SelectCongruent(order: seq<Name>, a: set<Name>, b: set<Name>)
    requires forall n :: n in order ==> (n in a <==> n in b)
    ensures Select(order, a) == Select(order, b)
  {
    if order != [] {
      assert forall n :: n in order[1..] ==> n in order;
      SelectCongruent(order[1..], a, b);
    }
  }

  lemma FollowsTail(order: seq<Name>, members: seq<Name>)
    requires Distinct(order) && order != [] && Follows(order, members) && order[0] !in members
    ensures Follows(order[1..], members)
  {
    forall n | n in members ensures n in order[1..] && IndexOf(order, n) == 1 + IndexOf(order[1..], n) {
      IndexOfTail(order, n);
    }
  }

  lemma FollowsSome(order: seq<Name>, members: seq<Name>)
    requires Follows(order, members) && members != []
    ensures order != []
  {
    assert members[0] in order;
  }

  lemma FirstIsLeast(order: seq<Name>, members: seq<Name>, k: nat)
    requires Follows(order, members) && k < |members|
    ensures members[0] in order && members[k] in order
    ensures k > 0 ==> IndexOf(order, members[0]) < IndexOf(order, members[k])
  {
  }

  /** A subsequence that takes the first name takes it first. */
  lemma FollowsHead(order: seq<Name>, members: seq<Name>)
    requires Distinct(order) && order != [] && Follows(order, members) && order[0] in members
    ensures members != [] && members[0] == order[0] && order[0] !in members[1..] && Follows(order, members[1..])
  {
    var k: nat :| k < |members| && members[k] == order[0];
    FirstIsLeast(order, members, k);
    IndexOfUnique(order, 0);
    assert k == 0;
    FollowsDistinct(order, members);
    var tail := members[1..];
    assert forall i :: 0 <= i < |tail| ==> tail[i] == members[i + 1];
  }

  /** A strictly increasing subsequence is the only one with its set of names. */
  lemma {:induction false} SelectOwnNames(order: seq<Name>, members: seq<Name>)
    requires Distinct(order) && Follows(order, members)
    ensures Select(order, Names(members)) == members
  {
    if order == [] {
      if members != [] {
        FollowsSome(order, members);
      }
    } else {
      var rest := order[1..];
      DistinctTail(order);
      if order[0] in members {
        FollowsHead(order, members);
        hide Follows, Distinct, IndexOf;
        var tail := members[1..];
        assert members == [order[0]] + tail;
        FollowsTail(order, tail);
        SelectOwnNames(rest, tail);
        SelectCongruent(rest, Names(members), Names(tail));
      } else {
        hide Follows, Distinct, IndexOf;
        FollowsTail(order, members);
        SelectOwnNames(rest, members);
      }
    }
  }
}
