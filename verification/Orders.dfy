/** Total orders, the lexicographic order on lists, and the stable sort they give. */
module Orders {

  ghost predicate Total<T(!new)>(le: (T, T) -> bool) {
    && (forall x, y :: le(x, y) || le(y, x))
    && (forall x, y :: le(x, y) && le(y, x) ==> x == y)
    && (forall x, y, z :: le(x, y) && le(y, z) ==> le(x, z))
  }

  predicate Lex<T(==)>(a: seq<T>, b: seq<T>, le: (T, T) -> bool) {
    if a == [] then true
    else if b == [] then false
    else if a[0] == b[0] then Lex(a[1..], b[1..], le)
    else le(a[0], b[0])
  }

  lemma {:induction false} LexTotal<T(!new)>(a: seq<T>, b: seq<T>, le: (T, T) -> bool)
    requires Total(le)
    ensures Lex(a, b, le) || Lex(b, a, le)
    ensures Lex(a, b, le) && Lex(b, a, le) ==> a == b
  {
    if a != [] && b != [] && a[0] == b[0] {
      LexTotal(a[1..], b[1..], le);
      assert a == [a[0]] + a[1..] && b == [b[0]] + b[1..];
    }
  }

  lemma {:induction false} LexTransitive<T(!new)>(a: seq<T>, b: seq<T>, c: seq<T>, le: (T, T) -> bool)
    requires Total(le) && Lex(a, b, le) && Lex(b, c, le)
    ensures Lex(a, c, le)
  {
    if a != [] && a[0] == b[0] && b[0] == c[0] {
      LexTransitive(a[1..], b[1..], c[1..], le);
    }
  }

  // ---- The stable sort by a key

  function Insert<T, K>(x: T, s: seq<T>, key: T -> K, le: (K, K) -> bool): seq<T> {
    if s == [] || le(key(x), key(s[0])) then [x] + s else [s[0]] + Insert(x, s[1..], key, le)
  }

  /** `sorted(s, key=key)`. */
  function SortBy<T, K>(s: seq<T>, key: T -> K, le: (K, K) -> bool): seq<T> {
    if s == [] then [] else Insert(s[0], SortBy(s[1..], key, le), key, le)
  }

  ghost predicate Ascending<T(!new), K(!new)>(s: seq<T>, key: T -> K, le: (K, K) -> bool) {
    forall i, j :: 0 <= i <= j < |s| ==> le(key(s[i]), key(s[j]))
  }

  /** The elements with one key, in order. */
  function Having<T, K(==)>(s: seq<T>, key: T -> K, k: K): seq<T> {
    if s == [] then [] else (if key(s[0]) == k then [s[0]] else []) + Having(s[1..], key, k)
  }

  lemma PrependAscending<T(!new), K(!new)>(x: T, s: seq<T>, key: T -> K, le: (K, K) -> bool)
    requires Total(le) && Ascending(s, key, le) && forall i :: 0 <= i < |s| ==> le(key(x), key(s[i]))
    ensures Ascending([x] + s, key, le)
  {
    var all := [x] + s;
    forall i, j | 0 <= i <= j < |all| ensures le(key(all[i]), key(all[j])) {
      assert j > 0 ==> all[j] == s[j - 1];
      assert i > 0 ==> all[i] == s[i - 1];
    }
  }

  lemma {:induction false} InsertSorts<T(!new), K(!new)>(x: T, s: seq<T>, key: T -> K, le: (K, K) -> bool)
    requires Total(le) && Ascending(s, key, le)
    ensures Ascending(Insert(x, s, key, le), key, le)
    ensures multiset(Insert(x, s, key, le)) == multiset(s) + multiset{x}
  {
    if s == [] || le(key(x), key(s[0])) {
      PrependAscending(x, s, key, le);
    } else {
      var rest := s[1..];
      assert s == [s[0]] + rest && forall i :: 0 <= i < |rest| ==> rest[i] == s[i + 1];
      InsertSorts(x, rest, key, le);
      var tail := Insert(x, rest, key, le);
      forall i | 0 <= i < |tail| ensures le(key(s[0]), key(tail[i])) {
        assert tail[i] in multiset(tail);
        assert tail[i] == x || tail[i] in rest;
      }
      PrependAscending(s[0], tail, key, le);
    }
  }

  lemma HavingCons<T(!new), K(!new)>(x: T, s: seq<T>, key: T -> K, k: K)
    ensures Having([x] + s, key, k) == (if key(x) == k then [x] else []) + Having(s, key, k)
  {
    assert ([x] + s)[1..] == s;
  }

  lemma {:induction false} InsertStable<T(!new), K(!new)>(x: T, s: seq<T>, key: T -> K, le: (K, K) -> bool, k: K)
    requires Total(le)
    ensures Having(Insert(x, s, key, le), key, k) == (if key(x) == k then [x] else []) + Having(s, key, k)
  {
    assert le(key(x), key(x));
    hide Having, SortBy, Ascending, Total;
    if s == [] || le(key(x), key(s[0])) {
      HavingCons(x, s, key, k);
    } else {
      var rest := s[1..];
      assert s == [s[0]] + rest;
      InsertStable(x, rest, key, le, k);
      HavingCons(s[0], Insert(x, rest, key, le), key, k);
      HavingCons(s[0], rest, key, k);
    }
  }

  /** The result is a permutation in ascending order of keys, and elements with the same key keep their order. */
  lemma {:induction false} SortByStable<T(!new), K(!new)>(s: seq<T>, key: T -> K, le: (K, K) -> bool)
    requires Total(le)
    ensures Ascending(SortBy(s, key, le), key, le)
    ensures multiset(SortBy(s, key, le)) == multiset(s)
    ensures forall k :: Having(SortBy(s, key, le), key, k) == Having(s, key, k)
  {
    if s != [] {
      SortByStable(s[1..], key, le);
      InsertSorts(s[0], SortBy(s[1..], key, le), key, le);
      assert s == [s[0]] + s[1..];
      forall k ensures Having(SortBy(s, key, le), key, k) == Having(s, key, k) {
        InsertStable(s[0], SortBy(s[1..], key, le), key, le, k);
      }
    }
  }

  lemma HavingStep<T(!new), K(!new)>(s: seq<T>, key: T -> K, k: K)
    requires s != []
    ensures key(s[0]) == k ==> Having(s, key, k) != [] && Having(s, key, k)[1..] == Having(s[1..], key, k)
    ensures key(s[0]) != k ==> Having(s, key, k) == Having(s[1..], key, k)
  {
  }

  lemma NothingHaving<T(!new), K(!new)>(a: seq<T>, b: seq<T>, key: T -> K)
    requires a == [] && forall k :: Having(a, key, k) == Having(b, key, k)
    ensures b == []
  {
    if b != [] {
      HavingStep(b, key, key(b[0]));
      assert false;
    }
  }

  lemma {:induction false} HavingFrom<T(!new), K(!new)>(s: seq<T>, key: T -> K, k: K)
    requires Having(s, key, k) != []
    ensures exists i :: 0 <= i < |s| && key(s[i]) == k
  {
    if key(s[0]) != k {
      HavingFrom(s[1..], key, k);
      var i :| 0 <= i < |s[1..]| && key(s[1..][i]) == k;
      assert s[i + 1] == s[1..][i];
    }
  }

  lemma FirstHaving<T(!new), K(!new)>(a: seq<T>, b: seq<T>, key: T -> K, le: (K, K) -> bool)
    requires Total(le) && Ascending(a, key, le) && Ascending(b, key, le) && a != [] && b != []
    requires forall k :: Having(a, key, k) == Having(b, key, k)
    ensures a[0] == b[0]
  {
    assert Having(a, key, key(a[0])) == Having(b, key, key(a[0]));
    assert Having(a, key, key(b[0])) == Having(b, key, key(b[0]));
    HavingFrom(b, key, key(a[0]));
    HavingFrom(a, key, key(b[0]));
    var i :| 0 <= i < |b| && key(b[i]) == key(a[0]);
    var j :| 0 <= j < |a| && key(a[j]) == key(b[0]);
    assert le(key(b[0]), key(b[i])) && le(key(a[0]), key(a[j]));
    assert Having(a, key, key(a[0]))[0] == a[0] && Having(b, key, key(b[0]))[0] == b[0];
  }

  /** These three properties leave only one list, so any stable sort gives this one. */
  lemma {:induction false} StableSortUnique<T(!new), K(!new)>(a: seq<T>, b: seq<T>, key: T -> K, le: (K, K) -> bool)
    requires Total(le) && Ascending(a, key, le) && Ascending(b, key, le)
    requires forall k :: Having(a, key, k) == Having(b, key, k)
    ensures a == b
    decreases |a|
  {
    if a == [] || b == [] {
      if a == [] {
        NothingHaving(a, b, key);
      } else {
        NothingHaving(b, a, key);
      }
    } else {
      FirstHaving(a, b, key, le);
      assert a == [a[0]] + a[1..] && b == [b[0]] + b[1..];
      assert forall i :: 0 <= i < |a[1..]| ==> a[1..][i] == a[i + 1];
      assert forall i :: 0 <= i < |b[1..]| ==> b[1..][i] == b[i + 1];
      forall k ensures Having(a[1..], key, k) == Having(b[1..], key, k) {
        assert Having(a, key, k) == Having(b, key, k);
        HavingStep(a, key, k);
        HavingStep(b, key, k);
      }
      StableSortUnique(a[1..], b[1..], key, le);
    }
  }
}
