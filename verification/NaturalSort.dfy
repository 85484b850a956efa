/**
 The order in which a CBZ import takes its image members: by `page_order` first, then by natural order of the
 base names.
*/
module NaturalSort {
  import opened Wrappers
  import opened Text
  import opened Orders

  /** One element of a sort key: a number, or a piece of text without digits. */
  datatype Part = Num(n: nat) | Txt(s: string)

  predicate IsDigit(c: char) {
    '0' <= c <= '9'
  }

  /** The end of the run of digits, or of other characters, that starts the text. */
  function RunEnd(s: string, digits: bool, from: nat): (k: nat)
    requires from <= |s|
    ensures from <= k <= |s|
    ensures forall i :: from <= i < k ==> IsDigit(s[i]) == digits
    ensures k < |s| ==> IsDigit(s[k]) != digits
    decreases |s| - from
  {
    if from < |s| && IsDigit(s[from]) == digits then RunEnd(s, digits, from + 1) else from
  }

  /** `int(digits)`. */
  function Value(digits: string): nat
    requires forall i :: 0 <= i < |digits| ==> IsDigit(digits[i])
  {
    if digits == "" then 0
    else
      assert IsDigit(digits[|digits| - 1]);
      10 * Value(digits[..|digits| - 1]) + ((digits[|digits| - 1] as int) - ('0' as int))
  }

  /** The pieces of `re.split(r"(\d+)", s)` that are not empty, numbers as numbers. */
  function Parts(s: string): seq<Part>
    decreases |s|
  {
    if s == "" then []
    else
      var k := RunEnd(s, IsDigit(s[0]), 1);
      [if IsDigit(s[0]) then Num(Value(s[..k])) else Txt(s[..k])] + Parts(s[k..])
  }

  function LastSlash(s: string): (k: nat)
    ensures k <= |s|
  {
    if s == "" then 0 else if s[|s| - 1] == '/' then |s| else LastSlash(s[..|s| - 1])
  }

  /** `Path(member).name`, for a member that is not a directory. */
  function BaseName(member: string): string {
    member[LastSlash(member)..]
  }

  /** `_natural_member_sort_key`. */
  function NaturalKey(member: string): seq<Part> {
    Parts(Lower(BaseName(member)))
  }

  ghost predicate Alternates(key: seq<Part>) {
    forall i :: 0 <= i < |key| - 1 ==> key[i].Num? != key[i + 1].Num?
  }

  lemma {:induction false} PartsAlternate(s: string)
    ensures Alternates(Parts(s))
    ensures Parts(s) == [] <==> s == ""
    ensures s != "" ==> (Parts(s)[0].Num? <==> IsDigit(s[0]))
    decreases |s|
  {
    if s != "" {
      var k := RunEnd(s, IsDigit(s[0]), 1);
      PartsAlternate(s[k..]);
      assert k < |s| ==> s[k..][0] == s[k];
      assert Parts(s)[1..] == Parts(s[k..]);
    }
  }

  // ---- Python's comparison of two keys: an error when a number meets text

  predicate CharLe(a: char, b: char) {
    a <= b
  }

  predicate TextLe(a: string, b: string) {
    Lex(a, b, CharLe)
  }

  /** Nothing when comparing raises `TypeError`. */
  function KeyLess(a: seq<Part>, b: seq<Part>): Option<bool> {
    if a == [] || b == [] then Some(a == [] && b != [])
    else if a[0] == b[0] then KeyLess(a[1..], b[1..])
    else
      match (a[0], b[0])
      case (Num(m), Num(n)) => Some(m < n)
      case (Txt(s), Txt(t)) => Some(!TextLe(t, s))
      case _ => None
  }

  /** Two natural keys compare without an error exactly when the names start in the same class, or one is empty. */
  lemma {:induction false} ComparableIff(a: seq<Part>, b: seq<Part>)
    requires Alternates(a) && Alternates(b)
    ensures KeyLess(a, b).Some? <==> a == [] || b == [] || a[0].Num? == b[0].Num?
  {
    if a != [] && b != [] && a[0] == b[0] {
      assert forall i :: 0 <= i < |a[1..]| ==> a[1..][i] == a[i + 1];
      assert forall i :: 0 <= i < |b[1..]| ==> b[1..][i] == b[i + 1];
      ComparableIff(a[1..], b[1..]);
      if |a| > 1 && |b| > 1 {
        assert a[0].Num? != a[1].Num? && b[0].Num? != b[1].Num?;
      }
    }
  }

  // ---- A total order that agrees with it

  predicate PartLe(a: Part, b: Part) {
    match (a, b)
    case (Num(m), Num(n)) => m <= n
    case (Txt(s), Txt(t)) => TextLe(s, t)
    case _ => a.Num?
  }

  predicate KeyLe(a: seq<Part>, b: seq<Part>) {
    Lex(a, b, PartLe)
  }

  lemma PartTotal()
    ensures Total(PartLe)
  {
    assert Total(CharLe);
    forall x, y ensures (PartLe(x, y) || PartLe(y, x)) && (PartLe(x, y) && PartLe(y, x) ==> x == y) {
      if x.Txt? && y.Txt? {
        LexTotal(x.s, y.s, CharLe);
      }
    }
    forall x, y, z | PartLe(x, y) && PartLe(y, z) ensures PartLe(x, z) {
      if x.Txt? && y.Txt? && z.Txt? {
        LexTransitive(x.s, y.s, z.s, CharLe);
      }
    }
  }

  lemma {:induction false} KeyLessAgrees(a: seq<Part>, b: seq<Part>)
    requires KeyLess(a, b).Some?
    ensures KeyLess(a, b).value <==> !KeyLe(b, a)
  {
    if a != [] && b != [] && a[0] == b[0] {
      KeyLessAgrees(a[1..], b[1..]);
    }
  }

  // ---- The import order

  const UNLISTED := 999999

  /** The element a member is sorted by: its place in `page_order`, then its natural key. */
  datatype SortKey = SortKey(rank: nat, key: seq<Part>)

  function IndexIn(names: seq<string>, name: string): (i: nat)
    ensures i <= |names| && (i < |names| <==> name in names)
    ensures i < |names| ==> names[i] == name && name !in names[..i]
  {
    if names == [] then 0 else if names[0] == name then 0 else IndexIn(names[1..], name) + 1
  }

  function SortKeyOf(member: string, pageOrder: seq<string>): SortKey {
    var name := BaseName(member);
    var rank := if pageOrder == [] then 0 else if name in pageOrder then IndexIn(pageOrder, name) else UNLISTED;
    SortKey(rank, NaturalKey(member))
  }

  function SortKeyLess(a: SortKey, b: SortKey): Option<bool> {
    if a.rank != b.rank then Some(a.rank < b.rank) else KeyLess(a.key, b.key)
  }

  predicate SortKeyLe(a: SortKey, b: SortKey) {
    a.rank < b.rank || (a.rank == b.rank && KeyLe(a.key, b.key))
  }

  lemma SortKeyTotal()
    ensures Total(SortKeyLe)
  {
    PartTotal();
    forall x, y ensures (SortKeyLe(x, y) || SortKeyLe(y, x)) && (SortKeyLe(x, y) && SortKeyLe(y, x) ==> x == y) {
      LexTotal(x.key, y.key, PartLe);
    }
    forall x, y, z | SortKeyLe(x, y) && SortKeyLe(y, z) ensures SortKeyLe(x, z) {
      if x.rank == y.rank == z.rank {
        LexTransitive(x.key, y.key, z.key, PartLe);
      }
    }
  }

  /** The members in the order the pages are numbered. */
  function ImportOrder(members: seq<string>, pageOrder: seq<string>): seq<string> {
    SortBy(members, m => SortKeyOf(m, pageOrder), SortKeyLe)
  }

  /** The members with one sort key, in the order they have. */
  function WithKey(members: seq<string>, pageOrder: seq<string>, k: SortKey): seq<string> {
    Having(members, m => SortKeyOf(m, pageOrder), k)
  }

  predicate Listed(member: string, pageOrder: seq<string>) {
    BaseName(member) in pageOrder
  }

  /** The members that the natural order has to place all start in the same class: a digit, or something else. */
  ghost predicate OneClass(members: seq<string>, pageOrder: seq<string>) {
    forall i, j ::
      && 0 <= i < |members| && 0 <= j < |members|
      && !Listed(members[i], pageOrder) && !Listed(members[j], pageOrder) ==>
      var a, b := BaseName(members[i]), BaseName(members[j]);
      a != "" && b != "" ==> IsDigit(a[0]) == IsDigit(b[0])
  }

  ghost predicate NoTypeError(members: seq<string>, pageOrder: seq<string>) {
    forall i, j :: 0 <= i < |members| && 0 <= j < |members| ==>
      SortKeyLess(SortKeyOf(members[i], pageOrder), SortKeyOf(members[j], pageOrder)).Some?
  }

  lemma KeyOfName(member: string)
    ensures Alternates(NaturalKey(member)) && (NaturalKey(member) == [] <==> BaseName(member) == "")
    ensures BaseName(member) != "" ==> (NaturalKey(member)[0].Num? <==> IsDigit(BaseName(member)[0]))
  {
    PartsAlternate(Lower(BaseName(member)));
  }

  lemma PairComparableIff(m: string, n: string, pageOrder: seq<string>)
    requires |pageOrder| < UNLISTED
    ensures SortKeyLess(SortKeyOf(m, pageOrder), SortKeyOf(n, pageOrder)).Some?
            <==> (!Listed(m, pageOrder) && !Listed(n, pageOrder) ==>
                    var a, b := BaseName(m), BaseName(n);
                    a != "" && b != "" ==> IsDigit(a[0]) == IsDigit(b[0]))
  {
    KeyOfName(m);
    KeyOfName(n);
    ComparableIff(NaturalKey(m), NaturalKey(n));
  }

  /** No comparison of two members can fail exactly when those not listed start in one class. */
  lemma NoTypeErrorIff(members: seq<string>, pageOrder: seq<string>)
    requires |pageOrder| < UNLISTED
    ensures NoTypeError(members, pageOrder) <==> OneClass(members, pageOrder)
  {
    forall i, j | 0 <= i < |members| && 0 <= j < |members|
      ensures SortKeyLess(SortKeyOf(members[i], pageOrder), SortKeyOf(members[j], pageOrder)).Some?
              <==> (!Listed(members[i], pageOrder) && !Listed(members[j], pageOrder) ==>
                      var a, b := BaseName(members[i]), BaseName(members[j]);
                      a != "" && b != "" ==> IsDigit(a[0]) == IsDigit(b[0]))
    {
      PairComparableIff(members[i], members[j], pageOrder);
    }
  }

  lemma {:induction false} NoSlash(name: string)
    requires '/' !in name
    ensures LastSlash(name) == 0 && BaseName(name) == name
  {
    if name != "" {
      assert name[|name| - 1] in name;
      NoSlash(name[..|name| - 1]);
    }
  }

  lemma TwoInOneClass(m: string, n: string, pageOrder: seq<string>)
    ensures OneClass([m, n], pageOrder) <==>
              (!Listed(m, pageOrder) && !Listed(n, pageOrder) && BaseName(m) != "" && BaseName(n) != "" ==>
                 IsDigit(BaseName(m)[0]) == IsDigit(BaseName(n)[0]))
  {
    hide BaseName, Listed, IsDigit;
    assert [m, n][0] == m && [m, n][1] == n;
  }

  /**
   Two pages whose names start in different classes stop an import,
   such as `1.png` and `a.png`, unless `page_order` lists one of them.
  */
  lemma MixedNamesStop(m: string, n: string)
    requires '/' !in m && '/' !in n && m != "" && n != "" && IsDigit(m[0]) != IsDigit(n[0])
    ensures !NoTypeError([m, n], []) && NoTypeError([m, n], [n])
  {
    NoSlash(m);
    NoSlash(n);
    hide NoTypeError, OneClass, BaseName, IsDigit;
    TwoInOneClass(m, n, []);
    TwoInOneClass(m, n, [n]);
    NoTypeErrorIff([m, n], []);
    NoTypeErrorIff([m, n], [n]);
  }

  /** The pages are the members, in ascending order by Python's own comparison, ties in archive order. */
  lemma ImportOrderSorted(members: seq<string>, pageOrder: seq<string>)
    requires |pageOrder| < UNLISTED && OneClass(members, pageOrder)
    ensures var order := ImportOrder(members, pageOrder);
            && multiset(order) == multiset(members)
            && (forall k :: WithKey(order, pageOrder, k) == WithKey(members, pageOrder, k))
            && (forall i, j :: 0 <= i <= j < |order| ==>
                  SortKeyLess(SortKeyOf(order[j], pageOrder), SortKeyOf(order[i], pageOrder)) == Some(false))
  {
    var key := m => SortKeyOf(m, pageOrder);
    var order := ImportOrder(members, pageOrder);
    SortKeyTotal();
    SortByStable(members, key, SortKeyLe);
    NoTypeErrorIff(members, pageOrder);
    forall k ensures WithKey(order, pageOrder, k) == WithKey(members, pageOrder, k) {
      assert Having(order, key, k) == Having(members, key, k);
    }
    forall i, j | 0 <= i <= j < |order|
      ensures SortKeyLess(SortKeyOf(order[j], pageOrder), SortKeyOf(order[i], pageOrder)) == Some(false)
    {
      assert order[i] in multiset(members) && order[j] in multiset(members);
      var a, b := SortKeyOf(order[i], pageOrder), SortKeyOf(order[j], pageOrder);
      assert SortKeyLe(key(order[i]), key(order[j]));
      assert SortKeyLess(b, a).Some? by {
        var p :| 0 <= p < |members| && members[p] == order[i];
        var q :| 0 <= q < |members| && members[q] == order[j];
      }
      if a.rank == b.rank {
        KeyLessAgrees(b.key, a.key);
      }
    }
  }

  /** Members named in `page_order` come first, in its order. */
  lemma ListedFirst(members: seq<string>, pageOrder: seq<string>, i: nat, j: nat)
    requires |pageOrder| < UNLISTED && i < j < |ImportOrder(members, pageOrder)|
    ensures var order := ImportOrder(members, pageOrder);
            Listed(order[j], pageOrder) ==>
              Listed(order[i], pageOrder)
              && IndexIn(pageOrder, BaseName(order[i])) <= IndexIn(pageOrder, BaseName(order[j]))
  {
    var key := m => SortKeyOf(m, pageOrder);
    SortKeyTotal();
    SortByStable(members, key, SortKeyLe);
    assert SortKeyLe(key(ImportOrder(members, pageOrder)[i]), key(ImportOrder(members, pageOrder)[j]));
  }

  // ---- What the keys mean

  lemma {:induction false} LastSlashLower(s: string)
    ensures LastSlash(Lower(s)) == LastSlash(s)
  {
    if s != "" {
      assert Lower(s)[..|s| - 1] == Lower(s[..|s| - 1]);
      LastSlashLower(s[..|s| - 1]);
    }
  }

  /** Letter case does not count. */
  lemma KeyIgnoresCase(member: string)
    ensures NaturalKey(Lower(member)) == NaturalKey(member)
  {
    LastSlashLower(member);
    assert BaseName(Lower(member)) == Lower(BaseName(member));
    LowerIdempotent(BaseName(member));
    hide Parts, LastSlash, Lower;
  }

  /** `int` reads a numeral back, and leading zeros do not count. */
  lemma {:induction false} ValueOfDecimal(n: nat)
    ensures (forall i :: 0 <= i < |Decimal(n)| ==> IsDigit(Decimal(n)[i])) && Value(Decimal(n)) == n
  {
    assert forall i :: 0 <= i < |Decimal(n)| ==> Decimal(n)[i] in Decimal(n);
    if n < 10 {
      assert [Digit(n)][..0] == "";
    } else {
      ValueOfDecimal(n / 10);
      assert (Decimal(n / 10) + [Digit(n % 10)])[..|Decimal(n / 10)|] == Decimal(n / 10);
    }
  }

  lemma {:induction false} ValuePadded(digits: string)
    requires forall i :: 0 <= i < |digits| ==> IsDigit(digits[i])
    ensures (forall i :: 0 <= i < |digits| + 1 ==> IsDigit(("0" + digits)[i])) && Value("0" + digits) == Value(digits)
    decreases |digits|
  {
    var padded := "0" + digits;
    assert forall i :: 0 < i < |padded| ==> padded[i] == digits[i - 1];
    if digits == "" {
      assert padded[..0] == "";
    } else {
      assert padded[..|digits|] == "0" + digits[..|digits| - 1];
      ValuePadded(digits[..|digits| - 1]);
    }
  }

  ghost predicate OneKind(s: string, digits: bool) {
    s != "" && forall i :: 0 <= i < |s| ==> IsDigit(s[i]) == digits
  }

  lemma {:induction false} RunToEnd(s: string, digits: bool, from: nat)
    requires from <= |s| && forall i :: from <= i < |s| ==> IsDigit(s[i]) == digits
    ensures RunEnd(s, digits, from) == |s|
    decreases |s| - from
  {
    if from < |s| {
      RunToEnd(s, digits, from + 1);
    }
  }

  /** A name without digits is one piece of text, and one of digits only is their number. */
  lemma PartsOfOneKind(s: string)
    ensures OneKind(s, true) ==> Parts(s) == [Num(Value(s))]
    ensures OneKind(s, false) ==> Parts(s) == [Txt(s)]
  {
    if s != "" && OneKind(s, IsDigit(s[0])) {
      RunToEnd(s, IsDigit(s[0]), 1);
      assert s[..|s|] == s && s[|s|..] == "";
    }
  }

  lemma {:induction false} RunBeforeChange(a: string, b: string, digits: bool, from: nat)
    requires 0 < from <= |a| && b != "" && IsDigit(a[from - 1]) == digits && IsDigit(a[|a| - 1]) != IsDigit(b[0])
    ensures RunEnd(a + b, digits, from) == RunEnd(a, digits, from)
    decreases |a| - from
  {
    if from < |a| && IsDigit(a[from]) == digits {
      RunBeforeChange(a, b, digits, from + 1);
    }
  }

  /** The first element of the key of a text that begins with the run `run`. */
  function PartOf(run: string, digits: bool): Part
    requires digits ==> forall i :: 0 <= i < |run| ==> IsDigit(run[i])
  {
    if digits then Num(Value(run)) else Txt(run)
  }

  lemma PartsStep(run: string, rest: string, digits: bool)
    requires OneKind(run, digits) && RunEnd(run + rest, digits, 1) == |run|
    ensures Parts(run + rest) == [PartOf(run, digits)] + Parts(rest)
  {
    var s := run + rest;
    assert s[0] == run[0] && s[..|run|] == run && s[|run|..] == rest;
  }

  /** A text that changes kind where `b` begins starts with the same run with `b` behind it or not. */
  lemma FirstRun(a: string, b: string) returns (run: string, rest: string, digits: bool)
    requires a != "" && b != "" && IsDigit(a[|a| - 1]) != IsDigit(b[0])
    ensures a == run + rest && OneKind(run, digits) && RunEnd(a, digits, 1) == RunEnd(a + b, digits, 1) == |run|
    ensures rest != "" ==> rest[|rest| - 1] == a[|a| - 1]
  {
    digits := IsDigit(a[0]);
    RunBeforeChange(a, b, digits, 1);
    var k := RunEnd(a, digits, 1);
    run, rest := a[..k], a[k..];
  }

  lemma PartsCutStep(run: string, rest: string, b: string, digits: bool)
    requires OneKind(run, digits) && RunEnd(run + rest, digits, 1) == RunEnd(run + rest + b, digits, 1) == |run|
    requires Parts(rest + b) == Parts(rest) + Parts(b)
    ensures Parts(run + rest + b) == Parts(run + rest) + Parts(b)
  {
    hide *;
    PartsStep(run, rest, digits);
    assert run + rest + b == run + (rest + b);
    PartsStep(run, rest + b, digits);
  }

  /** A key is put together from the keys of the pieces between which the name changes from digits to text or back. */
  lemma {:induction false} PartsCut(a: string, b: string)
    requires a != "" && b != "" && IsDigit(a[|a| - 1]) != IsDigit(b[0])
    ensures Parts(a + b) == Parts(a) + Parts(b)
    decreases |a|
  {
    var run, rest, digits := FirstRun(a, b);
    if rest == "" {
      assert rest + b == b;
    } else {
      PartsCut(rest, b);
    }
    hide *;
    PartsCutStep(run, rest, b, digits);
  }

  /** The base name is what follows the last slash. */
  lemma {:induction false} BaseNameMeans(member: string)
    ensures '/' !in BaseName(member)
    ensures BaseName(member) == member
            || exists k :: 0 <= k < |member| && member[k] == '/' && BaseName(member) == member[k + 1..]
    decreases |member|
  {
    if member != "" && member[|member| - 1] != '/' {
      var front := member[..|member| - 1];
      BaseNameMeans(front);
      assert BaseName(member) == BaseName(front) + [member[|member| - 1]];
      if BaseName(front) != front {
        var k :| 0 <= k < |front| && front[k] == '/' && BaseName(front) == front[k + 1..];
        assert BaseName(member) == member[k + 1..];
      }
    } else if member != "" {
      assert member[|member| - 1] == '/' && BaseName(member) == member[|member| - 1 + 1..];
    }
  }

  /** At the first difference the smaller number comes first, and the smaller text; a key comes after its beginnings. */
  lemma {:induction false} KeyLessMeans(a: seq<Part>, b: seq<Part>, i: nat)
    requires i <= |a| && i <= |b| && a[..i] == b[..i] && (i < |a| && i < |b| ==> a[i] != b[i])
    ensures KeyLess(a, b)
      == if i == |a| || i == |b| then Some(i == |a| && i < |b|)
         else if a[i].Num? && b[i].Num? then Some(a[i].n < b[i].n)
         else if a[i].Txt? && b[i].Txt? then Some(!TextLe(b[i].s, a[i].s))
         else None
  {
    if i > 0 {
      assert a[0] == a[..i][0] == b[..i][0] == b[0];
      assert a[1..][..i - 1] == a[..i][1..] == b[..i][1..] == b[1..][..i - 1];
      KeyLessMeans(a[1..], b[1..], i - 1);
    }
  }

  /** Text compares by the first character that differs; a text comes after its beginnings. */
  lemma {:induction false} TextLeMeans(a: string, b: string, i: nat)
    requires i <= |a| && i <= |b| && a[..i] == b[..i] && (i < |a| && i < |b| ==> a[i] != b[i])
    ensures TextLe(a, b) <==> i == |a| || (i < |b| && a[i] < b[i])
  {
    if i > 0 {
      assert a[0] == a[..i][0] == b[..i][0] == b[0];
      assert a[1..][..i - 1] == a[..i][1..] == b[..i][1..] == b[1..][..i - 1];
      TextLeMeans(a[1..], b[1..], i - 1);
    }
  }

  /** A listed name ranks by its place in `page_order`, an unlisted one behind all; without a list all rank alike. */
  lemma RankMeans(member: string, pageOrder: seq<string>)
    ensures var rank := SortKeyOf(member, pageOrder).rank;
      && (pageOrder == [] ==> rank == 0)
      && (pageOrder != [] && BaseName(member) in pageOrder ==>
            rank < |pageOrder| && pageOrder[rank] == BaseName(member) && BaseName(member) !in pageOrder[..rank])
      && (pageOrder != [] && BaseName(member) !in pageOrder ==> rank == 999999)
  {
    hide BaseName, NaturalKey;
  }
}
