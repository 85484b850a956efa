/** ASCII text helpers: lower-casing, stripping and decimal numerals. */
module Text {

  function LowerChar(c: char): char {
    if 'A' <= c <= 'Z' then (c as int + 32) as char else c
  }

  /** `str.lower()` (and `casefold()`) on ASCII text. */
  function Lower(s: string): (r: string)
    ensures |r| == |s|
  {
    seq(|s|, i requires 0 <= i < |s| => LowerChar(s[i]))
  }

  predicate IsSpace(c: char) {
    c as int == 32 || 9 <= c as int <= 13 || 28 <= c as int <= 31
  }

  function StripLeft(s: string): (r: string)
    ensures r == [] || !IsSpace(r[0])
    ensures |r| <= |s| && r == s[|s| - |r|..]
  {
    if s != [] && IsSpace(s[0]) then StripLeft(s[1..]) else s
  }

  function StripRight(s: string): (r: string)
    ensures r == [] || !IsSpace(r[|r| - 1])
    ensures r <= s
  {
    if s != [] && IsSpace(s[|s| - 1]) then StripRight(s[..|s| - 1]) else s
  }

  /** `str.strip()` on ASCII text. */
  function Strip(s: string): (r: string)
    ensures r == [] || (!IsSpace(r[0]) && !IsSpace(r[|r| - 1]))
  {
    StripRight(StripLeft(s))
  }

  lemma StripKeeps(s: string)
    requires s == [] || (!IsSpace(s[0]) && !IsSpace(s[|s| - 1]))
    ensures Strip(s) == s
  {
  }

  lemma StripIdempotent(s: string)
    ensures Strip(Strip(s)) == Strip(s)
  {
    StripKeeps(Strip(s));
  }

  lemma LowerIdempotent(s: string)
    ensures Lower(Lower(s)) == Lower(s)
  {
  }

  lemma LowerConcat(a: string, b: string)
    ensures Lower(a + b) == Lower(a) + Lower(b)
  {
  }

  function Digit(d: nat): char
    requires d < 10
  {
    ('0' as int + d) as char
  }

  /** `str(n)`. */
  function Decimal(n: nat): (r: string)
    ensures r != []
    ensures forall c :: c in r ==> '0' <= c <= '9'
  {
    if n < 10 then [Digit(n)] else Decimal(n / 10) + [Digit(n % 10)]
  }

  lemma {:induction false} DecimalInjective(m: nat, n: nat)
    requires Decimal(m) == Decimal(n)
    ensures m == n
    decreases m
  {
    assert Decimal(m)[|Decimal(m)| - 1] == Digit(m % 10);
    assert Decimal(n)[|Decimal(n)| - 1] == Digit(n % 10);
    if m >= 10 {
      assert |Decimal(m)| > 1;
      assert n >= 10;
      assert Decimal(m / 10) == Decimal(m)[..|Decimal(m)| - 1] == Decimal(n)[..|Decimal(n)| - 1] == Decimal(n / 10);
      DecimalInjective(m / 10, n / 10);
    }
  }

  lemma LowerDecimal(n: nat)
    ensures Lower(Decimal(n)) == Decimal(n)
  {
    assert forall i :: 0 <= i < |Decimal(n)| ==> Decimal(n)[i] in Decimal(n);
  }

  predicate Alnum(c: char) {
    'A' <= c <= 'Z' || 'a' <= c <= 'z' || '0' <= c <= '9'
  }

  /** `re.sub(r"[^a-zA-Z0-9]+", "-", s)`. */
  function Dashes(s: string): string {
    if s == "" then ""
    else if Alnum(s[0]) then [s[0]] + Dashes(s[1..])
    else if |s| > 1 && !Alnum(s[1]) then Dashes(s[1..])
    else "-" + Dashes(s[1..])
  }

  /** `s.strip("-")`. */
  function StripDashes(s: string): string {
    if s != "" && s[0] == '-' then StripDashes(s[1..])
    else if s != "" && s[|s| - 1] == '-' then StripDashes(s[..|s| - 1])
    else s
  }

  /** `slugify`, on ASCII text. */
  function Slugify(s: string): (slug: string)
    ensures slug != ""
  {
    var lowered := Lower(StripDashes(Dashes(s)));
    if lowered == "" then "untitled" else lowered
  }

  lemma {:induction false} DashesLower(s: string)
    ensures Dashes(Lower(s)) == Lower(Dashes(s))
  {
    if s != "" {
      assert Lower(s)[1..] == Lower(s[1..]);
      DashesLower(s[1..]);
      if Alnum(s[0]) {
        LowerConcat([s[0]], Dashes(s[1..]));
      } else if |s| <= 1 || Alnum(s[1]) {
        LowerConcat("-", Dashes(s[1..]));
      }
    }
  }

  lemma {:induction false} StripDashesLower(s: string)
    ensures StripDashes(Lower(s)) == Lower(StripDashes(s))
    decreases |s|
  {
    if s != "" && s[0] == '-' {
      assert Lower(s)[1..] == Lower(s[1..]);
      StripDashesLower(s[1..]);
    } else if s != "" && s[|s| - 1] == '-' {
      assert Lower(s)[..|s| - 1] == Lower(s[..|s| - 1]);
      StripDashesLower(s[..|s| - 1]);
    }
  }

  /** Names that differ only in letter case have one slug. */
  lemma SlugifyLower(a: string, b: string)
    requires Lower(a) == Lower(b)
    ensures Slugify(a) == Slugify(b)
  {
    DashesLower(a);
    DashesLower(b);
    StripDashesLower(Dashes(a));
    StripDashesLower(Dashes(b));
    LowerIdempotent(StripDashes(Dashes(a)));
    LowerIdempotent(StripDashes(Dashes(b)));
  }

  // ---- What these helpers mean

  /** Lower-casing turns each capital into the small letter of the same place in the alphabet, and nothing else. */
  lemma LowerMeans(s: string, i: nat)
    requires i < |s|
    ensures !('A' <= Lower(s)[i] <= 'Z')
    ensures if 'A' <= s[i] <= 'Z' then (Lower(s)[i] as int) - ('a' as int) == (s[i] as int) - ('A' as int)
            else Lower(s)[i] == s[i]
  {
  }

  lemma {:induction false} StripLeftMeans(s: string)
    ensures forall k :: 0 <= k < |s| - |StripLeft(s)| ==> IsSpace(s[k])
  {
    if s != [] && IsSpace(s[0]) {
      StripLeftMeans(s[1..]);
      assert forall k :: 0 < k < |s| ==> s[k] == s[1..][k - 1];
    }
  }

  lemma {:induction false} StripRightMeans(s: string)
    ensures forall k :: |StripRight(s)| <= k < |s| ==> IsSpace(s[k])
  {
    if s != [] && IsSpace(s[|s| - 1]) {
      StripRightMeans(s[..|s| - 1]);
    }
  }

  lemma MiddlePart(s: string, left: string, right: string)
    requires |left| <= |s| && left == s[|s| - |left|..] && right <= left
    ensures right == s[|s| - |left|..|s| - |left| + |right|]
  {
  }

  lemma SpacesBehind(s: string, left: string, right: string, k: nat)
    requires |left| <= |s| && left == s[|s| - |left|..] && |s| - |left| + |right| <= k < |s|
    requires forall n :: |right| <= n < |left| ==> IsSpace(left[n])
    ensures IsSpace(s[k])
  {
    assert s[k] == left[k - (|s| - |left|)];
  }

  /** Stripping takes away the white space on both sides and no more. */
  lemma StripMeans(s: string) returns (i: nat, j: nat)
    ensures i <= j <= |s| && Strip(s) == s[i..j]
    ensures forall k :: 0 <= k < i || j <= k < |s| ==> IsSpace(s[k])
    ensures i < j ==> !IsSpace(s[i]) && !IsSpace(s[j - 1])
  {
    StripLeftMeans(s);
    StripRightMeans(StripLeft(s));
    hide IsSpace, StripLeft, StripRight;
    var left, right := StripLeft(s), Strip(s);
    MiddlePart(s, left, right);
    i := |s| - |left|;
    j := i + |right|;
    forall k | j <= k < |s| ensures IsSpace(s[k]) {
      SpacesBehind(s, left, right, k);
    }
  }

  lemma DigitMeans(d: nat)
    requires d < 10
    ensures Digit(d) == "0123456789"[d]
  {
  }

  // ---- Slugs

  predicate Word(s: string) {
    s != "" && forall c :: c in s ==> Alnum(c)
  }

  predicate Gap(s: string) {
    s != "" && forall c :: c in s ==> !Alnum(c)
  }

  lemma {:induction false} DashesWord(s: string)
    requires forall c :: c in s ==> Alnum(c)
    ensures Dashes(s) == s
  {
    if s != "" {
      assert s[0] in s && forall c :: c in s[1..] ==> c in s;
      DashesWord(s[1..]);
    }
  }

  lemma {:induction false} DashesGap(s: string)
    requires Gap(s)
    ensures Dashes(s) == "-"
  {
    assert s[0] in s;
    if |s| > 1 {
      assert s[1] in s && forall c :: c in s[1..] ==> c in s;
      DashesGap(s[1..]);
    } else {
      assert s[1..] == "";
    }
  }

  /** A text can be cut wherever that does not split a run of other characters. */
  lemma {:induction false} DashesCut(a: string, b: string)
    requires a == "" || b == "" || Alnum(a[|a| - 1]) || Alnum(b[0])
    ensures Dashes(a + b) == Dashes(a) + Dashes(b)
  {
    if a == "" {
      assert a + b == b;
    } else if b == "" {
      assert a + b == a;
    } else {
      assert (a + b)[1..] == a[1..] + b;
      DashesCut(a[1..], b);
    }
  }

  lemma {:induction false} StripLastDash(s: string)
    ensures StripDashes(s + "-") == StripDashes(s)
    decreases |s|
  {
    if s != "" && s[0] == '-' {
      assert (s + "-")[1..] == s[1..] + "-";
      StripLastDash(s[1..]);
    } else if s == "" {
      assert (s + "-")[1..] == "";
    } else {
      assert (s + "-")[..|s|] == s;
    }
  }

  lemma {:induction false} StripOutside(a: string, m: string, b: string)
    requires a != "" && b != "" && a[|a| - 1] != '-' && b[0] != '-'
    ensures StripDashes(a + m + b) == StripDashes(a) + m + StripDashes(b)
    decreases |a| + |b|
  {
    var all := a + m + b;
    if a[0] == '-' {
      assert all[1..] == a[1..] + m + b;
      StripOutside(a[1..], m, b);
    } else if b[|b| - 1] == '-' {
      assert all[..|all| - 1] == a + m + b[..|b| - 1];
      StripOutside(a, m, b[..|b| - 1]);
    }
  }

  lemma DashesEnd(a: string)
    requires a != "" && Alnum(a[|a| - 1])
    ensures Dashes(a) != "" && Dashes(a)[|Dashes(a)| - 1] == a[|a| - 1]
  {
    var last := |a| - 1;
    assert a == a[..last] + [a[last]];
    DashesCut(a[..last], [a[last]]);
    DashesWord([a[last]]);
  }

  lemma DashesStart(b: string)
    requires b != "" && Alnum(b[0])
    ensures Dashes(b) != "" && Dashes(b)[0] == b[0]
  {
  }

  lemma {:induction false} StripNothing(s: string)
    requires s != "" && s[0] != '-' && s[|s| - 1] != '-'
    ensures StripDashes(s) == s
  {
  }

  /** A word is its own slug, in small letters. */
  lemma SlugOfWord(s: string)
    requires Word(s)
    ensures Slugify(s) == Lower(s)
  {
    DashesWord(s);
    assert s[0] in s && s[|s| - 1] in s;
    StripNothing(s);
  }

  /** What is around the words does not matter, nor what a text without words consists of. */
  lemma SlugIgnoresEnds(gap: string, s: string)
    requires Gap(gap)
    ensures s != "" && Alnum(s[0]) ==> Slugify(gap + s) == Slugify(s)
    ensures s != "" && Alnum(s[|s| - 1]) ==> Slugify(s + gap) == Slugify(s)
    ensures Slugify(gap) == "untitled" == Slugify("")
  {
    DashesGap(gap);
    assert StripDashes("-") == StripDashes("");
    if s != "" && Alnum(s[0]) {
      DashesCut(gap, s);
      assert ("-" + Dashes(s))[1..] == Dashes(s);
    }
    if s != "" && Alnum(s[|s| - 1]) {
      DashesCut(s, gap);
      StripLastDash(Dashes(s));
    }
  }

  lemma {:induction false} StripKeepsEnd(s: string)
    requires s != "" && s[|s| - 1] != '-'
    ensures StripDashes(s) != ""
  {
    if s[0] == '-' {
      StripKeepsEnd(s[1..]);
    }
  }

  lemma {:induction false} StripKeepsStart(s: string)
    requires s != "" && s[0] != '-'
    ensures StripDashes(s) != ""
  {
    if s[|s| - 1] == '-' {
      StripKeepsStart(s[..|s| - 1]);
    }
  }

  lemma LowerParts(p: string, q: string)
    requires p != "" && q != ""
    ensures Lower(p + "-" + q) == Lower(p) + "-" + Lower(q) && Lower(p) != "" && Lower(p + "-" + q) != ""
  {
    LowerConcat(p + "-", q);
    LowerConcat(p, "-");
    assert Lower("-") == "-";
    hide Lower;
  }

  /** Whatever stands between two words becomes one dash. */
  lemma SlugJoins(a: string, gap: string, b: string)
    requires a != "" && b != "" && Alnum(a[|a| - 1]) && Alnum(b[0]) && Gap(gap)
    ensures Slugify(a + gap + b) == Slugify(a) + "-" + Slugify(b)
  {
    hide Dashes, StripDashes, Lower;
    DashesCut(a + gap, b);
    DashesCut(a, gap);
    DashesGap(gap);
    DashesEnd(a);
    DashesStart(b);
    var p, q := Dashes(a), Dashes(b);
    StripOutside(p, "-", q);
    StripKeepsEnd(p);
    StripKeepsStart(q);
    LowerParts(StripDashes(p), StripDashes(q));
  }
}
