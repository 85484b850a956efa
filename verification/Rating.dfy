/**
 Ratings: alias normalisation, automatic elevation from moderation results, and
 the rule that stops an uploader from demoting an Explicit work.
*/
module Rating {
  import opened Text
  import opened Wrappers

  datatype Level = NotRated | General | Teen | Mature | Explicit

  /** A normalised rating: one of the five canonical names, or a text no alias knows. */
  datatype Rating = Known(level: Level) | Other(text: string)

  /** The alias table, canonical names first; keys are lower case. */
  const ALIASES: seq<(string, Level)> := [
    ("not rated", NotRated), ("general audiences", General), ("teen and up audiences", Teen),
    ("mature", Mature), ("explicit", Explicit),
    ("g", General), ("general", General), ("everyone", General), ("everyone 10+", General),
    ("kids to adults", General), ("all ages", General),
    ("pg", Teen), ("pg-13", Teen), ("teen", Teen), ("t", Teen), ("rating pending", Teen), ("teen and up", Teen),
    ("m", Mature), ("mature 17+", Mature), ("ma15+", Mature), ("r", Mature),
    ("adults only 18+", Explicit), ("r18+", Explicit), ("x18+", Explicit), ("rule34", Explicit),
    ("rule 34", Explicit), ("r34", Explicit), ("nc-17", Explicit), ("x", Explicit),
    ("nr", NotRated), ("unrated", NotRated)
  ]

  function Find(table: seq<(string, Level)>, key: string): Option<Level> {
    if table == [] then None
    else if table[0].0 == key then Some(table[0].1)
    else Find(table[1..], key)
  }

  function LevelOf(key: string): Option<Level> {
    Find(ALIASES, key)
  }

  /** `_normalize_rating`: aliases go to a canonical name, anything else is kept, stripped. */
  function Normalize(value: string): Rating {
    var key := Lower(Strip(value));
    if key == "" then Known(NotRated)
    else
      match LevelOf(key)
      case Some(level) => Known(level)
      case None => Other(Strip(value))
  }

  /** The text a normalised rating is stored as. */
  function Spell(rating: Rating): string {
    match rating
    case Known(NotRated) => "Not Rated"
    case Known(General) => "General Audiences"
    case Known(Teen) => "Teen And Up Audiences"
    case Known(Mature) => "Mature"
    case Known(Explicit) => "Explicit"
    case Other(text) => text
  }

  function Rank(rating: Rating): (r: nat)
    ensures r <= 4
  {
    match rating
    case Known(NotRated) => 0
    case Known(General) => 1
    case Known(Teen) => 2
    case Known(Mature) => 3
    case Known(Explicit) => 4
    case Other(_) => 0
  }

  /** The comparison of `_elevate_rating`, on normalised ratings. */
  function Higher(current: Rating, suggested: Rating): Rating {
    if Rank(suggested) > Rank(current) then suggested else current
  }

  /** `_elevate_rating` */
  function Elevate(current: string, suggested: string): string {
    Spell(Higher(Normalize(current), Normalize(suggested)))
  }

  /** The running maximum over the pages of one import, in page order; blank suggestions are skipped. */
  function FoldPages(current: string, suggestions: seq<string>): string
    decreases |suggestions|
  {
    if suggestions == [] then current
    else FoldPages(
        if suggestions[0] == "" then current else Elevate(current, suggestions[0]), suggestions[1..])
  }

  /**
   The rating an import stores: the remote suggestions if there are any, else the local fallback, over the
   metadata.
  */
  function ImportRating(metadata: string, suggestions: seq<string>, fallback: string): string {
    Elevate(metadata, if exists x :: x in suggestions && x != "" then FoldPages("Not Rated", suggestions) else fallback)
  }

  predicate IsExplicit(rating: string) {
    Lower(Strip(rating)) == "explicit"
  }

  predicate IsMature(rating: string) {
    Lower(Strip(rating)) == "mature"
  }

  /** `resolve_rating` */
  function Resolve(raw: string): string {
    if Strip(raw) == "" then "Not Rated" else Strip(raw)
  }

  /** `should_lock_explicit_demotion` */
  predicate LocksDemotion(isAdmin: bool, current: string, requested: string) {
    && !isAdmin
    && (|| (IsExplicit(current) && !IsExplicit(requested))
        || (IsExplicit(requested) && !IsMature(current) && !IsExplicit(current)))
  }

  // ---- Elevation on normalised ratings

  function FoldHigher(current: Rating, suggestions: seq<Rating>): Rating
    decreases |suggestions|
  {
    if suggestions == [] then current
    else FoldHigher(Higher(current, suggestions[0]), suggestions[1..])
  }

  /**
   The fold ends at the current rating if nothing ranks above it, and else at the one canonical rating of the
   top rank.
  */
  lemma {:induction false} FoldIsMaximum(current: Rating, suggestions: seq<Rating>)
    ensures var r := FoldHigher(current, suggestions);
      && Rank(current) <= Rank(r)
      && (forall x :: x in suggestions ==> Rank(x) <= Rank(r))
      && (r == current || (Rank(r) > Rank(current) && r in suggestions && r.Known?))
    decreases |suggestions|
  {
    if suggestions != [] {
      FoldIsMaximum(Higher(current, suggestions[0]), suggestions[1..]);
      assert forall x :: x in suggestions ==> x == suggestions[0] || x in suggestions[1..];
    }
  }

  /** Only which ratings were suggested matters, not their order or number. */
  lemma FoldReadsSet(current: Rating, a: seq<Rating>, b: seq<Rating>)
    requires forall x :: x in a <==> x in b
    ensures FoldHigher(current, a) == FoldHigher(current, b)
  {
    FoldIsMaximum(current, a);
    FoldIsMaximum(current, b);
  }

  // ---- From texts to normalised ratings and back

  lemma SpellStripped(level: Level)
    ensures Strip(Spell(Known(level))) == Spell(Known(level))
  {
    StripKeeps(Spell(Known(level)));
  }

  function KeyOf(level: Level): string {
    match level
    case NotRated => "not rated"
    case General => "general audiences"
    case Teen => "teen and up audiences"
    case Mature => "mature"
    case Explicit => "explicit"
  }

  lemma LowerTeen()
    ensures Lower("Teen And Up Audiences") == "teen and up audiences"
  {
  }

  lemma LowerGeneral()
    ensures Lower("General Audiences") == "general audiences"
  {
  }

  lemma LowerShort()
    ensures Lower("Not Rated") == "not rated" && Lower("Mature") == "mature" && Lower("Explicit") == "explicit"
  {
  }

  lemma SpellLowered(level: Level)
    ensures Lower(Spell(Known(level))) == KeyOf(level)
  {
    LowerTeen();
    LowerGeneral();
    LowerShort();
    hide Lower;
  }

  /** A lookup finds the first entry for its key. */
  lemma {:induction false} FindFirst(table: seq<(string, Level)>, i: nat, key: string)
    requires i < |table| && table[i].0 == key
    requires forall j :: 0 <= j < i ==> table[j].0 != key
    ensures Find(table, key) == Some(table[i].1)
  {
    if i > 0 {
      assert table[0].0 != key;
      FindFirst(table[1..], i - 1, key);
    }
  }

  lemma {:induction false} FindIn(table: seq<(string, Level)>, key: string)
    ensures Find(table, key).Some? ==> (key, Find(table, key).value) in table
    ensures Find(table, key).None? ==> forall e :: e in table ==> e.0 != key
  {
    if table != [] {
      FindIn(table[1..], key);
    }
  }

  /**
   A rating is read, without the blanks around it and in any letter case, as the level it is an alias of; a blank one
   is Not Rated, and one that is no alias is kept as it is written.
  */
  lemma NormalizeMeans(value: string)
    ensures var text := Strip(value);
      match Normalize(value)
      case Known(level) => (text == "" && level == NotRated) || (Lower(text), level) in ALIASES
      case Other(kept) => kept == text && text != "" && forall e :: e in ALIASES ==> e.0 != Lower(text)
  {
    FindIn(ALIASES, Lower(Strip(value)));
    assert Strip(value) != "" ==> Lower(Strip(value)) != "";
    hide Find, ALIASES, Lower, Strip;
  }

  lemma CanonicalFirst()
    ensures |ALIASES| > 5
    ensures ALIASES[..5] == [("not rated", NotRated), ("general audiences", General),
                             ("teen and up audiences", Teen), ("mature", Mature), ("explicit", Explicit)]
  {
  }

  function Position(level: Level): nat {
    match level
    case NotRated => 0
    case General => 1
    case Teen => 2
    case Mature => 3
    case Explicit => 4
  }

  lemma CanonicalKeysDiffer(a: Level, b: Level)
    requires a != b
    ensures KeyOf(a) != KeyOf(b)
  {
    assert KeyOf(a)[0] != KeyOf(b)[0];
  }

  lemma KeyHasLevel(level: Level)
    ensures LevelOf(KeyOf(level)) == Some(level) && KeyOf(level) != ""
  {
    hide Find, ALIASES;
    CanonicalFirst();
    assert forall l: Level :: ALIASES[Position(l)] == ALIASES[..5][Position(l)] == (KeyOf(l), l);
    forall j | 0 <= j < Position(level) ensures ALIASES[j].0 != KeyOf(level) {
      var other := if j == 0 then NotRated else if j == 1 then General else if j == 2 then Teen else Mature;
      CanonicalKeysDiffer(other, level);
      assert j == Position(other);
    }
    FindFirst(ALIASES, Position(level), KeyOf(level));
  }

  lemma NormalizeByKey(value: string, key: string)
    requires Lower(Strip(value)) == key && key != "" && LevelOf(key).Some?
    ensures Normalize(value) == Known(LevelOf(key).value)
  {
    hide LevelOf, Lower, Strip;
  }

  /** A canonical name is read back as the level it was written for. */
  lemma CanonicalRoundTrip(level: Level)
    ensures Normalize(Spell(Known(level))) == Known(level)
  {
    hide *;
    SpellStripped(level);
    SpellLowered(level);
    KeyHasLevel(level);
    NormalizeByKey(Spell(Known(level)), KeyOf(level));
  }

  /** Storing a normalised rating and normalising it again changes nothing. */
  lemma NormalizeRoundTrip(value: string)
    ensures Normalize(Spell(Normalize(value))) == Normalize(value)
  {
    hide LevelOf, Lower, Strip;
    match Normalize(value)
    case Known(level) => CanonicalRoundTrip(level);
    case Other(text) => StripIdempotent(value);
  }

  lemma ElevateNormal(current: string, suggested: string)
    ensures Normalize(Elevate(current, suggested)) == Higher(Normalize(current), Normalize(suggested))
  {
    hide Normalize;
    NormalizeRoundTrip(current);
    NormalizeRoundTrip(suggested);
  }

  /** Elevating twice by the same suggestion is elevating once, in the stored text. */
  lemma ElevateIdempotent(current: string, suggested: string)
    ensures Elevate(Elevate(current, suggested), suggested) == Elevate(current, suggested)
  {
    hide Normalize;
    ElevateNormal(current, suggested);
  }

  function NormalizeAll(values: seq<string>): seq<Rating> {
    seq(|values|, i requires 0 <= i < |values| => Normalize(values[i]))
  }

  lemma BlankIsLowest()
    ensures Normalize("") == Known(NotRated)
  {
    hide LevelOf;
    assert Strip("") == "" && Lower("") == "";
  }

  /** The text-level fold of an import is the fold of the normalised ratings. */
  lemma {:induction false} FoldPagesNormal(current: string, suggestions: seq<string>)
    ensures Normalize(FoldPages(current, suggestions)) == FoldHigher(Normalize(current), NormalizeAll(suggestions))
    decreases |suggestions|
  {
    hide Normalize, Elevate;
    if suggestions != [] {
      var next := if suggestions[0] == "" then current else Elevate(current, suggestions[0]);
      BlankIsLowest();
      ElevateNormal(current, suggestions[0]);
      FoldPagesNormal(next, suggestions[1..]);
      assert NormalizeAll(suggestions)[1..] == NormalizeAll(suggestions[1..]);
    }
  }

  /** The order in which pages are moderated does not change where the running maximum ends. */
  lemma FoldPagesOrderFree(current: string, a: seq<string>, b: seq<string>)
    requires forall x :: x in a <==> x in b
    ensures Normalize(FoldPages(current, a)) == Normalize(FoldPages(current, b))
  {
    hide Normalize, FoldPages, FoldHigher;
    FoldPagesNormal(current, a);
    FoldPagesNormal(current, b);
    forall x | x in NormalizeAll(a) ensures x in NormalizeAll(b) {
      var i :| 0 <= i < |a| && x == Normalize(a[i]);
      assert a[i] in a;
      var j :| 0 <= j < |b| && b[j] == a[i];
      assert NormalizeAll(b)[j] == x;
    }
    forall x | x in NormalizeAll(b) ensures x in NormalizeAll(a) {
      var i :| 0 <= i < |b| && x == Normalize(b[i]);
      assert b[i] in b;
      var j :| 0 <= j < |a| && a[j] == b[i];
      assert NormalizeAll(a)[j] == x;
    }
    FoldReadsSet(Normalize(current), NormalizeAll(a), NormalizeAll(b));
  }

  /** Nor does it change the rating the import stores. */
  lemma ImportRatingOrderFree(metadata: string, a: seq<string>, b: seq<string>, fallback: string)
    requires forall x :: x in a <==> x in b
    ensures ImportRating(metadata, a, fallback) == ImportRating(metadata, b, fallback)
  {
    hide Normalize, FoldPages;
    FoldPagesOrderFree("Not Rated", a, b);
  }

  lemma ExplicitNormalizes(rating: string)
    requires IsExplicit(rating)
    ensures Normalize(rating) == Known(Explicit)
  {
    hide LevelOf, Lower, Strip;
    KeyHasLevel(Explicit);
    NormalizeByKey(rating, "explicit");
  }

  /** Automatic elevation keeps an Explicit rating Explicit, however it was spelled. */
  lemma ElevateKeepsExplicit(current: string, suggested: string)
    requires IsExplicit(current)
    ensures IsExplicit(Elevate(current, suggested))
  {
    hide Normalize, Lower, Strip;
    ExplicitNormalizes(current);
    SpellStripped(Explicit);
    SpellLowered(Explicit);
  }

  lemma ExplicitReads()
    ensures IsExplicit(Spell(Known(Explicit)))
  {
    SpellStripped(Explicit);
    SpellLowered(Explicit);
    hide Lower, Strip;
  }

  /** No text but a spelling of Explicit normalises to something that reads as Explicit. */
  lemma NormalIsExplicit(rating: string)
    ensures IsExplicit(Spell(Normalize(rating))) <==> Normalize(rating) == Known(Explicit)
  {
    hide Normalize, IsExplicit, Spell;
    NormalizeRoundTrip(rating);
    ExplicitReads();
    if IsExplicit(Spell(Normalize(rating))) {
      ExplicitNormalizes(Spell(Normalize(rating)));
    }
  }

  /** An elevated rating is Explicit exactly if one of the two was, under any of its names. */
  lemma ElevateExplicitIff(current: string, suggested: string)
    ensures IsExplicit(Elevate(current, suggested))
      <==> Normalize(current) == Known(Explicit) || Normalize(suggested) == Known(Explicit)
  {
    NormalIsExplicit(current);
    NormalIsExplicit(suggested);
    hide Normalize, IsExplicit, Spell;
  }

  /** The lock lets a non-admin keep Explicit or move to it from Mature, and nothing else that touches Explicit. */
  lemma LockExact(current: string, raw: string)
    ensures !LocksDemotion(false, current, Resolve(raw))
      <==> (if IsExplicit(current) then IsExplicit(raw) else IsExplicit(raw) ==> IsMature(current))
  {
    hide Strip, Lower;
    StripIdempotent(raw);
    SpellStripped(NotRated);
    SpellLowered(NotRated);
    assert IsExplicit(raw) ==> Strip(raw) != "" by {
      assert |Lower(Strip(raw))| == |Strip(raw)|;
    }
  }

  lemma ResolveKeepsExplicit(raw: string)
    requires IsExplicit(raw)
    ensures IsExplicit(Resolve(raw))
  {
    hide Strip, Lower;
    StripIdempotent(raw);
    assert Strip(raw) != "" by {
      assert |Lower(Strip(raw))| == |Strip(raw)|;
    }
  }

  /** The running maximum over the pages of an import normalises to Explicit exactly if something in it does. */
  lemma {:induction false} FoldExplicitIff(current: string, suggestions: seq<string>)
    ensures Normalize(FoldPages(current, suggestions)) == Known(Explicit)
      <==> Normalize(current) == Known(Explicit) || exists x :: x in suggestions && Normalize(x) == Known(Explicit)
    decreases |suggestions|
  {
    hide Normalize, Elevate;
    if suggestions != [] {
      var next := if suggestions[0] == "" then current else Elevate(current, suggestions[0]);
      BlankIsLowest();
      ElevateNormal(current, suggestions[0]);
      FoldExplicitIff(next, suggestions[1..]);
      assert forall x :: x in suggestions <==> x == suggestions[0] || x in suggestions[1..];
    }
  }

  /** The metadata, a page's suggestion, or the fallback where no page has one, normalises to Explicit. */
  predicate SomeExplicit(metadata: string, suggestions: seq<string>, fallback: string) {
    || Normalize(metadata) == Known(Explicit)
    || (exists x :: x in suggestions && Normalize(x) == Known(Explicit))
    || ((forall x :: x in suggestions ==> x == "") && Normalize(fallback) == Known(Explicit))
  }

  /** The rating an import stores is Explicit exactly then. */
  lemma ImportExplicitIff(metadata: string, suggestions: seq<string>, fallback: string)
    ensures IsExplicit(ImportRating(metadata, suggestions, fallback)) <==> SomeExplicit(metadata, suggestions, fallback)
  {
    CanonicalRoundTrip(NotRated);
    BlankIsLowest();
    FoldExplicitIff("Not Rated", suggestions);
    var found := exists x :: x in suggestions && x != "";
    ElevateExplicitIff(metadata, if found then FoldPages("Not Rated", suggestions) else fallback);
    hide Normalize, Elevate, FoldPages, IsExplicit;
  }

  // ---- Ranks in plain terms

  /** The canonical ratings rise in this order; a text no alias knows ranks with the lowest. */
  lemma RanksRise(text: string)
    ensures Rank(Other(text)) == Rank(Known(NotRated)) < Rank(Known(General))
    ensures Rank(Known(General)) < Rank(Known(Teen)) < Rank(Known(Mature)) < Rank(Known(Explicit))
  {
  }

  /** Elevation takes the suggestion exactly if that ranks above the current rating. */
  lemma ElevateTakesHigher(current: string, suggested: string)
    ensures var c, s, r := Normalize(current), Normalize(suggested), Normalize(Elevate(current, suggested));
      r == if Rank(c) < Rank(s) then s else c
  {
    ElevateNormal(current, suggested);
    hide Normalize, Rank;
  }

  lemma {:induction false} SomeNonblank(suggestions: seq<string>, r: Rating)
    requires r in NormalizeAll(suggestions)
    ensures exists x :: x in suggestions && Normalize(x) == r
  {
    var i :| 0 <= i < |suggestions| && NormalizeAll(suggestions)[i] == r;
    assert suggestions[i] in suggestions;
  }

  lemma SpellNotRated()
    ensures Spell(Known(NotRated)) == "Not Rated"
  {
  }

  lemma LowestRank()
    ensures forall r :: Rank(Known(NotRated)) <= Rank(r)
  {
  }

  /**
   The rating an import stores ranks as high as its metadata and as every page suggestion, and is one of these;
   the fallback counts where no page has a suggestion.
  */
  lemma ImportRatingHighest(metadata: string, suggestions: seq<string>, fallback: string)
    ensures var r := Normalize(ImportRating(metadata, suggestions, fallback));
      var blank := forall x :: x in suggestions ==> x == "";
      && Rank(Normalize(metadata)) <= Rank(r)
      && (forall x :: x in suggestions ==> Rank(Normalize(x)) <= Rank(r))
      && (blank ==> Rank(Normalize(fallback)) <= Rank(r))
      && (|| r == Normalize(metadata) || (exists x :: x in suggestions && Normalize(x) == r)
          || (blank && r == Normalize(fallback)))
  {
    hide Normalize, Rank;
    BlankIsLowest();
    CanonicalRoundTrip(NotRated);
    RanksRise("");
    SpellNotRated();
    FoldPagesNormal("Not Rated", suggestions);
    var top := FoldHigher(Known(NotRated), NormalizeAll(suggestions));
    FoldIsMaximum(Known(NotRated), NormalizeAll(suggestions));
    var found := exists x :: x in suggestions && x != "";
    ElevateTakesHigher(metadata, if found then FoldPages("Not Rated", suggestions) else fallback);
    forall x | x in suggestions ensures Normalize(x) in NormalizeAll(suggestions) {
      var i :| 0 <= i < |suggestions| && suggestions[i] == x;
      assert NormalizeAll(suggestions)[i] == Normalize(x);
    }
    if top in NormalizeAll(suggestions) {
      SomeNonblank(suggestions, top);
    }
    LowestRank();
  }
}
