/** Tags by slug, their links to works and fanart items, and the usage counts. */
module TagStore {
  import opened Text

  datatype Kind = Fandom | Relationship | Character | Freeform | RatingTag | ArchiveWarning

  datatype Tag = Tag(slug: string, name: string, kind: Kind)

  type TagId = nat

  type Pair = (string, Kind)

  /** The tag-bearing part of a work's metadata, after the type tests of the program. */
  datatype Metadata = Metadata(fandoms: seq<string>, relationships: seq<string>, characters: seq<string>,
                               freeforms: seq<string>, rating: string, warnings: seq<string>)

  /** `(name, kind)` for each name that is not empty. */
  function PairsOf(names: seq<string>, kind: Kind): seq<Pair> {
    if names == [] then []
    else (if names[0] == "" then [] else [(names[0], kind)]) + PairsOf(names[1..], kind)
  }

  function TagPairs(m: Metadata): seq<Pair> {
    PairsOf(m.fandoms, Fandom) + PairsOf(m.relationships, Relationship) + PairsOf(m.characters, Character)
    + PairsOf(m.freeforms, Freeform) + PairsOf([m.rating], RatingTag) + PairsOf(m.warnings, ArchiveWarning)
  }

  /** The names a metadata field gives to tags of one kind. */
  function Field(m: Metadata, kind: Kind): seq<string> {
    match kind
    case Fandom => m.fandoms
    case Relationship => m.relationships
    case Character => m.characters
    case Freeform => m.freeforms
    case RatingTag => [m.rating]
    case ArchiveWarning => m.warnings
  }

  lemma {:induction false} PairsOfMean(names: seq<string>, kind: Kind, p: Pair)
    ensures p in PairsOf(names, kind) <==> p.1 == kind && p.0 != "" && p.0 in names
  {
    if names != [] {
      PairsOfMean(names[1..], kind, p);
    }
  }

  /** A pair comes from the metadata exactly if its name stands, not blank, in the field of its kind. */
  lemma TagPairsMean(m: Metadata, p: Pair)
    ensures p in TagPairs(m) <==> p.0 != "" && p.0 in Field(m, p.1)
  {
    PairsOfMean(m.fandoms, Fandom, p);
    PairsOfMean(m.relationships, Relationship, p);
    PairsOfMean(m.characters, Character, p);
    PairsOfMean(m.freeforms, Freeform, p);
    PairsOfMean([m.rating], RatingTag, p);
    PairsOfMean(m.warnings, ArchiveWarning, p);
  }

  lemma PairsOfFirst(names: seq<string>, kind: Kind)
    requires names != []
    ensures PairsOf(names, kind) == PairsOf([names[0]], kind) + PairsOf(names[1..], kind)
  {
    assert PairsOf([names[0]][1..], kind) == [];
  }

  /** The names of a field keep their order. */
  lemma {:induction false} PairsOfConcat(a: seq<string>, b: seq<string>, kind: Kind)
    ensures PairsOf(a + b, kind) == PairsOf(a, kind) + PairsOf(b, kind)
  {
    if a == [] {
      assert a + b == b;
    } else {
      hide PairsOf;
      assert (a + b)[1..] == a[1..] + b;
      PairsOfFirst(a, kind);
      PairsOfFirst(a + b, kind);
      PairsOfConcat(a[1..], b, kind);
    }
  }

  // ---- Comma-separated terms of a fanart item

  function Comma(raw: string, from: nat): (i: nat)
    requires from <= |raw|
    ensures from <= i <= |raw| && (i < |raw| ==> raw[i] == ',')
    ensures forall k :: from <= k < i ==> raw[k] != ','
    decreases |raw| - from
  {
    if from == |raw| || raw[from] == ',' then from else Comma(raw, from + 1)
  }

  function Split(raw: string, from: nat): seq<string>
    requires from <= |raw|
    decreases |raw| - from
  {
    if Comma(raw, from) == |raw| then [raw[from..]]
    else [raw[from..Comma(raw, from)]] + Split(raw, Comma(raw, from) + 1)
  }

  /** `[part.strip() for part in raw.split(",") if part.strip()]`. */
  function CsvTerms(parts: seq<string>): seq<string> {
    if parts == [] then []
    else (if Strip(parts[0]) == "" then [] else [Strip(parts[0])]) + CsvTerms(parts[1..])
  }

  function Terms(csv: string): seq<string> {
    CsvTerms(Split(csv, 0))
  }

  /** A stretch between two commas, or between a comma and an end. */
  ghost predicate PartAt(raw: string, from: nat, i: nat, j: nat) {
    && from <= i <= j <= |raw| && (forall k :: i <= k < j ==> raw[k] != ',')
    && (i == from || raw[i - 1] == ',') && (j == |raw| || raw[j] == ',')
  }

  lemma CutAtComma(raw: string, from: nat, i: nat, j: nat)
    requires from <= |raw| && Comma(raw, from) < |raw|
    ensures PartAt(raw, from, i, j)
      <==> (i == from && j == Comma(raw, from)) || PartAt(raw, Comma(raw, from) + 1, i, j)
  {
    var c := Comma(raw, from);
    if PartAt(raw, from, i, j) && i > from {
      assert raw[i - 1] == ',' && i - 1 >= c;
    }
  }

  lemma OnlyPart(raw: string, from: nat, i: nat, j: nat)
    requires PartAt(raw, from, i, j)
    ensures Comma(raw, from) == |raw| ==> i == from && j == |raw|
  {
    var c := Comma(raw, from);
    assert from < i ==> i - 1 < |raw| && raw[i - 1] == ',';
  }

  lemma SplitStep(raw: string, from: nat, part: string)
    requires from <= |raw|
    ensures var c := Comma(raw, from);
      part in Split(raw, from) <==> part == raw[from..c] || (c < |raw| && part in Split(raw, c + 1))
  {
    var c := Comma(raw, from);
    if c == |raw| {
      assert raw[from..] == raw[from..c];
    }
  }

  lemma {:induction false} SplitHas(raw: string, from: nat, i: nat, j: nat)
    requires PartAt(raw, from, i, j)
    ensures raw[i..j] in Split(raw, from)
    decreases |raw| - from
  {
    SplitStep(raw, from, raw[i..j]);
    OnlyPart(raw, from, i, j);
    hide Split, PartAt, Comma;
    if Comma(raw, from) < |raw| {
      CutAtComma(raw, from, i, j);
      if PartAt(raw, Comma(raw, from) + 1, i, j) {
        SplitHas(raw, Comma(raw, from) + 1, i, j);
      }
    }
  }

  lemma {:induction false} SplitOnly(raw: string, from: nat, part: string) returns (i: nat, j: nat)
    requires from <= |raw| && part in Split(raw, from)
    ensures PartAt(raw, from, i, j) && part == raw[i..j]
    decreases |raw| - from
  {
    var c := Comma(raw, from);
    i, j := from, c;
    SplitStep(raw, from, part);
    hide Split;
    if part != raw[from..c] {
      i, j := SplitOnly(raw, c + 1, part);
      CutAtComma(raw, from, i, j);
    }
  }

  lemma {:induction false} CsvTermsMean(parts: seq<string>, term: string)
    ensures term in CsvTerms(parts) <==> term != "" && exists p :: p in parts && Strip(p) == term
  {
    hide Strip;
    if parts != [] {
      CsvTermsMean(parts[1..], term);
      assert forall p :: p in parts <==> p == parts[0] || p in parts[1..];
    }
  }

  /** The terms are what stands between the commas, stripped, where that is not blank. */
  lemma TermsMean(csv: string, term: string)
    ensures term in Terms(csv)
      <==> term != "" && exists i: nat, j: nat :: PartAt(csv, 0, i, j) && Strip(csv[i..j]) == term
  {
    hide Strip, Split, CsvTerms;
    CsvTermsMean(Split(csv, 0), term);
    if term in Terms(csv) {
      var p :| p in Split(csv, 0) && Strip(p) == term;
      var i, j := SplitOnly(csv, 0, p);
    }
    forall i: nat, j: nat | PartAt(csv, 0, i, j) ensures csv[i..j] in Split(csv, 0) {
      SplitHas(csv, 0, i, j);
    }
  }

  ghost function SlugsOf(names: seq<string>): set<string> {
    set i | 0 <= i < |names| :: Slugify(names[i])
  }

  ghost function PairSlugs(pairs: seq<Pair>): set<string> {
    set i | 0 <= i < |pairs| :: Slugify(pairs[i].0)
  }

  ghost function KeysOf(names: seq<string>): set<string> {
    set i | 0 <= i < |names| :: Lower(names[i])
  }

  ghost predicate DifferentKeys(names: seq<string>) {
    forall i, j :: 0 <= i < j < |names| ==> Lower(names[i]) != Lower(names[j])
  }

  lemma KeysAppend(names: seq<string>, name: string)
    ensures KeysOf(names + [name]) == KeysOf(names) + {Lower(name)}
    ensures DifferentKeys(names) && Lower(name) !in KeysOf(names) ==> DifferentKeys(names + [name])
    ensures Lower(name) in KeysOf(names) ==> Slugify(name) in SlugsOf(names)
  {
    hide Slugify;
    var longer := names + [name];
    assert longer[|names|] == name;
    forall k | k in KeysOf(names) ensures k in KeysOf(longer) {
      var i :| 0 <= i < |names| && Lower(names[i]) == k;
      assert longer[i] == names[i];
    }
    if Lower(name) in KeysOf(names) {
      var i :| 0 <= i < |names| && Lower(names[i]) == Lower(name);
      SlugifyLower(names[i], name);
    }
  }

  lemma SlugsAppend(names: seq<string>, name: string)
    ensures SlugsOf(names + [name]) == SlugsOf(names) + {Slugify(name)}
  {
    hide Slugify;
    var longer := names + [name];
    assert forall i :: 0 <= i < |names| ==> longer[i] == names[i];
    assert longer[|names|] == name;
    forall s | s in SlugsOf(names) ensures s in SlugsOf(longer) {
      var i :| 0 <= i < |names| && Slugify(names[i]) == s;
      assert longer[i] == names[i];
    }
  }

  /** The first of the names that have its slug. */
  ghost predicate FirstOf(names: seq<string>, n: string) {
    exists k :: 0 <= k < |names| && names[k] == n && Slugify(n) !in SlugsOf(names[..k])
  }

  lemma FirstOfLonger(names: seq<string>, last: string, n: string)
    requires FirstOf(names, n)
    ensures FirstOf(names + [last], n)
  {
    hide Slugify, SlugsOf;
    var k :| 0 <= k < |names| && names[k] == n && Slugify(n) !in SlugsOf(names[..k]);
    assert (names + [last])[..k] == names[..k] && (names + [last])[k] == names[k];
  }

  lemma FirstOfEarlierOrLast(names: seq<string>, last: string, n: string)
    requires FirstOf(names + [last], n)
    ensures FirstOf(names, n) || (n == last && Slugify(n) !in SlugsOf(names))
  {
    hide Slugify, SlugsOf;
    var all := names + [last];
    var k :| 0 <= k < |all| && all[k] == n && Slugify(n) !in SlugsOf(all[..k]);
    if k < |names| {
      assert all[..k] == names[..k] && all[k] == names[k];
    } else {
      assert all[..k] == names;
    }
  }

  lemma FirstOfLast(names: seq<string>, last: string)
    requires Slugify(last) !in SlugsOf(names)
    ensures FirstOf(names + [last], last)
  {
    hide Slugify, SlugsOf;
    assert (names + [last])[..|names|] == names && (names + [last])[|names|] == last;
  }

  /** Another turn drops no first name, whether or not the term is kept. */
  lemma FirstsStep(before: seq<string>, unique: seq<string>, term: string)
    requires SlugsOf(unique) == SlugsOf(before) && forall n :: FirstOf(unique, n) ==> FirstOf(before, n)
    ensures forall n :: FirstOf(unique, n) ==> FirstOf(before + [term], n)
    ensures forall n :: FirstOf(unique + [term], n) ==> FirstOf(before + [term], n)
  {
    hide Slugify, SlugsOf, FirstOf;
    forall n | FirstOf(unique, n) ensures FirstOf(before + [term], n) {
      FirstOfLonger(before, term, n);
    }
    forall n | FirstOf(unique + [term], n) ensures FirstOf(before + [term], n) {
      FirstOfEarlierOrLast(unique, term, n);
      if !FirstOf(unique, n) {
        FirstOfLast(before, term);
      }
    }
  }

  /** One turn of the loop below. */
  lemma TermStep(before: seq<string>, unique: seq<string>, term: string)
    requires DifferentKeys(unique) && SlugsOf(unique) == SlugsOf(before)
    ensures Lower(term) in KeysOf(unique) ==> SlugsOf(unique) == SlugsOf(before + [term])
    ensures Lower(term) !in KeysOf(unique) ==>
      DifferentKeys(unique + [term]) && SlugsOf(unique + [term]) == SlugsOf(before + [term])
    ensures KeysOf(unique + [term]) == KeysOf(unique) + {Lower(term)}
  {
    SlugsAppend(before, term);
    SlugsAppend(unique, term);
    KeysAppend(unique, term);
    hide Lower, Slugify, SlugsOf, KeysOf, DifferentKeys;
  }

  lemma NoTerms()
    ensures SlugsOf([]) == {} && KeysOf([]) == {} && DifferentKeys([]) && forall n :: !FirstOf([], n)
  {
  }

  /**
   `_unique_csv_terms`: later terms that differ from an earlier one only in letter case are dropped, and no slug
   with them.
  */
  method UniqueTerms(raw: string) returns (unique: seq<string>)
    ensures DifferentKeys(unique) && SlugsOf(unique) == SlugsOf(Terms(raw))
    ensures forall n :: FirstOf(unique, n) ==> FirstOf(Terms(raw), n)
  {
    hide FirstOf, Lower, Slugify, SlugsOf, KeysOf, DifferentKeys, Terms;
    var terms := Terms(raw);
    var seen: set<string> := {};
    unique := [];
    NoTerms();
    for n := 0 to |terms|
      invariant seen == KeysOf(unique) && DifferentKeys(unique) && SlugsOf(unique) == SlugsOf(terms[..n])
      invariant forall n' :: FirstOf(unique, n') ==> FirstOf(terms[..n], n')
    {
      FirstsStep(terms[..n], unique, terms[n]);
      TermStep(terms[..n], unique, terms[n]);
      assert terms[..n + 1] == terms[..n] + [terms[n]];
      var key := Lower(terms[n]);
      if key !in seen {
        unique := unique + [terms[n]];
        seen := seen + {key};
      }
    }
    assert terms[..|terms|] == terms;
  }

  lemma NoSlugs(a: seq<string>, b: seq<string>)
    requires SlugsOf(a) == SlugsOf(b)
    ensures a == [] <==> b == []
  {
    hide Slugify;
    if a != [] {
      assert Slugify(a[0]) in SlugsOf(b);
    }
    if b != [] {
      assert Slugify(b[0]) in SlugsOf(a);
    }
  }

  // ---- The tables

  type Link = (string, TagId)

  ghost predicate TagsOk(tags: map<TagId, Tag>, nextId: TagId) {
    && (forall i :: i in tags ==> i < nextId)
    && (forall i, j :: i in tags && j in tags && i != j ==> tags[i].slug != tags[j].slug)
  }

  ghost predicate LinksOk(links: set<Link>, owners: set<string>, tags: map<TagId, Tag>) {
    forall l :: l in links ==> l.0 in owners && l.1 in tags
  }

  /** How many works hold the tag. */
  function Held(links: set<Link>, t: TagId): nat {
    |set l | l in links && l.1 == t|
  }

  function UsageOf(usage: map<TagId, nat>, t: TagId): nat {
    if t in usage then usage[t] else 0
  }

  ghost predicate Counted(usage: map<TagId, nat>, links: set<Link>) {
    forall t :: UsageOf(usage, t) >= Held(links, t)
  }

  /** Tags are only ever added. */
  ghost predicate Grown(before: map<TagId, Tag>, after: map<TagId, Tag>) {
    forall i :: i in before ==> i in after && after[i] == before[i]
  }

  ghost function SlugsHeld(links: set<Link>, owner: string, tags: map<TagId, Tag>): set<string> {
    set l | l in links && l.0 == owner && l.1 in tags :: tags[l.1].slug
  }

  ghost function SlugsAmong(ids: set<TagId>, tags: map<TagId, Tag>): set<string>
    requires ids <= tags.Keys
  {
    set i | i in ids :: tags[i].slug
  }

  function IdsOf(links: set<Link>, owner: string): set<TagId> {
    set l | l in links && l.0 == owner :: l.1
  }

  function WithoutOwner(links: set<Link>, owner: string): set<Link> {
    set l | l in links && l.0 != owner
  }

  function LinksTo(owner: string, ids: set<TagId>): set<Link> {
    set t | t in ids :: (owner, t)
  }

  // ---- Counting

  lemma HeldSplit(links: set<Link>, owner: string, t: TagId)
    ensures Held(links, t) == Held(WithoutOwner(links, owner), t) + (if t in IdsOf(links, owner) then 1 else 0)
  {
    var all := set l | l in links && l.1 == t;
    var rest := set l | l in WithoutOwner(links, owner) && l.1 == t;
    if t in IdsOf(links, owner) {
      assert (owner, t) in links;
      assert all == rest + {(owner, t)};
    } else {
      forall l | l in all ensures l in rest {
        assert l.0 == owner ==> l.1 in IdsOf(links, owner);
      }
      assert all == rest;
    }
  }

  /** Replacing an owner's links moves each tag's count by what the owner gained or lost. */
  lemma HeldReplace(links: set<Link>, owner: string, ids: set<TagId>, t: TagId)
    ensures var next := WithoutOwner(links, owner) + LinksTo(owner, ids);
            && IdsOf(next, owner) == ids && WithoutOwner(next, owner) == WithoutOwner(links, owner)
            && Held(next, t) + (if t in IdsOf(links, owner) then 1 else 0)
               == Held(links, t) + (if t in ids then 1 else 0)
  {
    var next := WithoutOwner(links, owner) + LinksTo(owner, ids);
    forall i ensures i in IdsOf(next, owner) <==> i in ids {
      assert i in ids ==> (owner, i) in LinksTo(owner, ids);
    }
    assert WithoutOwner(next, owner) == WithoutOwner(links, owner);
    HeldSplit(links, owner, t);
    HeldSplit(next, owner, t);
  }

  /** `list(dict.fromkeys(pairs))`. */
  function Unique(pairs: seq<Pair>): seq<Pair> {
    if pairs == [] then []
    else
      var rest := Unique(pairs[..|pairs| - 1]);
      if pairs[|pairs| - 1] in rest then rest else rest + [pairs[|pairs| - 1]]
  }

  lemma PairSlugsAppend(pairs: seq<Pair>, pair: Pair)
    ensures PairSlugs(pairs + [pair]) == PairSlugs(pairs) + {Slugify(pair.0)}
  {
    hide Slugify;
    var longer := pairs + [pair];
    assert longer[|pairs|] == pair;
    forall s | s in PairSlugs(pairs) ensures s in PairSlugs(longer) {
      var i :| 0 <= i < |pairs| && Slugify(pairs[i].0) == s;
      assert longer[i] == pairs[i];
    }
  }

  lemma {:induction false} UniqueSlugs(pairs: seq<Pair>)
    ensures PairSlugs(Unique(pairs)) == PairSlugs(pairs)
    ensures Unique(pairs) == [] <==> pairs == []
  {
    if pairs != [] {
      var front, last := pairs[..|pairs| - 1], pairs[|pairs| - 1];
      UniqueSlugs(front);
      assert pairs == front + [last];
      PairSlugsAppend(front, last);
      PairSlugsAppend(Unique(front), last);
      if last in Unique(front) {
        var i :| 0 <= i < |Unique(front)| && Unique(front)[i] == last;
        assert Slugify(Unique(front)[i].0) in PairSlugs(Unique(front));
      }
    }
  }

  // ---- What one replacement does

  /** The owner's tags are exactly those with the given slugs; every other link is kept. */
  ghost predicate Retagged(before: set<Link>, after: set<Link>, owner: string, tags: map<TagId, Tag>,
                           slugs: set<string>)
  {
    WithoutOwner(after, owner) == WithoutOwner(before, owner) && SlugsHeld(after, owner, tags) == slugs
  }

  lemma RetaggedFrom(links: set<Link>, owner: string, ids: set<TagId>, tags: map<TagId, Tag>, slugs: set<string>)
    requires ids <= tags.Keys && SlugsAmong(ids, tags) == slugs
    ensures var after := WithoutOwner(links, owner) + LinksTo(owner, ids);
            Retagged(links, after, owner, tags, slugs) && IdsOf(after, owner) == ids
  {
    var after := WithoutOwner(links, owner) + LinksTo(owner, ids);
    forall s ensures s in SlugsHeld(after, owner, tags) <==> s in slugs {
      if s in slugs {
        var i :| i in ids && tags[i].slug == s;
        assert (owner, i) in LinksTo(owner, ids);
      }
    }
    HeldReplace(links, owner, ids, 0);
  }

  lemma RelinkedOk(before: set<Link>, owners: set<string>, owner: string, ids: set<TagId>, was: map<TagId, Tag>,
                   tags: map<TagId, Tag>)
    requires LinksOk(before, owners, was) && Grown(was, tags) && ids <= tags.Keys
    requires owner in owners || ids == {}
    ensures LinksOk(WithoutOwner(before, owner) + LinksTo(owner, ids), owners, tags)
  {
  }

  lemma OthersOk(links: set<Link>, owners: set<string>, was: map<TagId, Tag>, tags: map<TagId, Tag>)
    requires LinksOk(links, owners, was) && Grown(was, tags)
    ensures LinksOk(links, owners, tags)
  {
  }

  /** Each tag gained one use exactly if it is in the set. */
  ghost predicate Incremented(before: map<TagId, nat>, after: map<TagId, nat>, ids: set<TagId>) {
    forall t :: UsageOf(after, t) == UsageOf(before, t) + (if t in ids then 1 else 0)
  }

  /** The margin of uses over holders grew by one for the tags the work dropped, and is the same for all others. */
  ghost predicate MarginMoved(usage: map<TagId, nat>, next: map<TagId, nat>, before: set<Link>, after: set<Link>,
                              owner: string)
  {
    forall t :: UsageOf(next, t) - Held(after, t)
             == UsageOf(usage, t) - Held(before, t) + (if t in IdsOf(before, owner) - IdsOf(after, owner) then 1 else 0)
  }

  lemma CountedRelinked(usage: map<TagId, nat>, next: map<TagId, nat>, before: set<Link>, after: set<Link>,
                        owner: string, ids: set<TagId>)
    requires Counted(usage, before) && after == WithoutOwner(before, owner) + LinksTo(owner, ids)
    requires Incremented(usage, next, ids - IdsOf(before, owner))
    ensures Counted(next, after) && MarginMoved(usage, next, before, after, owner)
  {
    forall t ensures UsageOf(next, t) >= Held(after, t)
                     && UsageOf(next, t) - Held(after, t)
                     == UsageOf(usage, t) - Held(before, t)
                       + (if t in IdsOf(before, owner) - IdsOf(after, owner) then 1 else 0)
    {
      hide Held, IdsOf, UsageOf, WithoutOwner, LinksTo;
      HeldReplace(before, owner, ids, t);
      assert UsageOf(next, t) == UsageOf(usage, t) + (if t in ids - IdsOf(before, owner) then 1 else 0);
      assert UsageOf(usage, t) >= Held(before, t);
    }
  }

  lemma CountedMore(usage: map<TagId, nat>, next: map<TagId, nat>, links: set<Link>, ids: set<TagId>)
    requires Counted(usage, links) && Incremented(usage, next, ids)
    ensures Counted(next, links)
  {
    hide Held;
    forall t ensures UsageOf(next, t) >= Held(links, t) {
      assert UsageOf(usage, t) >= Held(links, t);
    }
  }

  lemma CountedWithout(usage: map<TagId, nat>, links: set<Link>, owner: string)
    requires Counted(usage, links)
    ensures Counted(usage, WithoutOwner(links, owner))
  {
    forall t ensures UsageOf(usage, t) >= Held(WithoutOwner(links, owner), t) {
      HeldSplit(links, owner, t);
      assert UsageOf(usage, t) >= Held(links, t);
    }
  }

  lemma LinksToAdd(owner: string, ids: set<TagId>, id: TagId)
    ensures LinksTo(owner, ids + {id}) == LinksTo(owner, ids) + {(owner, id)}
  {
  }

  lemma SlugsStep(before: map<TagId, Tag>, after: map<TagId, Tag>, ids: set<TagId>, id: TagId, pairs: seq<Pair>,
                  pair: Pair)
    requires Grown(before, after) && ids <= before.Keys && id in after && after[id].slug == Slugify(pair.0)
    requires SlugsAmong(ids, before) == PairSlugs(pairs)
    ensures SlugsAmong(ids + {id}, after) == PairSlugs(pairs + [pair])
  {
    hide Slugify;
    var longer := pairs + [pair];
    assert longer[|pairs|] == pair;
    assert forall i :: 0 <= i < |pairs| ==> longer[i] == pairs[i];
    forall s | s in PairSlugs(pairs) ensures s in PairSlugs(longer) {
      var i :| 0 <= i < |pairs| && Slugify(pairs[i].0) == s;
      assert longer[i] == pairs[i];
    }
    assert PairSlugs(longer) == PairSlugs(pairs) + {Slugify(pair.0)};
    forall s ensures s in SlugsAmong(ids + {id}, after) <==> s in PairSlugs(longer) {
      if s in PairSlugs(pairs) {
        var i :| i in ids && before[i].slug == s;
        assert after[i].slug == s;
      }
      if s in SlugsAmong(ids + {id}, after) {
        var i :| i in ids + {id} && after[i].slug == s;
        assert i in ids ==> before[i].slug == s;
      }
    }
  }

  /** The tag has the name and kind of the first pair with its slug. */
  ghost predicate MadeFirst(pairs: seq<Pair>, t: Tag) {
    exists k :: 0 <= k < |pairs| && t == Tag(Slugify(pairs[k].0), pairs[k].0, pairs[k].1)
                && t.slug !in PairSlugs(pairs[..k])
  }

  lemma MadeFirstLonger(pairs: seq<Pair>, pair: Pair, t: Tag)
    requires MadeFirst(pairs, t)
    ensures MadeFirst(pairs + [pair], t)
  {
    hide Slugify, PairSlugs;
    var k :| 0 <= k < |pairs| && t == Tag(Slugify(pairs[k].0), pairs[k].0, pairs[k].1)
             && t.slug !in PairSlugs(pairs[..k]);
    assert (pairs + [pair])[..k] == pairs[..k] && (pairs + [pair])[k] == pairs[k];
  }

  lemma MadeLast(pairs: seq<Pair>, pair: Pair)
    requires Slugify(pair.0) !in PairSlugs(pairs)
    ensures MadeFirst(pairs + [pair], Tag(Slugify(pair.0), pair.0, pair.1))
  {
    hide Slugify, PairSlugs;
    assert (pairs + [pair])[..|pairs|] == pairs && (pairs + [pair])[|pairs|] == pair;
  }

  lemma SlugAmong(ids: set<TagId>, tags: map<TagId, Tag>, slug: string)
    requires ids <= tags.Keys && slug in SlugsAmong(ids, tags)
    ensures exists i :: i in tags && tags[i].slug == slug
  {
  }

  /** One turn of the loop that links the tags. */
  lemma NewTagsStep(was: map<TagId, Tag>, before: map<TagId, Tag>, after: map<TagId, Tag>, ids: set<TagId>,
                    pairs: seq<Pair>, pair: Pair)
    requires Grown(was, before) && Grown(before, after) && ids <= before.Keys
    requires SlugsAmong(ids, before) == PairSlugs(pairs)
    requires (exists i :: i in before && before[i].slug == Slugify(pair.0)) ==> after == before
    requires forall i :: i in after && i !in before ==> after[i] == Tag(Slugify(pair.0), pair.0, pair.1)
    requires forall i :: i in before && i !in was ==> MadeFirst(pairs, before[i])
    ensures forall i :: i in after && i !in was ==> MadeFirst(pairs + [pair], after[i])
  {
    hide Slugify, PairSlugs, MadeFirst, SlugsAmong;
    forall i | i in after && i !in was ensures MadeFirst(pairs + [pair], after[i]) {
      if i in before {
        MadeFirstLonger(pairs, pair, before[i]);
      } else {
        if Slugify(pair.0) in PairSlugs(pairs) {
          SlugAmong(ids, before, Slugify(pair.0));
        }
        MadeLast(pairs, pair);
      }
    }
  }

  lemma MadeEarlierOrLast(pairs: seq<Pair>, last: Pair, t: Tag)
    requires MadeFirst(pairs + [last], t)
    ensures MadeFirst(pairs, t) || (t == Tag(Slugify(last.0), last.0, last.1) && t.slug !in PairSlugs(pairs))
  {
    hide Slugify, PairSlugs;
    var all := pairs + [last];
    var k :| 0 <= k < |all| && t == Tag(Slugify(all[k].0), all[k].0, all[k].1) && t.slug !in PairSlugs(all[..k]);
    if k < |pairs| {
      assert all[..k] == pairs[..k] && all[k] == pairs[k];
    } else {
      assert all[..k] == pairs;
    }
  }

  /** Dropping repeated pairs drops no first one. */
  lemma {:induction false} MadeFirstUnique(pairs: seq<Pair>, t: Tag)
    requires MadeFirst(Unique(pairs), t)
    ensures MadeFirst(pairs, t)
  {
    if pairs != [] {
      var front, last := pairs[..|pairs| - 1], pairs[|pairs| - 1];
      assert pairs == front + [last];
      UniqueSlugs(front);
      var rest := Unique(front);
      if last !in rest {
        MadeEarlierOrLast(rest, last, t);
      }
      hide Slugify, PairSlugs, MadeFirst;
      if MadeFirst(rest, t) {
        MadeFirstUnique(front, t);
        MadeFirstLonger(front, last, t);
      } else {
        MadeLast(front, last);
      }
    }
  }

  lemma MadeFirstIn(pairs: seq<Pair>, t: Tag)
    requires MadeFirst(pairs, t)
    ensures (t.name, t.kind) in pairs && t.slug == Slugify(t.name)
  {
    hide Slugify, PairSlugs;
    var k :| 0 <= k < |pairs| && t == Tag(Slugify(pairs[k].0), pairs[k].0, pairs[k].1)
             && t.slug !in PairSlugs(pairs[..k]);
    assert pairs[k] == (t.name, t.kind);
  }

  /** The tags that are new have the name and kind of the first pair of the metadata with their slug. */
  ghost predicate NewTagsFrom(was: map<TagId, Tag>, tags: map<TagId, Tag>, pairs: seq<Pair>) {
    forall i :: i in tags && i !in was ==> MadeFirst(pairs, tags[i])
  }

  lemma NoNewTags(tags: map<TagId, Tag>, pairs: seq<Pair>)
    ensures NewTagsFrom(tags, tags, pairs)
  {
  }

  lemma NewTagsUnique(was: map<TagId, Tag>, tags: map<TagId, Tag>, pairs: seq<Pair>)
    requires NewTagsFrom(was, tags, Unique(pairs))
    ensures NewTagsFrom(was, tags, pairs)
  {
    hide MadeFirst, Unique;
    forall i | i in tags && i !in was ensures MadeFirst(pairs, tags[i]) {
      MadeFirstUnique(pairs, tags[i]);
    }
  }

  /** So each has its name from the field of its kind. */
  lemma NewTagsInFields(was: map<TagId, Tag>, tags: map<TagId, Tag>, m: Metadata)
    requires NewTagsFrom(was, tags, TagPairs(m))
    ensures forall i :: i in tags && i !in was ==>
              tags[i].name != "" && tags[i].name in Field(m, tags[i].kind) && tags[i].slug == Slugify(tags[i].name)
  {
    hide MadeFirst, TagPairs, Field, Slugify;
    forall i | i in tags && i !in was
      ensures tags[i].name != "" && tags[i].name in Field(m, tags[i].kind) && tags[i].slug == Slugify(tags[i].name)
    {
      MadeFirstIn(TagPairs(m), tags[i]);
      TagPairsMean(m, (tags[i].name, tags[i].kind));
    }
  }

  /** The slugs of the metadata, field by field. */
  lemma PairSlugsMean(m: Metadata, slug: string)
    ensures slug in PairSlugs(TagPairs(m))
      <==> exists kind, n :: n in Field(m, kind) && n != "" && Slugify(n) == slug
  {
    hide TagPairs, Field, Slugify;
    var pairs := TagPairs(m);
    if slug in PairSlugs(pairs) {
      var i :| 0 <= i < |pairs| && Slugify(pairs[i].0) == slug;
      TagPairsMean(m, pairs[i]);
    }
    if kind, n :| n in Field(m, kind) && n != "" && Slugify(n) == slug {
      TagPairsMean(m, (n, kind));
      var i :| 0 <= i < |pairs| && pairs[i] == (n, kind);
    }
  }

  /** Each tag newly linked to the owner counts one use more. */
  ghost predicate NewLinksCounted(usage: map<TagId, nat>, next: map<TagId, nat>, before: set<Link>, after: set<Link>,
                                  owner: string)
  {
    forall t: TagId :: UsageOf(next, t)
             == UsageOf(usage, t) + (if (owner, t) in after && (owner, t) !in before then 1 else 0)
  }

  lemma CountedByLinks(usage: map<TagId, nat>, next: map<TagId, nat>, before: set<Link>, owner: string,
                       ids: set<TagId>)
    requires Incremented(usage, next, ids - IdsOf(before, owner))
    ensures NewLinksCounted(usage, next, before, WithoutOwner(before, owner) + LinksTo(owner, ids), owner)
  {
    var after := WithoutOwner(before, owner) + LinksTo(owner, ids);
    forall t: TagId ensures t in ids - IdsOf(before, owner) <==> (owner, t) in after && (owner, t) !in before {
      assert t in ids ==> (owner, t) in LinksTo(owner, ids);
    }
    hide UsageOf;
  }

  lemma IncrementOne(before: map<TagId, nat>, mid: map<TagId, nat>, after: map<TagId, nat>, ids: set<TagId>, t: TagId)
    requires Incremented(before, mid, ids) && t !in ids && after == mid[t := UsageOf(mid, t) + 1]
    ensures Incremented(before, after, ids + {t})
  {
    forall u ensures UsageOf(after, u) == UsageOf(before, u) + (if u in ids + {t} then 1 else 0) {
      assert UsageOf(mid, u) == UsageOf(before, u) + (if u in ids then 1 else 0);
    }
  }

  lemma SlugMember(ids: set<TagId>, tags: map<TagId, Tag>, i: TagId)
    requires ids <= tags.Keys && i in ids
    ensures tags[i].slug in SlugsAmong(ids, tags)
  {
  }

  lemma NoPairsNoIds(ids: set<TagId>, tags: map<TagId, Tag>)
    requires ids <= tags.Keys && SlugsAmong(ids, tags) == PairSlugs([])
    ensures ids == {}
  {
    if i :| i in ids {
      SlugMember(ids, tags, i);
      assert false;
    }
  }

  /** `(name, kind) for name in names`. */
  function Named(names: seq<string>, kind: Kind): (r: seq<Pair>)
    ensures |r| == |names|
  {
    seq(|names|, i requires 0 <= i < |names| => (names[i], kind))
  }

  lemma NamedSlugs(a: seq<string>, k: Kind, b: seq<string>, l: Kind)
    ensures PairSlugs(Named(a, k) + Named(b, l)) == SlugsOf(a) + SlugsOf(b)
  {
    hide Slugify;
    var all := Named(a, k) + Named(b, l);
    forall s ensures s in PairSlugs(all) <==> s in SlugsOf(a) + SlugsOf(b) {
      if s in SlugsOf(a) {
        var i :| 0 <= i < |a| && Slugify(a[i]) == s;
        assert all[i].0 == a[i];
      }
      if s in SlugsOf(b) {
        var i :| 0 <= i < |b| && Slugify(b[i]) == s;
        assert all[|a| + i].0 == b[i];
      }
      if s in PairSlugs(all) {
        var i :| 0 <= i < |all| && Slugify(all[i].0) == s;
        if i < |a| {
          assert all[i].0 == a[i];
        } else {
          assert all[i].0 == b[i - |a|];
        }
      }
    }
  }

  lemma NamedFirst(names: seq<string>, kind: Kind, t: Tag)
    requires MadeFirst(Named(names, kind), t)
    ensures FirstOf(names, t.name) && t == Tag(Slugify(t.name), t.name, kind)
  {
    hide Slugify;
    var pairs := Named(names, kind);
    var k :| 0 <= k < |pairs| && t == Tag(Slugify(pairs[k].0), pairs[k].0, pairs[k].1)
             && t.slug !in PairSlugs(pairs[..k]);
    assert pairs[..k] == Named(names[..k], kind) + Named([], kind);
    NamedSlugs(names[..k], kind, [], kind);
    assert SlugsOf([]) == {};
  }

  lemma MadeInEither(a: seq<Pair>, b: seq<Pair>, t: Tag)
    requires MadeFirst(a + b, t)
    ensures MadeFirst(a, t) || (MadeFirst(b, t) && t.slug !in PairSlugs(a))
  {
    hide Slugify;
    var all := a + b;
    var k :| 0 <= k < |all| && t == Tag(Slugify(all[k].0), all[k].0, all[k].1) && t.slug !in PairSlugs(all[..k]);
    if k < |a| {
      assert all[..k] == a[..k];
    } else {
      assert all[..k] == a + b[..k - |a|] && all[k] == b[k - |a|];
      forall s | s in PairSlugs(a) ensures s in PairSlugs(all[..k]) {
        var i :| 0 <= i < |a| && Slugify(a[i].0) == s;
        assert all[..k][i] == a[i];
      }
      forall s | s in PairSlugs(b[..k - |a|]) ensures s in PairSlugs(all[..k]) {
        var i :| 0 <= i < k - |a| && Slugify(b[..k - |a|][i].0) == s;
        assert all[..k][|a| + i] == b[i];
      }
    }
  }

  /** A new tag of an item is a Fandom where its name is among the fandoms, and else a Freeform. */
  ghost predicate ItemTag(fandoms: seq<string>, freeforms: seq<string>, t: Tag) {
    || (FirstOf(fandoms, t.name) && t == Tag(Slugify(t.name), t.name, Fandom))
    || (FirstOf(freeforms, t.name) && t == Tag(Slugify(t.name), t.name, Freeform) && t.slug !in SlugsOf(fandoms))
  }

  lemma ItemTagsNew(was: map<TagId, Tag>, tags: map<TagId, Tag>, fandoms: seq<string>, freeforms: seq<string>)
    requires NewTagsFrom(was, tags, Named(fandoms, Fandom) + Named(freeforms, Freeform))
    ensures forall i :: i in tags && i !in was ==> ItemTag(fandoms, freeforms, tags[i])
  {
    NamedSlugs(fandoms, Fandom, [], Freeform);
    assert SlugsOf([]) == {} && Named(fandoms, Fandom) + Named([], Freeform) == Named(fandoms, Fandom);
    hide Slugify, SlugsOf, PairSlugs, Named, FirstOf, MadeFirst;
    forall i | i in tags && i !in was ensures ItemTag(fandoms, freeforms, tags[i]) {
      MadeInEither(Named(fandoms, Fandom), Named(freeforms, Freeform), tags[i]);
      if MadeFirst(Named(fandoms, Fandom), tags[i]) {
        NamedFirst(fandoms, Fandom, tags[i]);
      } else {
        NamedFirst(freeforms, Freeform, tags[i]);
      }
    }
  }

  lemma ItemTagsOfTerms(was: map<TagId, Tag>, tags: map<TagId, Tag>, fandoms: seq<string>, freeforms: seq<string>,
                        a: seq<string>, b: seq<string>)
    requires SlugsOf(fandoms) == SlugsOf(a)
    requires forall n :: FirstOf(fandoms, n) ==> FirstOf(a, n)
    requires forall n :: FirstOf(freeforms, n) ==> FirstOf(b, n)
    requires forall i :: i in tags && i !in was ==> ItemTag(fandoms, freeforms, tags[i])
    ensures forall i :: i in tags && i !in was ==> ItemTag(a, b, tags[i])
  {
    hide FirstOf, Slugify, SlugsOf;
  }

  class TagTables {
    var tags: map<TagId, Tag>
    var nextId: TagId
    var works: set<string>
    var items: set<string>
    var workTags: set<Link>
    var itemTags: set<Link>
    var usage: map<TagId, nat>

    /** Slugs are unique, links refer to rows, and no tag counts fewer uses than works that hold it. */
    ghost predicate Valid()
      reads this
    {
      TagsOk(tags, nextId) && LinksOk(workTags, works, tags) && LinksOk(itemTags, items, tags)
      && Counted(usage, workTags)
    }

    constructor ()
      ensures Valid() && works == {} && items == {} && tags == map[]
    {
      tags, nextId, works, items, workTags, itemTags, usage := map[], 0, {}, {}, {}, {}, map[];
    }

    /** `_ensure_tag`. */
    method EnsureTag(name: string, kind: Kind) returns (id: TagId)
      requires TagsOk(tags, nextId)
      modifies `tags, `nextId
      ensures TagsOk(tags, nextId) && Grown(old(tags), tags)
      ensures id in tags && tags[id].slug == Slugify(name)
      ensures (exists i :: i in old(tags) && old(tags)[i].slug == Slugify(name)) ==> tags == old(tags)
      ensures forall i :: i in tags && i !in old(tags) ==> i == id && tags[i] == Tag(Slugify(name), name, kind)
    {
      hide Slugify;
      var slug := Slugify(name);
      if exists i :: i in tags && tags[i].slug == slug {
        id :| id in tags && tags[id].slug == slug;
      } else {
        id := nextId;
        tags := tags[id := Tag(slug, name, kind)];
        nextId := nextId + 1;
      }
    }

    /** The loop of both `replace_..._tags`: each name's tag is found or made, and linked to the owner. */
    method LinkAll(links: set<Link>, owner: string, pairs: seq<Pair>) returns (linked: set<Link>, ids: set<TagId>)
      requires TagsOk(tags, nextId)
      modifies `tags, `nextId
      ensures TagsOk(tags, nextId) && Grown(old(tags), tags)
      ensures linked == links + LinksTo(owner, ids) && ids <= tags.Keys
      ensures SlugsAmong(ids, tags) == PairSlugs(pairs)
      ensures forall i :: i in tags && i !in old(tags) ==> i in ids
      ensures NewTagsFrom(old(tags), tags, pairs)
    {
      hide Slugify, TagsOk, MadeFirst;
      linked, ids := links, {};
      for n := 0 to |pairs|
        invariant TagsOk(tags, nextId) && Grown(old(tags), tags)
        invariant linked == links + LinksTo(owner, ids) && ids <= tags.Keys
        invariant SlugsAmong(ids, tags) == PairSlugs(pairs[..n])
        invariant forall i :: i in tags && i !in old(tags) ==> i in ids && MadeFirst(pairs[..n], tags[i])
      {
        ghost var before, had := tags, ids;
        var id := EnsureTag(pairs[n].0, pairs[n].1);
        ids := ids + {id};
        linked := linked + {(owner, id)};
        LinksToAdd(owner, had, id);
        SlugsStep(before, tags, had, id, pairs[..n], pairs[n]);
        assert pairs[..n] + [pairs[n]] == pairs[..n + 1];
        NewTagsStep(old(tags), before, tags, had, pairs[..n], pairs[n]);
      }
      assert pairs[..|pairs|] == pairs;
    }

    /** `_increment_tag_usage_counts`. */
    method Increment(ids: set<TagId>)
      modifies `usage
      ensures Incremented(old(usage), usage, ids)
    {
      hide UsageOf;
      var rest := ids;
      while rest != {}
        invariant rest <= ids && Incremented(old(usage), usage, ids - rest)
        decreases |rest|
      {
        var t :| t in rest;
        ghost var before := usage;
        usage := usage[t := UsageOf(usage, t) + 1];
        IncrementOne(old(usage), before, usage, ids - rest, t);
        rest := rest - {t};
        assert ids - rest == (ids - (rest + {t})) + {t};
      }
      assert ids - rest == ids;
    }

    /**
     `replace_work_tags`: the work then holds exactly the tags whose slugs come from its metadata, every
     other link is kept, and the margin of uses over holders grows exactly for the tags it dropped.
     Names for a work that does not exist break the foreign key, and the transaction is rolled back.
    */
    method ReplaceWorkTags(work: string, metadata: Metadata) returns (ok: bool)
      requires Valid()
      modifies this
      ensures Valid() && works == old(works) && items == old(items) && itemTags == old(itemTags)
      ensures ok <==> work in works || TagPairs(metadata) == []
      ensures !ok ==> tags == old(tags) && workTags == old(workTags) && usage == old(usage)
      ensures ok ==> Grown(old(tags), tags)
                     && Retagged(old(workTags), workTags, work, tags, PairSlugs(TagPairs(metadata)))
                     && MarginMoved(old(usage), usage, old(workTags), workTags, work)
                     && NewLinksCounted(old(usage), usage, old(workTags), workTags, work)
      ensures NewTagsFrom(old(tags), tags, TagPairs(metadata))
      ensures forall i :: i in tags && i !in old(tags) ==>
                tags[i].name != "" && tags[i].name in Field(metadata, tags[i].kind)
                && tags[i].slug == Slugify(tags[i].name)
    {
      hide Slugify, Field, MadeFirst, NewTagsFrom, NewLinksCounted, TagsOk, LinksOk, Counted, Grown, Held, IdsOf,
           WithoutOwner, UsageOf, LinksTo, PairSlugs, TagPairs, Unique,
           Retagged, MarginMoved, Incremented;
      var pairs := Unique(TagPairs(metadata));
      UniqueSlugs(TagPairs(metadata));
      ok := work in works || pairs == [];
      if ok {
        ghost var was, links, counts := tags, workTags, usage;
        var existing := IdsOf(workTags, work);
        var linked, ids := LinkAll(WithoutOwner(workTags, work), work, pairs);
        RetaggedFrom(links, work, ids, tags, PairSlugs(pairs));
        if pairs == [] {
          NoPairsNoIds(ids, tags);
        }
        RelinkedOk(links, works, work, ids, was, tags);
        OthersOk(itemTags, items, was, tags);
        workTags := linked;
        Increment(ids - existing);
        CountedRelinked(counts, usage, links, linked, work, ids);
        CountedByLinks(counts, usage, links, work, ids);
        NewTagsUnique(was, tags, TagPairs(metadata));
        NewTagsInFields(was, tags, metadata);
      } else {
        NoNewTags(tags, TagPairs(metadata));
      }
    }

    /** `replace_fanart_item_tags`: the same for a fanart item, whose uses count but whose links are not works. */
    method ReplaceItemTags(item: string, fandomCsv: string, freeformCsv: string) returns (ok: bool)
      requires Valid()
      modifies this
      ensures Valid() && works == old(works) && items == old(items) && workTags == old(workTags)
      ensures !ok ==> tags == old(tags) && itemTags == old(itemTags) && usage == old(usage)
      ensures ok <==>
                Strip(item) != "" && (Strip(item) in items || (Terms(fandomCsv) == [] && Terms(freeformCsv) == []))
      ensures ok ==> Grown(old(tags), tags)
                     && Retagged(old(itemTags), itemTags, Strip(item), tags,
                                 SlugsOf(Terms(fandomCsv)) + SlugsOf(Terms(freeformCsv)))
                     && NewLinksCounted(old(usage), usage, old(itemTags), itemTags, Strip(item))
      ensures forall i :: i in tags && i !in old(tags) ==> ItemTag(Terms(fandomCsv), Terms(freeformCsv), tags[i])
    {
      hide MadeFirst, NewTagsFrom, NewLinksCounted, FirstOf, Named, ItemTag, TagsOk, LinksOk, Counted, Grown, Held,
           IdsOf, WithoutOwner, UsageOf, LinksTo, PairSlugs, Terms, Unique,
           Retagged, Incremented, SlugsOf, Strip, Slugify;
      var owner := Strip(item);
      var fandoms := UniqueTerms(fandomCsv);
      var freeforms := UniqueTerms(freeformCsv);
      var named := Named(fandoms, Fandom) + Named(freeforms, Freeform);
      var pairs := Unique(named);
      UniqueSlugs(named);
      NamedSlugs(fandoms, Fandom, freeforms, Freeform);
      NoSlugs(fandoms, Terms(fandomCsv));
      NoSlugs(freeforms, Terms(freeformCsv));
      ok := owner != "" && (owner in items || pairs == []);
      if ok {
        ghost var was, links, counts := tags, itemTags, usage;
        var existing := IdsOf(itemTags, owner);
        var linked, ids := LinkAll(WithoutOwner(itemTags, owner), owner, pairs);
        RetaggedFrom(links, owner, ids, tags, PairSlugs(pairs));
        if pairs == [] {
          NoPairsNoIds(ids, tags);
        }
        RelinkedOk(links, items, owner, ids, was, tags);
        OthersOk(workTags, works, was, tags);
        itemTags := linked;
        Increment(ids - existing);
        CountedMore(counts, usage, workTags, ids - existing);
        CountedByLinks(counts, usage, links, owner, ids);
        NewTagsUnique(was, tags, named);
        ItemTagsNew(was, tags, fandoms, freeforms);
        ItemTagsOfTerms(was, tags, fandoms, freeforms, Terms(fandomCsv), Terms(freeformCsv));
      }
    }

    method AddWork(work: string)
      requires Valid()
      modifies `works
      ensures Valid() && works == old(works) + {work}
    {
      works := works + {work};
    }

    method AddItem(item: string)
      requires Valid() && item != ""
      modifies `items
      ensures Valid() && items == old(items) + {item}
    {
      items := items + {item};
    }

    /** `delete_work`: the links cascade, the counts stay. */
    method DeleteWork(work: string)
      requires Valid()
      modifies `works, `workTags
      ensures Valid() && works == old(works) - {work} && workTags == WithoutOwner(old(workTags), work)
    {
      CountedWithout(usage, workTags, work);
      workTags := WithoutOwner(workTags, work);
      works := works - {work};
    }

    method DeleteItem(item: string)
      requires Valid()
      modifies `items, `itemTags
      ensures Valid() && items == old(items) - {item} && itemTags == WithoutOwner(old(itemTags), item)
    {
      itemTags := WithoutOwner(itemTags, item);
      items := items - {item};
    }

    /** `backfill_tag_usage_counts_from_work_tags`: every count is made exact. */
    method Backfill() returns (total: nat)
      requires Valid()
      modifies `usage
      ensures Valid() && total == |tags|
      ensures forall t :: t in tags ==> UsageOf(usage, t) == Held(workTags, t)
    {
      usage := usage + map t | t in tags :: Held(workTags, t);
      total := |tags|;
      forall t ensures UsageOf(usage, t) >= Held(workTags, t) {
        if t !in tags {
          assert (set l | l in workTags && l.1 == t) == {};
        }
      }
    }
  }
}
