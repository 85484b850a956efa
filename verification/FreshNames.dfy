/**
 The fresh-name loops: try `base`, then `base2`, `base3`, … (display names) or `base-2`, `base-3`, …
 (gallery slugs) until one is not in use.
*/
module FreshNames {
  import opened Text

  /** The `k`-th name tried. */
  function Candidate(base: string, sep: string, k: nat): string {
    if k == 0 then base else base + sep + Decimal(k + 1)
  }

  lemma CandidateInjective(base: string, sep: string, j: nat, k: nat)
    requires Candidate(base, sep, j) == Candidate(base, sep, k)
    ensures j == k
  {
    if j != 0 && k != 0 {
      var prefix := base + sep;
      assert (prefix + Decimal(j + 1))[|prefix|..] == Decimal(j + 1);
      assert (prefix + Decimal(k + 1))[|prefix|..] == Decimal(k + 1);
      DecimalInjective(j + 1, k + 1);
    }
  }

  ghost function Tried(base: string, sep: string, k: nat): set<string> {
    set j | 0 <= j < k :: Candidate(base, sep, j)
  }

  lemma {:induction false} SubsetSize(a: set<string>, b: set<string>)
    requires a <= b
    ensures |a| <= |b|
  {
    if a != {} {
      var x :| x in a;
      SubsetSize(a - {x}, b - {x});
    }
  }

  /** The pigeonhole: `k` tries are `k` different names, so only a set of at least `k` names can hold them all. */
  lemma {:induction false} TriedAreDistinct(base: string, sep: string, used: set<string>, k: nat)
    requires Tried(base, sep, k) <= used
    ensures |Tried(base, sep, k)| == k && k <= |used|
  {
    if k == 0 {
      assert Tried(base, sep, k) == {};
    } else {
      var last := Candidate(base, sep, k - 1);
      assert Tried(base, sep, k) == Tried(base, sep, k - 1) + {last};
      if last in Tried(base, sep, k - 1) {
        var j :| 0 <= j < k - 1 && Candidate(base, sep, j) == last;
        CandidateInjective(base, sep, j, k - 1);
      }
      TriedAreDistinct(base, sep, used, k - 1);
    }
    SubsetSize(Tried(base, sep, k), used);
  }

  /** How many tries the loop needs: the first name not in use. */
  ghost function FirstFree(base: string, sep: string, used: set<string>, k: nat): (r: nat)
    requires Tried(base, sep, k) <= used
    ensures Candidate(base, sep, r) !in used && k <= r <= |used|
    ensures forall j :: k <= j < r ==> Candidate(base, sep, j) in used
    decreases |used| - k
  {
    TriedAreDistinct(base, sep, used, k);
    if Candidate(base, sep, k) !in used then k
    else
      assert Tried(base, sep, k + 1) == Tried(base, sep, k) + {Candidate(base, sep, k)};
      TriedAreDistinct(base, sep, used, k + 1);
      FirstFree(base, sep, used, k + 1)
  }

  lemma TriedNone(base: string, sep: string)
    ensures Tried(base, sep, 0) == {}
  {
  }

  ghost function FreshName(base: string, sep: string, used: set<string>): (name: string)
    ensures name !in used
  {
    TriedNone(base, sep);
    Candidate(base, sep, FirstFree(base, sep, used, 0))
  }

  /** The base if that is free, and else the first free of `base2`, `base3`, and so on, with the separator between. */
  ghost predicate FirstInSeries(base: string, sep: string, used: set<string>, name: string) {
    if base !in used then name == base
    else
      exists n :: 2 <= n && name == base + sep + Decimal(n) && name !in used
                  && forall m :: 2 <= m < n ==> base + sep + Decimal(m) in used
  }

  lemma FreshNameMeans(base: string, sep: string, used: set<string>)
    ensures FirstInSeries(base, sep, used, FreshName(base, sep, used))
  {
    TriedNone(base, sep);
    var k := FirstFree(base, sep, used, 0);
    assert Candidate(base, sep, 0) == base;
    if base in used {
      assert k != 0 && Candidate(base, sep, k) == base + sep + Decimal(k + 1);
      forall m | 2 <= m < k + 1 ensures base + sep + Decimal(m) in used {
        assert Candidate(base, sep, m - 1) in used;
      }
    }
  }

  /**
   `_next_available_fanart_gallery_slug`, for the slugs one uploader already has: the loop ends within
   one try more than there are slugs in use, with the first free name of the series.
  */
  method NextGallerySlug(base: string, taken: set<string>) returns (slug: string, ghost tries: nat)
    ensures slug !in taken && FirstInSeries(if base == "" then "gallery" else base, "-", taken, slug)
    ensures 1 <= tries <= |taken| + 1
  {
    var normalized := if base == "" then "gallery" else base;
    slug := normalized;
    var suffix := 2;
    tries := 1;
    TriedNone(normalized, "-");
    while slug in taken
      invariant suffix == tries + 1 && slug == Candidate(normalized, "-", tries - 1)
      invariant 1 <= tries <= FirstFree(normalized, "-", taken, 0) + 1
      decreases FirstFree(normalized, "-", taken, 0) + 1 - tries
    {
      slug := normalized + "-" + Decimal(suffix);
      suffix := suffix + 1;
      tries := tries + 1;
    }
    FreshNameMeans(normalized, "-", taken);
  }
}
