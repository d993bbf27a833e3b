/** The first two stages of `evaluateSets` in ams.js: the fixed universe of
    seven candidate combinations, the ones that cover the selection, and the
    minimal ones among those. */
module Minimality {
  import opened AccessModes
  import opened Coverage

  /** The two callbacks `evaluateSets` hands to `filter`: `coversAll`, and
      the test that no other covered candidate is a proper subset. */
  datatype Test = CoversSelection(sel: Selection) | NoCoveredProperSubset(covered: seq<seq<Mode>>)

  /** Whether a candidate passes a filter callback. */
  predicate Passes(test: Test, c: seq<Mode>) {
    match test
    case CoversSelection(sel) => CoversAll(sel, Elems(c))
    case NoCoveredProperSubset(covered) => !HasCoveredProperSubset(covered, c)
  }

  /** `Array.prototype.filter`: the elements passing `test`, in order. */
  function Filter(test: Test, xs: seq<seq<Mode>>): seq<seq<Mode>> {
    if |xs| == 0 then []
    else if Passes(test, xs[0]) then [xs[0]] + Filter(test, xs[1..])
    else Filter(test, xs[1..])
  }

  /** `filter` keeps exactly the elements that pass the test, never more
      than it was given, and no element twice when none was given twice. */
  lemma {:induction false} FilterSpec(test: Test, xs: seq<seq<Mode>>)
    ensures forall x :: x in Filter(test, xs) <==> x in xs && Passes(test, x)
    ensures |Filter(test, xs)| <= |xs|
    ensures Distinct(xs) ==> Distinct(Filter(test, xs))
  {
    if |xs| > 0 {
      FilterSpec(test, xs[1..]);
      assert forall x :: x in xs ==> x == xs[0] || x in xs[1..];
      if Distinct(xs) {
        assert xs[0] !in xs[1..];
        assert Distinct(xs[1..]) by {
          forall i, j | 0 <= i < j < |xs| - 1 ensures xs[1..][i] != xs[1..][j] {
            assert xs[1..][i] == xs[i + 1] && xs[1..][j] == xs[j + 1];
          }
        }
      }
    }
  }

  /** `a` occurs in `xs` before some occurrence of `b`. */
  ghost predicate OccurBefore(xs: seq<seq<Mode>>, a: seq<Mode>, b: seq<Mode>) {
    exists p, q :: 0 <= p < q < |xs| && xs[p] == a && xs[q] == b
  }

  /** Every two elements of `ys` occur in `xs` in the same relative order. */
  ghost predicate InOrderOf(ys: seq<seq<Mode>>, xs: seq<seq<Mode>>) {
    forall i, j :: 0 <= i < j < |ys| ==> OccurBefore(xs, ys[i], ys[j])
  }

  /** `filter` keeps the relative order of the elements it keeps. */
  lemma {:induction false} FilterKeepsOrder(test: Test, xs: seq<seq<Mode>>)
    ensures InOrderOf(Filter(test, xs), xs)
  {
    if |xs| > 0 {
      var ys := Filter(test, xs);
      var rest := Filter(test, xs[1..]);
      FilterKeepsOrder(test, xs[1..]);
      FilterSpec(test, xs[1..]);
      forall i, j | 0 <= i < j < |ys| ensures OccurBefore(xs, ys[i], ys[j])
      {
        if Passes(test, xs[0]) {
          assert ys == [xs[0]] + rest;
          if i == 0 {
            assert ys[j] == rest[j - 1] && rest[j - 1] in xs[1..];
            var q :| 0 <= q < |xs| - 1 && xs[1..][q] == ys[j];
            assert xs[0] == ys[0] && xs[q + 1] == ys[j];
          } else {
            assert ys[i] == rest[i - 1] && ys[j] == rest[j - 1];
            var p, q :| 0 <= p < q < |xs| - 1 && xs[1..][p] == rest[i - 1] && xs[1..][q] == rest[j - 1];
            assert xs[p + 1] == ys[i] && xs[q + 1] == ys[j];
          }
        } else {
          assert ys == rest;
          var p, q :| 0 <= p < q < |xs| - 1 && xs[1..][p] == rest[i] && xs[1..][q] == rest[j];
          assert xs[p + 1] == ys[i] && xs[q + 1] == ys[j];
        }
      }
    }
  }

  /** Keeping relative order composes: a list in the order of `ys`, itself
      in the order of `xs`, is in the order of `xs`. */
  lemma InOrderOfTrans(zs: seq<seq<Mode>>, ys: seq<seq<Mode>>, xs: seq<seq<Mode>>)
    requires InOrderOf(zs, ys) && InOrderOf(ys, xs)
    ensures InOrderOf(zs, xs)
  {
    forall i, j | 0 <= i < j < |zs| ensures OccurBefore(xs, zs[i], zs[j]) {
      var p, q :| 0 <= p < q < |ys| && ys[p] == zs[i] && ys[q] == zs[j];
      assert OccurBefore(xs, ys[p], ys[q]);
    }
  }

  /** `allCandidates`: every non-empty combination of modes, singletons
      first, then pairs, then the triple, each listed in canonical order. */
  const AllCandidates: seq<seq<Mode>> := [
    [Textual],
    [Visual],
    [Auditory],
    [Textual, Visual],
    [Textual, Auditory],
    [Visual, Auditory],
    [Textual, Visual, Auditory]
  ]

  /** The universe holds seven canonical, non-empty, pairwise different
      combinations. */
  lemma AllCandidatesWellFormed()
    ensures |AllCandidates| == 7 && Distinct(AllCandidates)
    ensures forall c :: c in AllCandidates ==> Canonical(c) && Distinct(c) && c != []
  {
    forall c | c in AllCandidates ensures Canonical(c) && Distinct(c) {
      CanonicalIsDistinct(c);
    }
  }

  /** Every non-empty set of modes is, in canonical listing, a member of the
      universe, and the empty set is not. */
  lemma ListingInUniverse(s: set<Mode>)
    ensures s != {} <==> Listing(s) in AllCandidates
  {
    var t, v, a := Textual in s, Visual in s, Auditory in s;
    if !t && !v && !a {
      SameMembersSameSet(s, {});
    } else if t && v && a {
      assert Listing(s) == AllCandidates[6];
    } else if t && v {
      assert Listing(s) == AllCandidates[3];
    } else if t && a {
      assert Listing(s) == AllCandidates[4];
    } else if v && a {
      assert Listing(s) == AllCandidates[5];
    } else if t {
      assert Listing(s) == AllCandidates[0];
    } else if v {
      assert Listing(s) == AllCandidates[1];
    } else {
      assert Listing(s) == AllCandidates[2];
    }
  }

  /** Two members of the universe are the same list exactly when they hold
      the same modes. */
  lemma CandidatesDifferAsSets(a: seq<Mode>, b: seq<Mode>)
    requires a in AllCandidates && b in AllCandidates
    ensures a == b <==> Elems(a) == Elems(b)
  {
    AllCandidatesWellFormed();
    CanonicalIsListing(a);
    CanonicalIsListing(b);
  }

  /** `covered`: the candidates that cover the selection, in universe order. */
  function Covered(sel: Selection): seq<seq<Mode>> {
    Filter(CoversSelection(sel), AllCandidates)
  }

  /** `covered` holds exactly the covering candidates, once each, and always
      holds the full triple. */
  lemma CoveredSpec(sel: Selection)
    ensures forall c :: c in Covered(sel) <==> c in AllCandidates && CoversAll(sel, Elems(c))
    ensures Distinct(Covered(sel))
    ensures [Textual, Visual, Auditory] in Covered(sel)
  {
    FilterSpec(CoversSelection(sel), AllCandidates);
    AllCandidatesWellFormed();
    SameMembersSameSet(Elems([Textual, Visual, Auditory]), {Textual, Visual, Auditory});
    AllModesCover(sel);
  }

  /** The test `covered.some(other => other !== set && isProperSubset(other, set))`.
      `ams.js` compares object identity; distinct members of the universe
      are distinct values, so value inequality decides the same. */
  predicate HasCoveredProperSubset(covered: seq<seq<Mode>>, s: seq<Mode>) {
    exists other :: other in covered && other != s && IsProperSubset(other, s)
  }

  /** `minimal`: the covered candidates with no covered proper subset, in
      universe order. */
  function Minimal(sel: Selection): seq<seq<Mode>> {
    MinimalAmong(Covered(sel))
  }

  /** The `minimal` filter over a given `covered` list. */
  function MinimalAmong(covered: seq<seq<Mode>>): seq<seq<Mode>> {
    Filter(NoCoveredProperSubset(covered), covered)
  }

  /** `minimal` holds exactly the covered candidates without a covered
      proper subset, once each. */
  lemma MinimalSpec(sel: Selection)
    ensures forall m :: m in Minimal(sel) <==>
      m in Covered(sel) && !HasCoveredProperSubset(Covered(sel), m)
    ensures Distinct(Minimal(sel))
  {
    CoveredSpec(sel);
    FilterSpec(NoCoveredProperSubset(Covered(sel)), Covered(sel));
  }

  /** `covered` and `minimal` list their candidates in universe order: any
      two of them occur in `allCandidates` in the same relative order. */
  lemma MinimalInUniverseOrder(sel: Selection)
    ensures InOrderOf(Covered(sel), AllCandidates)
    ensures InOrderOf(Minimal(sel), AllCandidates)
  {
    FilterKeepsOrder(CoversSelection(sel), AllCandidates);
    FilterKeepsOrder(NoCoveredProperSubset(Covered(sel)), Covered(sel));
    InOrderOfTrans(Minimal(sel), Covered(sel), AllCandidates);
  }

  /** A candidate is minimal exactly when it covers the selection and no
      covering candidate holds a strict subset of its modes. */
  lemma MinimalIffNoSmallerCover(sel: Selection, m: seq<Mode>)
    ensures m in Minimal(sel) <==>
      m in Covered(sel) && forall c :: c in Covered(sel) ==> !(Elems(c) < Elems(m))
  {
    CoveredSpec(sel);
    MinimalSpec(sel);
    AllCandidatesWellFormed();
    var covered := Covered(sel);
    if m in covered {
      forall c | c in covered
        ensures (c != m && IsProperSubset(c, m)) <==> Elems(c) < Elems(m)
      {
        ProperSubsetIffStrictInclusion(c, m);
      }
    }
  }

  /** Minimality stated over sets of modes: a minimal candidate covers the
      selection and no non-empty strict subset of its modes does. Conversely
      every member of the universe with that property is minimal. */
  lemma MinimalIsSmallestCover(sel: Selection, m: seq<Mode>)
    ensures m in Minimal(sel) <==>
      m in AllCandidates && CoversAll(sel, Elems(m))
      && forall s :: s != {} && s < Elems(m) ==> !CoversAll(sel, s)
  {
    CoveredSpec(sel);
    AllCandidatesWellFormed();
    MinimalIffNoSmallerCover(sel, m);
    if m in Minimal(sel) {
      forall s | s != {} && s < Elems(m) ensures !CoversAll(sel, s) {
        NoSmallerCoverBelowMinimal(sel, m, s);
      }
    }
    if m in AllCandidates && CoversAll(sel, Elems(m))
      && forall s :: s != {} && s < Elems(m) ==> !CoversAll(sel, s)
    {
      forall c | c in Covered(sel) ensures !(Elems(c) < Elems(m)) {
        assert c[0] in Elems(c);
      }
    }
  }

  /** One non-empty strict subset of a minimal set's modes. */
  lemma NoSmallerCoverBelowMinimal(sel: Selection, m: seq<Mode>, s: set<Mode>)
    requires m in Covered(sel)
    requires forall c :: c in Covered(sel) ==> !(Elems(c) < Elems(m))
    requires s != {} && s < Elems(m)
    ensures !CoversAll(sel, s)
  {
    CoveredSpec(sel);
    ListingInUniverse(s);
  }

  /** No minimal set is a strict subset of another, and different minimal
      sets hold different modes. */
  lemma MinimalIsAntichain(sel: Selection, a: seq<Mode>, b: seq<Mode>)
    requires a in Minimal(sel) && b in Minimal(sel)
    ensures !(Elems(a) < Elems(b))
    ensures a != b ==> Elems(a) != Elems(b)
  {
    CoveredSpec(sel);
    MinimalSpec(sel);
    MinimalIffNoSmallerCover(sel, b);
    CandidatesDifferAsSets(a, b);
  }

  /** Every covered candidate contains the modes of some minimal set. */
  lemma {:induction false} CoveredContainsMinimal(sel: Selection, c: seq<Mode>)
    requires c in Covered(sel)
    ensures exists m :: m in Minimal(sel) && Elems(m) <= Elems(c)
    decreases |c|
  {
    var covered := Covered(sel);
    MinimalSpec(sel);
    if c !in Minimal(sel) {
      var other :| other in covered && other != c && IsProperSubset(other, c);
      CoveredContainsMinimal(sel, other);
      var m :| m in Minimal(sel) && Elems(m) <= Elems(other);
      forall x | x in Elems(other) ensures x in Elems(c) {
        assert x in other;
      }
    } else {
      assert Elems(c) <= Elems(c);
    }
  }

  /** Some combination is always minimal: the full triple covers every
      selection, and it contains a minimal set. */
  lemma MinimalNonEmpty(sel: Selection)
    ensures |Minimal(sel)| > 0
  {
    CoveredSpec(sel);
    CoveredContainsMinimal(sel, [Textual, Visual, Auditory]);
  }

  /** Unfolding `Filter` one element at a time. */
  lemma FilterCons(test: Test, x: seq<Mode>, xs: seq<seq<Mode>>)
    ensures Filter(test, [x] + xs) == if Passes(test, x) then [x] + Filter(test, xs) else Filter(test, xs)
  {
    assert ([x] + xs)[1..] == xs;
  }

  /** Filtering with a test every element passes keeps the list whole. */
  lemma {:induction false} FilterKeepsAll(test: Test, xs: seq<seq<Mode>>)
    requires forall x :: x in xs ==> Passes(test, x)
    ensures Filter(test, xs) == xs
  {
    if |xs| > 0 {
      assert forall x :: x in xs[1..] ==> x in xs;
      FilterKeepsAll(test, xs[1..]);
    }
  }

  /** With no content selected, `covered` is the whole universe. */
  lemma NoContentCoversUniverse(sel: Selection)
    requires sel.content == {}
    ensures Covered(sel) == AllCandidates
  {
    EmptyCandidateCoversOnlyNoContent(sel);
    FilterKeepsAll(CoversSelection(sel), AllCandidates);
  }

  /** Within the whole universe, the singletons are the candidates without a
      proper subset, and each pair or triple has one. */
  lemma UniverseProperSubsets()
    ensures forall i :: 0 <= i < 3 ==> !HasCoveredProperSubset(AllCandidates, AllCandidates[i])
    ensures forall i :: 3 <= i < 7 ==> HasCoveredProperSubset(AllCandidates, AllCandidates[i])
  {
    var u := AllCandidates;
    AllCandidatesWellFormed();
    assert IsProperSubset(u[0], u[3]) && IsProperSubset(u[0], u[4]);
    assert IsProperSubset(u[1], u[5]) && IsProperSubset(u[0], u[6]);
  }

  /** Filtering with a test no element passes leaves nothing. */
  lemma FilterKeepsNone(test: Test, xs: seq<seq<Mode>>)
    requires forall x :: x in xs ==> !Passes(test, x)
    ensures Filter(test, xs) == []
  {
  }

  /** Filtering a concatenation filters each part: `filter` keeps the
      relative order of what it keeps. */
  lemma {:induction false} FilterAppend(test: Test, xs: seq<seq<Mode>>, ys: seq<seq<Mode>>)
    ensures Filter(test, xs + ys) == Filter(test, xs) + Filter(test, ys)
  {
    if |xs| > 0 {
      assert (xs + ys)[1..] == xs[1..] + ys;
      FilterAppend(test, xs[1..], ys);
    } else {
      assert xs + ys == ys;
    }
  }

  /** Over the whole universe the minimal candidates are the singletons. */
  lemma MinimalOfUniverse()
    ensures MinimalAmong(AllCandidates) == [[Textual], [Visual], [Auditory]]
  {
    var u := AllCandidates;
    assert u == u[..3] + u[3..];
    FilterAppend(NoCoveredProperSubset(u), u[..3], u[3..]);
    SingletonsUnbeaten();
    OthersBeaten();
  }

  /** In the whole universe no singleton has a proper subset. */
  lemma SingletonsUnbeaten()
    ensures Filter(NoCoveredProperSubset(AllCandidates), AllCandidates[..3]) == AllCandidates[..3]
  {
    UniverseProperSubsets();
    var u := AllCandidates;
    assert forall x :: x in u[..3] ==> x == u[0] || x == u[1] || x == u[2];
    FilterKeepsAll(NoCoveredProperSubset(u), u[..3]);
  }

  /** In the whole universe every pair and the triple has a proper subset. */
  lemma OthersBeaten()
    ensures Filter(NoCoveredProperSubset(AllCandidates), AllCandidates[3..]) == []
  {
    var u := AllCandidates;
    var test := NoCoveredProperSubset(u);
    forall x | x in u[3..] ensures !Passes(test, x) {
      assert x == u[3] || x == u[4] || x == u[5] || x == u[6];
      if x == u[5] {
        assert u[1] in u && IsProperSubset(u[1], x);
      } else {
        assert u[0] in u && IsProperSubset(u[0], x);
      }
    }
    FilterKeepsNone(test, u[3..]);
  }

  /** With no content selected every candidate covers, so the minimal sets
      are exactly the three single modes, in canonical order. */
  lemma NoContentMinimalAreSingletons(sel: Selection)
    requires sel.content == {}
    ensures Minimal(sel) == [[Textual], [Visual], [Auditory]]
  {
    NoContentCoversUniverse(sel);
    MinimalOfUniverse();
  }
}
