/** Access modes, their canonical order, and the sorted key under which a
    combination of modes is reported (ams.js, `ORDER` and `sortSetArray`).

    A candidate combination is held the way `ams.js` holds it: as a
    JavaScript `Set`, i.e. a duplicate-free list in insertion order. Here that
    is a `seq<Mode>` with `Distinct`; `has` is `in`, `size` is `|_|`. */
module AccessModes {

  /** The three human sensory access modes. */
  datatype Mode = Textual | Visual | Auditory

  /** The canonical order textual, visual, auditory. */
  const Order: seq<Mode> := [Textual, Visual, Auditory]

  /** `ORDER.indexOf(m)`: the position of `m` in the canonical order. */
  function Rank(m: Mode): (r: nat)
    ensures r < |Order| && Order[r] == m
    ensures forall i :: 0 <= i < |Order| && Order[i] == m ==> i == r
  {
    match m
    case Textual => 0
    case Visual => 1
    case Auditory => 2
  }

  /** The set of modes a list mentions. */
  function Elems(xs: seq<Mode>): set<Mode> {
    set m | m in xs
  }

  /** No value occurs twice (a JavaScript `Set`, or a list of distinct keys). */
  predicate Distinct<T(==)>(xs: seq<T>) {
    forall i, j :: 0 <= i < j < |xs| ==> xs[i] != xs[j]
  }

  /** Non-decreasing by rank: what the comparator of `sortSetArray` asks for. */
  predicate SortedByRank(xs: seq<Mode>) {
    forall i, j :: 0 <= i < j < |xs| ==> Rank(xs[i]) <= Rank(xs[j])
  }

  /** Strictly increasing by rank: sorted and free of repeats. */
  predicate Canonical(xs: seq<Mode>) {
    forall i, j :: 0 <= i < j < |xs| ==> Rank(xs[i]) < Rank(xs[j])
  }

  /** Sets of modes are equal once they agree on each of the three modes. */
  lemma SameMembersSameSet(a: set<Mode>, b: set<Mode>)
    requires Textual in a <==> Textual in b
    requires Visual in a <==> Visual in b
    requires Auditory in a <==> Auditory in b
    ensures a == b
  {
    forall m ensures m in a <==> m in b {
      match m
      case Textual =>
      case Visual =>
      case Auditory =>
    }
  }

  /** The canonical listing of a set of modes, read off the canonical order.
      An independent reference for what sorting a duplicate-free list yields. */
  function Listing(s: set<Mode>): (r: seq<Mode>)
    ensures Canonical(r)
    ensures Elems(r) == s
  {
    var r := (if Textual in s then [Textual] else [])
      + (if Visual in s then [Visual] else [])
      + (if Auditory in s then [Auditory] else []);
    SameMembersSameSet(Elems(r), s);
    r
  }

  /** Inserts `m` into a list before the first element it does not
      outrank. */
  function InsertByRank(m: Mode, xs: seq<Mode>): seq<Mode> {
    if |xs| == 0 then [m]
    else if Rank(m) <= Rank(xs[0]) then [m] + xs
    else [xs[0]] + InsertByRank(m, xs[1..])
  }

  /** Inserting into a rank-sorted list keeps it sorted and adds exactly the
      one element. */
  lemma {:induction false} InsertByRankSpec(m: Mode, xs: seq<Mode>)
    requires SortedByRank(xs)
    ensures SortedByRank(InsertByRank(m, xs))
    ensures multiset(InsertByRank(m, xs)) == multiset(xs) + multiset{m}
  {
    if |xs| > 0 && Rank(m) > Rank(xs[0]) {
      var tail := xs[1..];
      assert xs == [xs[0]] + tail;
      SortedTail(xs);
      InsertByRankSpec(m, tail);
      ConsSorted(xs[0], m, tail, InsertByRank(m, tail));
      assert InsertByRank(m, xs) == [xs[0]] + InsertByRank(m, tail);
    }
  }

  /** The tail of a rank-sorted list is rank-sorted. */
  lemma SortedTail(xs: seq<Mode>)
    requires SortedByRank(xs) && |xs| > 0
    ensures SortedByRank(xs[1..])
  {
    var tail := xs[1..];
    forall i, j | 0 <= i < j < |tail| ensures Rank(tail[i]) <= Rank(tail[j]) {
      assert tail[i] == xs[i + 1] && tail[j] == xs[j + 1];
    }
  }

  /** Putting the head of a sorted list in front of the result of inserting a
      higher-ranked mode into its tail keeps the list sorted. */
  lemma ConsSorted(x: Mode, m: Mode, tail: seq<Mode>, rest: seq<Mode>)
    requires SortedByRank([x] + tail)
    requires Rank(x) < Rank(m)
    requires multiset(rest) == multiset(tail) + multiset{m}
    requires SortedByRank(rest)
    ensures SortedByRank([x] + rest)
  {
    var xs := [x] + tail;
    forall k | 0 <= k < |rest| ensures Rank(x) <= Rank(rest[k]) {
      assert rest[k] in multiset(rest);
      if rest[k] != m {
        assert multiset(rest)[rest[k]] == multiset(tail)[rest[k]];
        assert rest[k] in multiset(tail);
        var j :| 0 <= j < |tail| && tail[j] == rest[k];
        assert xs[0] == x && xs[j + 1] == rest[k];
        assert Rank(xs[0]) <= Rank(xs[j + 1]);
      }
    }
    var r := [x] + rest;
    forall i, j | 0 <= i < j < |r| ensures Rank(r[i]) <= Rank(r[j]) {
      if i > 0 {
        assert r[i] == rest[i - 1] && r[j] == rest[j - 1];
      } else {
        assert r[j] == rest[j - 1];
      }
    }
  }

  /** `sortSetArray`: a copy of the list sorted by `ORDER.indexOf`, here by
      insertion. `ams.js` relies on `Array.prototype.sort`; ranks are
      injective, so every correct sort, stable or not, yields this same list. */
  function SortByRank(xs: seq<Mode>): seq<Mode> {
    if |xs| == 0 then [] else InsertByRank(xs[0], SortByRank(xs[1..]))
  }

  /** `sortSetArray` returns a rank-sorted permutation of its argument. */
  lemma {:induction false} SortByRankSpec(xs: seq<Mode>)
    ensures SortedByRank(SortByRank(xs))
    ensures multiset(SortByRank(xs)) == multiset(xs)
  {
    if |xs| > 0 {
      assert xs == [xs[0]] + xs[1..];
      SortByRankSpec(xs[1..]);
      InsertByRankSpec(xs[0], SortByRank(xs[1..]));
    }
  }

  /** A canonical list repeats no mode. */
  lemma CanonicalIsDistinct(xs: seq<Mode>)
    requires Canonical(xs)
    ensures Distinct(xs)
  {
    forall i, j | 0 <= i < j < |xs| ensures xs[i] != xs[j] {
      assert Rank(xs[i]) < Rank(xs[j]);
    }
  }

  /** A list is duplicate-free exactly when no value occurs in it twice. */
  lemma {:induction false} DistinctIffSingleOccurrences(xs: seq<Mode>)
    ensures Distinct(xs) <==> forall m :: multiset(xs)[m] <= 1
  {
    if |xs| > 0 {
      var rest := xs[1..];
      assert xs == [xs[0]] + rest;
      assert multiset(xs) == multiset{xs[0]} + multiset(rest);
      DistinctIffSingleOccurrences(rest);
      if Distinct(xs) {
        assert xs[0] !in rest;
        assert Distinct(rest) by {
          forall i, j | 0 <= i < j < |rest| ensures rest[i] != rest[j] {
            assert rest[i] == xs[i + 1] && rest[j] == xs[j + 1];
          }
        }
      } else {
        var i, j :| 0 <= i < j < |xs| && xs[i] == xs[j];
        if i == 0 {
          assert rest[j - 1] == xs[0];
          assert xs[0] in multiset(rest);
          assert multiset(xs)[xs[0]] >= 2;
        } else {
          assert rest[i - 1] == rest[j - 1];
          assert !Distinct(rest);
          var m :| multiset(rest)[m] > 1;
          assert multiset(xs)[m] > 1;
        }
      }
    }
  }

  /** A canonical list is the canonical listing of its own set: there is
      exactly one canonical list per set of modes. */
  lemma CanonicalIsListing(xs: seq<Mode>)
    requires Canonical(xs)
    ensures xs == Listing(Elems(xs))
  {
    if |xs| >= 4 {
      var r0, r1, r2, r3 := Rank(xs[0]), Rank(xs[1]), Rank(xs[2]), Rank(xs[3]);
      assert false;
    } else if |xs| == 3 {
      CanonicalTriple(xs);
    } else if |xs| == 2 {
      CanonicalPair(xs[0], xs[1]);
      assert xs == [xs[0], xs[1]];
    } else if |xs| == 1 {
      CanonicalSingle(xs[0]);
      assert xs == [xs[0]];
    } else {
      assert Elems(xs) == {};
    }
  }

  lemma CanonicalTriple(xs: seq<Mode>)
    requires |xs| == 3 && Canonical(xs)
    ensures xs == Listing(Elems(xs))
  {
    assert Rank(xs[0]) < Rank(xs[1]) < Rank(xs[2]);
    assert xs == [Textual, Visual, Auditory];
    SameMembersSameSet(Elems(xs), {Textual, Visual, Auditory});
  }

  lemma CanonicalPair(a: Mode, b: Mode)
    requires Rank(a) < Rank(b)
    ensures [a, b] == Listing(Elems([a, b]))
  {
    var xs := [a, b];
    if a == Textual && b == Visual {
      SameMembersSameSet(Elems(xs), {Textual, Visual});
    } else if a == Textual {
      SameMembersSameSet(Elems(xs), {Textual, Auditory});
    } else {
      SameMembersSameSet(Elems(xs), {Visual, Auditory});
    }
  }

  lemma CanonicalSingle(a: Mode)
    ensures [a] == Listing(Elems([a]))
  {
    SameMembersSameSet(Elems([a]), {a});
  }

  /** The sorted key of a duplicate-free list is the canonical listing of its
      set: it is canonical, names exactly the listed modes, and depends only on
      the set, not on the insertion order. */
  lemma SortedKeyIsListing(xs: seq<Mode>)
    requires Distinct(xs)
    ensures SortByRank(xs) == Listing(Elems(xs))
  {
    var r := SortByRank(xs);
    SortByRankSpec(xs);
    DistinctIffSingleOccurrences(xs);
    DistinctIffSingleOccurrences(r);
    assert Elems(r) == Elems(xs) by {
      forall m ensures m in r <==> m in xs {
        assert m in r <==> m in multiset(r);
        assert m in xs <==> m in multiset(xs);
      }
    }
    assert Canonical(r) by {
      forall i, j | 0 <= i < j < |r| ensures Rank(r[i]) < Rank(r[j]) {
        assert Rank(r[i]) <= Rank(r[j]);
      }
    }
    CanonicalIsListing(r);
  }

  /** Two duplicate-free lists get the same sorted key exactly when they hold
      the same modes: comparing keys is comparing sets. */
  lemma SameKeyIffSameSet(xs: seq<Mode>, ys: seq<Mode>)
    requires Distinct(xs) && Distinct(ys)
    ensures SortByRank(xs) == SortByRank(ys) <==> Elems(xs) == Elems(ys)
  {
    SortedKeyIsListing(xs);
    SortedKeyIsListing(ys);
  }

  /** `isProperSubset(a, b)`: `a` is smaller than `b` and every member of `a`
      is in `b`. */
  predicate IsProperSubset(a: seq<Mode>, b: seq<Mode>) {
    if |a| >= |b| then false
    else forall x :: x in a ==> x in b
  }

  /** A duplicate-free list has as many elements as its set. */
  lemma {:induction false} DistinctCardinality(xs: seq<Mode>)
    requires Distinct(xs)
    ensures |Elems(xs)| == |xs|
  {
    if |xs| > 0 {
      var rest := xs[1..];
      assert Distinct(rest) by {
        forall i, j | 0 <= i < j < |rest| ensures rest[i] != rest[j] {
          assert rest[i] == xs[i + 1] && rest[j] == xs[j + 1];
        }
      }
      DistinctCardinality(rest);
      assert xs[0] !in Elems(rest);
      assert xs == [xs[0]] + rest;
      assert Elems(xs) == {xs[0]} + Elems(rest);
    }
  }

  /** A strict subset has fewer elements. */
  lemma StrictSubsetSmaller(a: set<Mode>, b: set<Mode>)
    requires a < b
    ensures |a| < |b|
  {
    var d := b - a;
    assert b == a + d;
    assert d != {};
  }

  /** On duplicate-free lists, `isProperSubset` is exactly strict inclusion of
      the sets they hold. */
  lemma ProperSubsetIffStrictInclusion(a: seq<Mode>, b: seq<Mode>)
    requires Distinct(a) && Distinct(b)
    ensures IsProperSubset(a, b) <==> Elems(a) < Elems(b)
  {
    DistinctCardinality(a);
    DistinctCardinality(b);
    if IsProperSubset(a, b) {
      forall x | x in Elems(a) ensures x in Elems(b) {
        assert x in a;
      }
      assert |Elems(a)| < |Elems(b)|;
      assert Elems(a) != Elems(b);
    }
    if Elems(a) < Elems(b) {
      StrictSubsetSmaller(Elems(a), Elems(b));
      assert |a| < |b|;
      forall x | x in a ensures x in b {
        assert x in Elems(a);
      }
      assert IsProperSubset(a, b);
    }
  }
}
