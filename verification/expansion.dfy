/** The last stage of `evaluateSets` in ams.js: every minimal set is
    reported, followed by its single-mode extensions with visual, auditory and
    textual, each gated by a flag pre-check and a fresh coverage check. The
    report is keyed by the sorted list of modes and keeps first insertion
    order, as a JavaScript `Set` of JSON strings does. */
module Expansion {
  import opened AccessModes
  import opened Coverage
  import opened Minimality

  /** The flag pre-check in front of each extension: visual is offered for
      images or video, auditory for audio or video, textual for text or a
      text-based accommodation. */
  predicate Offered(sel: Selection, m: Mode) {
    match m
    case Visual => Image in sel.content || Video in sel.content
    case Auditory => Audio in sel.content || Video in sel.content
    case Textual =>
      Text in sel.content || AltText in sel.alts
      || AudioTranscript in sel.alts || DescTranscript in sel.alts
  }

  /** `expansions.add(key)`: a key already present is left where it is. */
  function Record(keys: seq<seq<Mode>>, k: seq<Mode>): seq<seq<Mode>> {
    if k in keys then keys else keys + [k]
  }

  /** One guarded extension: when `m` is offered and missing from `base`,
      and `base` plus `m` still covers the selection, its key is recorded. */
  function Extend(sel: Selection, base: seq<Mode>, m: Mode, keys: seq<seq<Mode>>): seq<seq<Mode>> {
    if Offered(sel, m) && m !in base then
      var s := base + [m];
      if CoversAll(sel, Elems(s)) then Record(keys, SortByRank(s)) else keys
    else keys
  }

  /** The body of `minimal.forEach`: the set's own key, then its extensions
      with visual, auditory and textual, each built from the set itself. */
  function ExpandOne(sel: Selection, base: seq<Mode>, keys: seq<seq<Mode>>): seq<seq<Mode>> {
    var own := Record(keys, SortByRank(base));
    Extend(sel, base, Textual, Extend(sel, base, Auditory, Extend(sel, base, Visual, own)))
  }

  /** `minimal.forEach(...)` over a list of bases, threading the key set. */
  function ExpandAll(sel: Selection, bases: seq<seq<Mode>>, keys: seq<seq<Mode>>): seq<seq<Mode>>
    decreases |bases|
  {
    if |bases| == 0 then keys
    else ExpandAll(sel, bases[1..], ExpandOne(sel, bases[0], keys))
  }

  /** `evaluateSets()`, with the form state passed in: the keys recorded for
      the minimal sets, in insertion order. */
  function EvaluateSets(sel: Selection): seq<seq<Mode>> {
    ExpandAll(sel, Minimal(sel), [])
  }

  /** Recording a key never moves or drops a key already recorded, and
      never records one twice. */
  lemma RecordGrows(keys: seq<seq<Mode>>, k: seq<Mode>)
    ensures keys <= Record(keys, k)
    ensures forall x :: x in Record(keys, k) <==> x in keys || x == k
    ensures Distinct(keys) ==> Distinct(Record(keys, k))
  {
  }

  /** The same for one guarded extension. */
  lemma ExtendGrows(sel: Selection, base: seq<Mode>, m: Mode, keys: seq<seq<Mode>>)
    ensures keys <= Extend(sel, base, m, keys)
    ensures Distinct(keys) ==> Distinct(Extend(sel, base, m, keys))
  {
    if Offered(sel, m) && m !in base {
      RecordGrows(keys, SortByRank(base + [m]));
    }
  }

  /** Expanding one base keeps what was recorded, records nothing twice, and
      records the base's own key first when it is new. */
  lemma ExpandOneGrows(sel: Selection, base: seq<Mode>, keys: seq<seq<Mode>>)
    ensures keys <= ExpandOne(sel, base, keys)
    ensures Distinct(keys) ==> Distinct(ExpandOne(sel, base, keys))
    ensures SortByRank(base) !in keys ==>
      |ExpandOne(sel, base, keys)| > |keys| && ExpandOne(sel, base, keys)[|keys|] == SortByRank(base)
  {
    var own := Record(keys, SortByRank(base));
    RecordGrows(keys, SortByRank(base));
    var v := Extend(sel, base, Visual, own);
    ExtendGrows(sel, base, Visual, own);
    var a := Extend(sel, base, Auditory, v);
    ExtendGrows(sel, base, Auditory, v);
    ExtendGrows(sel, base, Textual, a);
  }

  /** Expanding a list of bases keeps what was recorded and records nothing
      twice. */
  lemma {:induction false} ExpandAllGrows(sel: Selection, bases: seq<seq<Mode>>, keys: seq<seq<Mode>>)
    ensures keys <= ExpandAll(sel, bases, keys)
    ensures Distinct(keys) ==> Distinct(ExpandAll(sel, bases, keys))
    decreases |bases|
  {
    if |bases| > 0 {
      var next := ExpandOne(sel, bases[0], keys);
      ExpandOneGrows(sel, bases[0], keys);
      ExpandAllGrows(sel, bases[1..], next);
    }
  }

  /** What one base may contribute to the report, as sets of modes: the base
      itself, or the base plus one missing offered mode when that still
      covers the selection. */
  ghost predicate Produces(sel: Selection, base: set<Mode>, s: set<Mode>) {
    s == base
    || exists m :: m !in base && Offered(sel, m) && s == base + {m} && CoversAll(sel, s)
  }

  /** The same without the coverage re-check: the base itself, or the base
      plus one missing mode whose flag pre-check passes. */
  ghost predicate Offers(sel: Selection, base: set<Mode>, s: set<Mode>) {
    s == base || exists m :: m !in base && Offered(sel, m) && s == base + {m}
  }

  /** The key of a duplicate-free list is the canonical list of its modes,
      and a canonical list is the key of every list holding its modes. */
  lemma KeyIsCanonicalListOfModes(xs: seq<Mode>, k: seq<Mode>)
    requires Distinct(xs)
    ensures Canonical(SortByRank(xs)) && Elems(SortByRank(xs)) == Elems(xs)
    ensures k == SortByRank(xs) <==> Canonical(k) && Elems(k) == Elems(xs)
  {
    SortedKeyIsListing(xs);
    if Canonical(k) {
      CanonicalIsListing(k);
    }
  }

  /** Appending a missing mode keeps a list duplicate-free and adds that
      mode to its set. */
  lemma AppendMissing(base: seq<Mode>, m: Mode)
    requires Distinct(base) && m !in base
    ensures Distinct(base + [m])
    ensures Elems(base + [m]) == Elems(base) + {m}
  {
  }

  /** The keys one guarded extension can add, described by their modes. */
  lemma ExtendEmits(sel: Selection, base: seq<Mode>, m: Mode, keys: seq<seq<Mode>>, k: seq<Mode>)
    requires Distinct(base)
    ensures k in Extend(sel, base, m, keys) <==>
      k in keys
      || (m !in Elems(base) && Offered(sel, m) && CoversAll(sel, Elems(base) + {m})
          && Canonical(k) && Elems(k) == Elems(base) + {m})
  {
    if m !in base {
      AppendMissing(base, m);
      KeyIsCanonicalListOfModes(base + [m], k);
    }
  }

  /** The keys one minimal set adds: exactly the canonical lists of what it
      produces. */
  lemma ExpandOneEmits(sel: Selection, base: seq<Mode>, keys: seq<seq<Mode>>, k: seq<Mode>)
    requires Distinct(base)
    ensures k in ExpandOne(sel, base, keys) <==>
      k in keys || (Canonical(k) && Produces(sel, Elems(base), Elems(k)))
  {
    var own := Record(keys, SortByRank(base));
    var afterVisual := Extend(sel, base, Visual, own);
    var afterAuditory := Extend(sel, base, Auditory, afterVisual);
    KeyIsCanonicalListOfModes(base, k);
    ExtendEmits(sel, base, Visual, own, k);
    ExtendEmits(sel, base, Auditory, afterVisual, k);
    ExtendEmits(sel, base, Textual, afterAuditory, k);
    var b, s := Elems(base), Elems(k);
    if Produces(sel, b, s) && s != b {
      var m :| m !in b && Offered(sel, m) && s == b + {m} && CoversAll(sel, s);
      match m
      case Visual =>
      case Auditory =>
      case Textual =>
    }
  }

  /** The keys a run over several bases adds: the canonical lists of what
      any of them produces. */
  lemma {:induction false} ExpandAllEmits(sel: Selection, bases: seq<seq<Mode>>, keys: seq<seq<Mode>>, k: seq<Mode>)
    requires forall b :: b in bases ==> Distinct(b)
    ensures k in ExpandAll(sel, bases, keys) <==>
      k in keys || (Canonical(k) && exists b :: b in bases && Produces(sel, Elems(b), Elems(k)))
    decreases |bases|
  {
    if |bases| > 0 {
      var next := ExpandOne(sel, bases[0], keys);
      assert forall b :: b in bases[1..] ==> b in bases;
      ExpandOneEmits(sel, bases[0], keys, k);
      ExpandAllEmits(sel, bases[1..], next, k);
      assert forall b :: b in bases ==> b == bases[0] || b in bases[1..];
    }
  }

  /** The members of `minimal` are duplicate-free, non-empty and cover the
      selection. */
  lemma MinimalWellFormed(sel: Selection)
    ensures forall b :: b in Minimal(sel) ==> Distinct(b) && b != [] && CoversAll(sel, Elems(b))
    ensures Distinct(Minimal(sel))
  {
    CoveredSpec(sel);
    MinimalSpec(sel);
    AllCandidatesWellFormed();
  }

  /** What `evaluateSets` reports, exactly: the canonical lists of the
      minimal sets and of their guarded single-mode extensions that cover
      the selection. */
  lemma EvaluateSetsSpec(sel: Selection, k: seq<Mode>)
    ensures k in EvaluateSets(sel) <==>
      Canonical(k) && exists m :: m in Minimal(sel) && Produces(sel, Elems(m), Elems(k))
  {
    MinimalWellFormed(sel);
    ExpandAllEmits(sel, Minimal(sel), [], k);
  }

  /** The coverage re-check on an extension never rejects anything: an
      extension of a covering set covers by monotonicity, so only the flag
      pre-check decides what is offered. */
  lemma RecheckNeverRejects(sel: Selection, base: set<Mode>, s: set<Mode>)
    requires CoversAll(sel, base)
    ensures Produces(sel, base, s) <==> Offers(sel, base, s)
  {
    if s != base && exists m :: m !in base && Offered(sel, m) && s == base + {m} {
      var m :| m !in base && Offered(sel, m) && s == base + {m};
      CoversAllMonotone(sel, base, s);
    }
  }

  /** The report in terms of the flags alone: each reported list is the
      canonical list of a minimal set, or of a minimal set plus one mode it
      lacks whose pre-check passes; and every such list is reported. */
  lemma EvaluateSetsShape(sel: Selection, k: seq<Mode>)
    ensures k in EvaluateSets(sel) <==>
      Canonical(k) && exists m :: m in Minimal(sel) && Offers(sel, Elems(m), Elems(k))
  {
    EvaluateSetsSpec(sel, k);
    MinimalWellFormed(sel);
    forall m | m in Minimal(sel)
      ensures Produces(sel, Elems(m), Elems(k)) <==> Offers(sel, Elems(m), Elems(k))
    {
      RecheckNeverRejects(sel, Elems(m), Elems(k));
    }
  }

  /** Soundness: every reported list is canonical (sorted by the canonical
      order, no mode repeated), non-empty, and covers the selection. */
  lemma EvaluateSetsSound(sel: Selection, k: seq<Mode>)
    requires k in EvaluateSets(sel)
    ensures Canonical(k) && k != []
    ensures CoversAll(sel, Elems(k))
  {
    EvaluateSetsSpec(sel, k);
    MinimalWellFormed(sel);
    var m :| m in Minimal(sel) && Produces(sel, Elems(m), Elems(k));
    assert m[0] in Elems(m);
  }

  /** Every minimal set is reported, under its canonical list. */
  lemma MinimalSetsReported(sel: Selection, m: seq<Mode>)
    requires m in Minimal(sel)
    ensures SortByRank(m) in EvaluateSets(sel)
  {
    MinimalWellFormed(sel);
    KeyIsCanonicalListOfModes(m, SortByRank(m));
    EvaluateSetsSpec(sel, SortByRank(m));
  }

  /** No list is reported twice, and no two reported lists name the same set
      of modes. */
  lemma EvaluateSetsDistinct(sel: Selection)
    ensures Distinct(EvaluateSets(sel))
    ensures forall i, j :: 0 <= i < j < |EvaluateSets(sel)| ==>
      Elems(EvaluateSets(sel)[i]) != Elems(EvaluateSets(sel)[j])
  {
    var out := EvaluateSets(sel);
    ExpandAllGrows(sel, Minimal(sel), []);
    forall i, j | 0 <= i < j < |out| ensures Elems(out[i]) != Elems(out[j]) {
      EvaluateSetsSound(sel, out[i]);
      EvaluateSetsSound(sel, out[j]);
      CanonicalIsListing(out[i]);
      CanonicalIsListing(out[j]);
    }
  }

  /** The report is never empty, and it opens with the first minimal set. */
  lemma EvaluateSetsNonEmpty(sel: Selection)
    ensures |EvaluateSets(sel)| > 0
    ensures EvaluateSets(sel)[0] == SortByRank(Minimal(sel)[0])
  {
    MinimalNonEmpty(sel);
    var ms := Minimal(sel);
    var first := ExpandOne(sel, ms[0], []);
    ExpandOneGrows(sel, ms[0], []);
    ExpandAllGrows(sel, ms[1..], first);
    assert EvaluateSets(sel) == ExpandAll(sel, ms[1..], first);
  }

  /** A base that does not contain the modes of an earlier base is not
      recorded while that earlier base is expanded. */
  lemma LaterBaseNotRecordedEarly(sel: Selection, earlier: seq<Mode>, later: seq<Mode>, keys: seq<seq<Mode>>)
    requires Distinct(earlier) && Distinct(later)
    requires !(Elems(earlier) <= Elems(later))
    requires SortByRank(later) !in keys
    ensures SortByRank(later) !in ExpandOne(sel, earlier, keys)
  {
    var k := SortByRank(later);
    KeyIsCanonicalListOfModes(later, k);
    ExpandOneEmits(sel, earlier, keys, k);
  }

  /** Where a recorded key sits once later bases have been expanded: keys
      present before are not moved. */
  lemma PositionKept(keys: seq<seq<Mode>>, out: seq<seq<Mode>>, p: nat)
    requires keys <= out && p < |keys|
    ensures out[p] == keys[p]
  {
  }

  /** `x` is reported at some position before `y`. */
  ghost predicate Precedes(out: seq<seq<Mode>>, x: seq<Mode>, y: seq<Mode>) {
    exists p, q :: 0 <= p < q < |out| && out[p] == x && out[q] == y
  }

  /** No base holds all the modes of an earlier base. */
  ghost predicate NoBaseAboveEarlier(bases: seq<seq<Mode>>) {
    forall a, b {:trigger Elems(bases[a]), Elems(bases[b])} ::
      0 <= a < b < |bases| ==> !(Elems(bases[a]) <= Elems(bases[b]))
  }

  /** Every base is a duplicate-free list (a JavaScript `Set`). */
  ghost predicate AllDistinct(bases: seq<seq<Mode>>) {
    forall b :: b in bases ==> Distinct(b)
  }

  /** No base has been recorded yet. */
  ghost predicate NoneRecorded(bases: seq<seq<Mode>>, keys: seq<seq<Mode>>) {
    forall a {:trigger SortByRank(bases[a])} :: 0 <= a < |bases| ==> SortByRank(bases[a]) !in keys
  }

  /** Expanding the first base records it before any later base. */
  lemma FirstBaseFirst(sel: Selection, bases: seq<seq<Mode>>, keys: seq<seq<Mode>>, j: nat)
    requires AllDistinct(bases) && NoBaseAboveEarlier(bases) && NoneRecorded(bases, keys)
    requires 0 < j < |bases|
    ensures Precedes(ExpandAll(sel, bases, keys), SortByRank(bases[0]), SortByRank(bases[j]))
  {
    var next := ExpandOne(sel, bases[0], keys);
    var rest := bases[1..];
    var out := ExpandAll(sel, rest, next);
    assert out == ExpandAll(sel, bases, keys);
    var later := bases[j];
    assert rest[j - 1] == later;
    LaterBaseNotRecordedEarly(sel, bases[0], later, keys);
    ExpandOneGrows(sel, bases[0], keys);
    ExpandAllGrows(sel, rest, next);
    var p := |keys|;
    PositionKept(next, out, p);
    KeyIsCanonicalListOfModes(later, SortByRank(later));
    assert AllDistinct(rest);
    ExpandAllEmits(sel, rest, next, SortByRank(later));
    assert Produces(sel, Elems(later), Elems(SortByRank(later)));
    var q :| 0 <= q < |out| && out[q] == SortByRank(later);
    assert q >= |next|;
  }

  /** After the first base is expanded, the remaining bases still meet the
      conditions of the order argument. */
  lemma DropFirstBase(sel: Selection, bases: seq<seq<Mode>>, keys: seq<seq<Mode>>)
    requires AllDistinct(bases) && NoBaseAboveEarlier(bases) && NoneRecorded(bases, keys)
    requires |bases| > 0
    ensures AllDistinct(bases[1..]) && NoBaseAboveEarlier(bases[1..])
    ensures NoneRecorded(bases[1..], ExpandOne(sel, bases[0], keys))
  {
    var rest := bases[1..];
    assert forall b :: b in rest ==> b in bases;
    forall a | 0 <= a < |rest| ensures SortByRank(rest[a]) !in ExpandOne(sel, bases[0], keys) {
      assert rest[a] == bases[a + 1];
      LaterBaseNotRecordedEarly(sel, bases[0], rest[a], keys);
    }
    forall a, b | 0 <= a < b < |rest| ensures !(Elems(rest[a]) <= Elems(rest[b])) {
      assert rest[a] == bases[a + 1] && rest[b] == bases[b + 1];
    }
  }

  /** Bases in which no base holds the modes of an earlier one are reported
      in their own order. */
  lemma {:induction false} ExpandAllKeepsBaseOrder(sel: Selection, bases: seq<seq<Mode>>, keys: seq<seq<Mode>>, i: nat, j: nat)
    requires AllDistinct(bases) && NoBaseAboveEarlier(bases) && NoneRecorded(bases, keys)
    requires i < j < |bases|
    ensures Precedes(ExpandAll(sel, bases, keys), SortByRank(bases[i]), SortByRank(bases[j]))
    decreases |bases|
  {
    if i == 0 {
      FirstBaseFirst(sel, bases, keys, j);
    } else {
      var next := ExpandOne(sel, bases[0], keys);
      var rest := bases[1..];
      DropFirstBase(sel, bases, keys);
      ExpandAllKeepsBaseOrder(sel, rest, next, i - 1, j - 1);
      ShiftOrder(sel, bases, keys, i, j);
    }
  }

  /** An order among later bases, seen after the first base is expanded, is
      the same order in the whole run. */
  lemma ShiftOrder(sel: Selection, bases: seq<seq<Mode>>, keys: seq<seq<Mode>>, i: nat, j: nat)
    requires 0 < i < j < |bases|
    requires Precedes(ExpandAll(sel, bases[1..], ExpandOne(sel, bases[0], keys)),
      SortByRank(bases[1..][i - 1]), SortByRank(bases[1..][j - 1]))
    ensures Precedes(ExpandAll(sel, bases, keys), SortByRank(bases[i]), SortByRank(bases[j]))
  {
    assert bases[1..][i - 1] == bases[i] && bases[1..][j - 1] == bases[j];
  }

  /** Output order: the minimal sets appear in the report in the order of
      `minimal`, itself the order of the candidate universe. */
  lemma MinimalSetsInOrder(sel: Selection, i: nat, j: nat)
    requires i < j < |Minimal(sel)|
    ensures OccurBefore(AllCandidates, Minimal(sel)[i], Minimal(sel)[j])
    ensures Precedes(EvaluateSets(sel), SortByRank(Minimal(sel)[i]), SortByRank(Minimal(sel)[j]))
  {
    MinimalInUniverseOrder(sel);
    var ms := Minimal(sel);
    MinimalWellFormed(sel);
    assert NoBaseAboveEarlier(ms) by {
      forall a, b | 0 <= a < b < |ms| ensures !(Elems(ms[a]) <= Elems(ms[b])) {
        MinimalIsAntichain(sel, ms[a], ms[b]);
      }
    }
    ExpandAllKeepsBaseOrder(sel, ms, [], i, j);
  }

  /** The key at position `q` of `out` is produced by some base whose own
      key sits at or before position `q`. */
  ghost predicate FollowsBase(sel: Selection, out: seq<seq<Mode>>, bases: seq<seq<Mode>>, q: nat)
    requires q < |out|
  {
    exists b, p :: b in bases && 0 <= p <= q && out[p] == SortByRank(b)
      && Produces(sel, Elems(b), Elems(out[q]))
  }

  /** Every key a run adds comes at or after the key of a base that
      produces it: each base's own key opens the keys it adds. */
  lemma {:induction false} ExpandAllFollowsBases(sel: Selection, bases: seq<seq<Mode>>, keys: seq<seq<Mode>>, q: nat)
    requires AllDistinct(bases) && NoBaseAboveEarlier(bases) && NoneRecorded(bases, keys)
    requires Distinct(keys)
    requires |keys| <= q < |ExpandAll(sel, bases, keys)|
    ensures FollowsBase(sel, ExpandAll(sel, bases, keys), bases, q)
    decreases |bases|
  {
    var out := ExpandAll(sel, bases, keys);
    if |bases| > 0 {
      var next := ExpandOne(sel, bases[0], keys);
      var rest := bases[1..];
      assert out == ExpandAll(sel, rest, next);
      ExpandOneGrows(sel, bases[0], keys);
      ExpandAllGrows(sel, rest, next);
      assert SortByRank(bases[0]) !in keys;
      if q < |next| {
        var k := next[q];
        assert out[q] == k && out[|keys|] == SortByRank(bases[0]);
        assert k !in keys;
        ExpandOneEmits(sel, bases[0], keys, k);
        assert bases[0] in bases;
      } else {
        DropFirstBase(sel, bases, keys);
        ExpandAllFollowsBases(sel, rest, next, q);
        var b, p :| b in rest && 0 <= p <= q && out[p] == SortByRank(b)
          && Produces(sel, Elems(b), Elems(out[q]));
        assert b in bases;
      }
    }
  }

  /** Output order around the minimal sets: every reported combination comes
      at or after the key of some minimal set that produces it, so the result
      never opens a combination before any set it can come from. */
  lemma ExtensionsFollowTheirBase(sel: Selection, q: nat)
    requires q < |EvaluateSets(sel)|
    ensures FollowsBase(sel, EvaluateSets(sel), Minimal(sel), q)
  {
    var ms := Minimal(sel);
    MinimalWellFormed(sel);
    assert NoBaseAboveEarlier(ms) by {
      forall a, b | 0 <= a < b < |ms| ensures !(Elems(ms[a]) <= Elems(ms[b])) {
        MinimalIsAntichain(sel, ms[a], ms[b]);
      }
    }
    ExpandAllFollowsBases(sel, ms, [], q);
  }
}
