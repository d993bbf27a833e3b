/** Concrete selections whose outcome the code of ams.js fixes completely,
    worked out stage by stage through `evaluateSets`. */
module Scenarios {
  import opened AccessModes
  import opened Coverage
  import opened Minimality
  import opened Expansion

  /** `forEach` over a single minimal set. */
  lemma ExpandSingle(sel: Selection, a: seq<Mode>, keys: seq<seq<Mode>>)
    ensures ExpandAll(sel, [a], keys) == ExpandOne(sel, a, keys)
  {
    assert [a][1..] == [];
  }

  /** `forEach` over two minimal sets, in order. */
  lemma ExpandPair(sel: Selection, a: seq<Mode>, b: seq<Mode>, keys: seq<seq<Mode>>)
    ensures ExpandAll(sel, [a, b], keys) == ExpandOne(sel, b, ExpandOne(sel, a, keys))
  {
    assert [a, b][1..] == [b];
    ExpandSingle(sel, b, ExpandOne(sel, a, keys));
  }

  /** A covered list whose first member is a proper subset of every other
      member has that first member as its only minimal set. */
  lemma SmallestFirst(x: seq<Mode>, rest: seq<seq<Mode>>)
    requires forall y :: y in rest ==> IsProperSubset(x, y)
    ensures MinimalAmong([x] + rest) == [x]
  {
    var c := [x] + rest;
    var test := NoCoveredProperSubset(c);
    FilterCons(test, x, rest);
    forall y | y in rest ensures !Passes(test, y) {
      assert x in c && x != y;
    }
    FilterKeepsNone(test, rest);
    assert Passes(test, x) by {
      forall other | other in c && other != x ensures !IsProperSubset(other, x) {
        assert other in rest;
      }
    }
  }

  /** Every candidate holding text or sight, in universe order. */
  const TextOrSight: seq<seq<Mode>> :=
    [[Textual], [Visual], [Textual, Visual], [Textual, Auditory], [Visual, Auditory], [Textual, Visual, Auditory]]

  /** When exactly the candidates holding text or sight cover, the minimal
      ones are text alone and sight alone. */
  lemma TextOrSightMinimal()
    ensures MinimalAmong(TextOrSight) == [[Textual], [Visual]]
  {
    var c := TextOrSight;
    assert c == c[..2] + c[2..];
    FilterAppend(NoCoveredProperSubset(c), c[..2], c[2..]);
    TextOrSightSingletonsKept();
    TextOrSightOthersDropped();
  }

  lemma TextOrSightSingletonsKept()
    ensures Filter(NoCoveredProperSubset(TextOrSight), TextOrSight[..2]) == [[Textual], [Visual]]
  {
    var c := TextOrSight;
    forall x | x in c[..2] ensures Passes(NoCoveredProperSubset(c), x) {
      assert |x| == 1;
    }
    FilterKeepsAll(NoCoveredProperSubset(c), c[..2]);
  }

  lemma TextOrSightOthersDropped()
    ensures Filter(NoCoveredProperSubset(TextOrSight), TextOrSight[2..]) == []
  {
    var c := TextOrSight;
    assert IsProperSubset(c[0], c[2]) && IsProperSubset(c[0], c[3]);
    assert IsProperSubset(c[1], c[4]) && IsProperSubset(c[0], c[5]);
    forall x | x in c[2..] ensures !Passes(NoCoveredProperSubset(c), x) {
      assert x == c[2] || x == c[3] || x == c[4] || x == c[5];
    }
    FilterKeepsNone(NoCoveredProperSubset(c), c[2..]);
  }

  const ImagesWithAltText := Selection({Image}, {AltText})

  /** Which candidates of the universe cover the selection. */
  lemma ImagesWithAltTextVerdicts()
    ensures var test := CoversSelection(ImagesWithAltText);
      Passes(test, AllCandidates[0]) && Passes(test, AllCandidates[1]) && !Passes(test, AllCandidates[2])
      && Passes(test, AllCandidates[3]) && Passes(test, AllCandidates[4])
      && Passes(test, AllCandidates[5]) && Passes(test, AllCandidates[6])
  {
  }

  lemma ImagesWithAltTextCovered()
    ensures Covered(ImagesWithAltText) == TextOrSight
  {
    var test := CoversSelection(ImagesWithAltText);
    var u := AllCandidates;
    ImagesWithAltTextVerdicts();
    assert Filter(test, u[6..]) == [u[6]];
    assert Filter(test, u[5..]) == [u[5], u[6]];
    assert Filter(test, u[4..]) == [u[4], u[5], u[6]];
    assert Filter(test, u[3..]) == [u[3], u[4], u[5], u[6]];
    assert Filter(test, u[2..]) == [u[3], u[4], u[5], u[6]];
    assert Filter(test, u[1..]) == [u[1], u[3], u[4], u[5], u[6]];
  }

  lemma ImagesWithAltTextMinimal()
    ensures Minimal(ImagesWithAltText) == [[Textual], [Visual]]
  {
    ImagesWithAltTextCovered();
    TextOrSightMinimal();
  }

  /** Images with alternative text: either text or sight suffices, and text
      plus sight is offered as an extension of the textual set only, since
      the visual set's textual extension produces the same key. */
  lemma ImagesWithAltTextReport()
    ensures Minimal(Selection({Image}, {AltText})) == [[Textual], [Visual]]
    ensures EvaluateSets(Selection({Image}, {AltText})) == [[Textual], [Textual, Visual], [Visual]]
  {
    ImagesWithAltTextMinimal();
    ExpandPair(ImagesWithAltText, [Textual], [Visual], []);
    ImagesWithAltTextFromText();
    ImagesWithAltTextFromSight();
  }

  lemma ImagesWithAltTextFromText()
    ensures ExpandOne(ImagesWithAltText, [Textual], []) == [[Textual], [Textual, Visual]]
  {
    assert SortByRank([Textual]) == [Textual];
    assert SortByRank([Textual, Visual]) == [Textual, Visual];
  }

  lemma ImagesWithAltTextFromSight()
    ensures ExpandOne(ImagesWithAltText, [Visual], [[Textual], [Textual, Visual]])
      == [[Textual], [Textual, Visual], [Visual]]
  {
    assert SortByRank([Visual]) == [Visual];
    assert SortByRank([Visual, Textual]) == [Textual, Visual];
  }

  const VideoOnly := Selection({Video}, {})

  /** Which candidates of the universe cover the selection. */
  lemma VideoOnlyVerdicts()
    ensures var test := CoversSelection(VideoOnly);
      !Passes(test, AllCandidates[0]) && !Passes(test, AllCandidates[1]) && !Passes(test, AllCandidates[2])
      && !Passes(test, AllCandidates[3]) && !Passes(test, AllCandidates[4])
      && Passes(test, AllCandidates[5]) && Passes(test, AllCandidates[6])
  {
  }

  lemma VideoOnlyCovered()
    ensures Covered(VideoOnly) == [[Visual, Auditory], [Textual, Visual, Auditory]]
  {
    var test := CoversSelection(VideoOnly);
    var u := AllCandidates;
    VideoOnlyVerdicts();
    assert Filter(test, u[6..]) == [u[6]];
    assert Filter(test, u[5..]) == [u[5], u[6]];
    assert Filter(test, u[4..]) == [u[5], u[6]];
    assert Filter(test, u[3..]) == [u[5], u[6]];
    assert Filter(test, u[2..]) == [u[5], u[6]];
    assert Filter(test, u[1..]) == [u[5], u[6]];
  }

  lemma VideoOnlyMinimal()
    ensures Minimal(VideoOnly) == [[Visual, Auditory]]
  {
    VideoOnlyCovered();
    SmallestFirst([Visual, Auditory], [[Textual, Visual, Auditory]]);
    assert [[Visual, Auditory]] + [[Textual, Visual, Auditory]] == Covered(VideoOnly);
  }

  /** Video with no accommodations: its sound and its picture each need
      their native sense, and no extension is offered. */
  lemma VideoOnlyReport()
    ensures EvaluateSets(Selection({Video}, {})) == [[Visual, Auditory]]
  {
    VideoOnlyMinimal();
    ExpandSingle(VideoOnly, [Visual, Auditory], []);
    assert SortByRank([Visual, Auditory]) == [Visual, Auditory];
  }

  const VideoWithTranscripts := Selection({Video}, {Captions, DescTranscript})

  /** Which candidates of the universe cover the selection. */
  lemma VideoWithTranscriptsVerdicts()
    ensures var test := CoversSelection(VideoWithTranscripts);
      Passes(test, AllCandidates[0]) && Passes(test, AllCandidates[1]) && !Passes(test, AllCandidates[2])
      && Passes(test, AllCandidates[3]) && Passes(test, AllCandidates[4])
      && Passes(test, AllCandidates[5]) && Passes(test, AllCandidates[6])
  {
  }

  lemma VideoWithTranscriptsCovered()
    ensures Covered(VideoWithTranscripts) == TextOrSight
  {
    var test := CoversSelection(VideoWithTranscripts);
    var u := AllCandidates;
    VideoWithTranscriptsVerdicts();
    assert Filter(test, u[6..]) == [u[6]];
    assert Filter(test, u[5..]) == [u[5], u[6]];
    assert Filter(test, u[4..]) == [u[4], u[5], u[6]];
    assert Filter(test, u[3..]) == [u[3], u[4], u[5], u[6]];
    assert Filter(test, u[2..]) == [u[3], u[4], u[5], u[6]];
    assert Filter(test, u[1..]) == [u[1], u[3], u[4], u[5], u[6]];
  }

  lemma VideoWithTranscriptsMinimal()
    ensures Minimal(VideoWithTranscripts) == [[Textual], [Visual]]
  {
    VideoWithTranscriptsCovered();
    TextOrSightMinimal();
  }

  /** Video with captions and a descriptive transcript: the transcript alone
      covers both tracks, so text on its own is sufficient, and so is sight
      with captions. */
  lemma VideoWithTranscriptsReport()
    ensures [Textual] in Minimal(Selection({Video}, {Captions, DescTranscript}))
    ensures Minimal(Selection({Video}, {Captions, DescTranscript})) == [[Textual], [Visual]]
    ensures EvaluateSets(Selection({Video}, {Captions, DescTranscript}))
      == [[Textual], [Textual, Visual], [Textual, Auditory], [Visual], [Visual, Auditory]]
  {
    VideoWithTranscriptsMinimal();
    ExpandPair(VideoWithTranscripts, [Textual], [Visual], []);
    VideoWithTranscriptsFromText();
    VideoWithTranscriptsFromSight();
  }

  lemma VideoWithTranscriptsFromText()
    ensures ExpandOne(VideoWithTranscripts, [Textual], [])
      == [[Textual], [Textual, Visual], [Textual, Auditory]]
  {
    assert SortByRank([Textual]) == [Textual];
    assert SortByRank([Textual, Visual]) == [Textual, Visual];
    assert SortByRank([Textual, Auditory]) == [Textual, Auditory];
  }

  lemma VideoWithTranscriptsFromSight()
    ensures ExpandOne(VideoWithTranscripts, [Visual], [[Textual], [Textual, Visual], [Textual, Auditory]])
      == [[Textual], [Textual, Visual], [Textual, Auditory], [Visual], [Visual, Auditory]]
  {
    assert SortByRank([Visual]) == [Visual];
    assert SortByRank([Visual, Auditory]) == [Visual, Auditory];
    assert SortByRank([Visual, Textual]) == [Textual, Visual];
  }

  const TextOnly := Selection({Text}, {})

  /** Which candidates of the universe cover the selection. */
  lemma TextOnlyVerdicts()
    ensures var test := CoversSelection(TextOnly);
      Passes(test, AllCandidates[0]) && !Passes(test, AllCandidates[1]) && !Passes(test, AllCandidates[2])
      && Passes(test, AllCandidates[3]) && Passes(test, AllCandidates[4])
      && !Passes(test, AllCandidates[5]) && Passes(test, AllCandidates[6])
  {
  }

  lemma TextOnlyCovered()
    ensures Covered(TextOnly) == [[Textual], [Textual, Visual], [Textual, Auditory], [Textual, Visual, Auditory]]
  {
    var test := CoversSelection(TextOnly);
    var u := AllCandidates;
    TextOnlyVerdicts();
    assert Filter(test, u[6..]) == [u[6]];
    assert Filter(test, u[5..]) == [u[6]];
    assert Filter(test, u[4..]) == [u[4], u[6]];
    assert Filter(test, u[3..]) == [u[3], u[4], u[6]];
    assert Filter(test, u[2..]) == [u[3], u[4], u[6]];
    assert Filter(test, u[1..]) == [u[3], u[4], u[6]];
  }

  lemma TextOnlyMinimal()
    ensures Covered(TextOnly) == [[Textual], [Textual, Visual], [Textual, Auditory], [Textual, Visual, Auditory]]
    ensures Minimal(TextOnly) == [[Textual]]
  {
    TextOnlyCovered();
    SmallestFirst([Textual], [[Textual, Visual], [Textual, Auditory], [Textual, Visual, Auditory]]);
    assert [[Textual]] + [[Textual, Visual], [Textual, Auditory], [Textual, Visual, Auditory]] == Covered(TextOnly);
  }

  /** Text alone: only the textual set is reported. Text plus sight covers
      the selection too, but the flag pre-checks offer no extension, since
      there are no images, no audio and no video. */
  lemma TextOnlyGuardsFilter()
    ensures [Textual, Visual] in Covered(Selection({Text}, {}))
    ensures EvaluateSets(Selection({Text}, {})) == [[Textual]]
    ensures [Textual, Visual] !in EvaluateSets(Selection({Text}, {}))
  {
    TextOnlyMinimal();
    ExpandSingle(TextOnly, [Textual], []);
    assert SortByRank([Textual]) == [Textual];
  }

  const ImagesOnly := Selection({Image}, {})

  /** Which candidates of the universe cover the selection. */
  lemma ImagesOnlyVerdicts()
    ensures var test := CoversSelection(ImagesOnly);
      !Passes(test, AllCandidates[0]) && Passes(test, AllCandidates[1]) && !Passes(test, AllCandidates[2])
      && Passes(test, AllCandidates[3]) && !Passes(test, AllCandidates[4])
      && Passes(test, AllCandidates[5]) && Passes(test, AllCandidates[6])
  {
  }

  lemma ImagesOnlyCovered()
    ensures Covered(ImagesOnly) == [[Visual], [Textual, Visual], [Visual, Auditory], [Textual, Visual, Auditory]]
  {
    var test := CoversSelection(ImagesOnly);
    var u := AllCandidates;
    ImagesOnlyVerdicts();
    assert Filter(test, u[6..]) == [u[6]];
    assert Filter(test, u[5..]) == [u[5], u[6]];
    assert Filter(test, u[4..]) == [u[5], u[6]];
    assert Filter(test, u[3..]) == [u[3], u[5], u[6]];
    assert Filter(test, u[2..]) == [u[3], u[5], u[6]];
    assert Filter(test, u[1..]) == [u[1], u[3], u[5], u[6]];
  }

  lemma ImagesOnlyMinimal()
    ensures Minimal(ImagesOnly) == [[Visual]]
  {
    ImagesOnlyCovered();
    SmallestFirst([Visual], [[Textual, Visual], [Visual, Auditory], [Textual, Visual, Auditory]]);
    assert [[Visual]] + [[Textual, Visual], [Visual, Auditory], [Textual, Visual, Auditory]] == Covered(ImagesOnly);
  }

  /** Images without alternative text: sight is the only sufficient mode,
      and no extension is offered. */
  lemma ImagesOnlyReport()
    ensures EvaluateSets(Selection({Image}, {})) == [[Visual]]
  {
    ImagesOnlyMinimal();
    ExpandSingle(ImagesOnly, [Visual], []);
    assert SortByRank([Visual]) == [Visual];
  }
}
