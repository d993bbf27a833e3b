/** The decision `render` in ams.js makes before formatting anything: ask
    for a content format, say that nothing suffices, or list the sufficient
    combinations. The HTML itself is not modelled. */
module Report {
  import opened AccessModes
  import opened Coverage
  import opened Minimality
  import opened Expansion

  /** What the results panel shows. */
  datatype Outcome =
    | NoContentSelected
    | NoSufficientCombination
    | Combinations(sets: seq<seq<Mode>>)

  /** `render`: with no content format checked it stops before evaluating;
      otherwise it lists the result of `evaluateSets`, or reports that
      nothing was found when that result is empty. */
  function Render(sel: Selection): Outcome {
    if sel.content == {} then NoContentSelected
    else
      var sets := EvaluateSets(sel);
      if |sets| == 0 then NoSufficientCombination else Combinations(sets)
  }

  /** The prompt for a content format appears exactly when none is checked,
      and the "no sufficient combinations" message never appears: with some
      content checked, a non-empty list is always shown. */
  lemma RenderOutcome(sel: Selection)
    ensures Render(sel).NoContentSelected? <==> sel.content == {}
    ensures !Render(sel).NoSufficientCombination?
    ensures Render(sel).Combinations? <==> sel.content != {}
    ensures Render(sel).Combinations? ==> |Render(sel).sets| > 0
  {
    EvaluateSetsNonEmpty(sel);
  }

  /** Every combination shown is a canonical, non-empty list of modes that
      covers every checked content format, and none is shown twice. */
  lemma RenderedCombinationsSuffice(sel: Selection, k: seq<Mode>)
    requires Render(sel).Combinations?
    requires k in Render(sel).sets
    ensures Canonical(k) && k != []
    ensures CoversAll(sel, Elems(k))
    ensures Distinct(Render(sel).sets)
  {
    EvaluateSetsNonEmpty(sel);
    EvaluateSetsSound(sel, k);
    EvaluateSetsDistinct(sel);
  }
}
