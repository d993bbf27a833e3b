/** The coverage predicate of ams.js (`coversAll`): whether a candidate
    combination of access modes can perceive every selected content type,
    given the accommodations the publication declares. */
module Coverage {
  import opened AccessModes

  /** A content format the publication contains ('T', 'I', 'A', 'V'). */
  datatype Content = Text | Image | Audio | Video

  /** An accommodation the publication declares. */
  datatype Accommodation = AltText | AudioTranscript | Captions | DescTranscript | AudioDescription

  /** What the form hands to the evaluator: the checked content formats and
      the checked accommodations. Any combination is accepted, including ones
      the form would never produce. */
  datatype Selection = Selection(content: set<Content>, alts: set<Accommodation>)

  /** `coversAll(candidate)`, with its early returns kept in the order of `ams.js`:
      text needs textual; images need visual, or textual with alt text; audio
      needs auditory, or textual with a transcript; video needs its audio
      track and then its visual track covered. */
  predicate CoversAll(sel: Selection, candidate: set<Mode>) {
    var hasTextual := Textual in candidate;
    var hasVisual := Visual in candidate;
    var hasAuditory := Auditory in candidate;
    var altText := AltText in sel.alts;
    var transcript := AudioTranscript in sel.alts;
    var captions := Captions in sel.alts;
    var descTranscript := DescTranscript in sel.alts;
    var audioDescription := AudioDescription in sel.alts;
    if Text in sel.content && !hasTextual then false
    else if Image in sel.content && !(hasVisual || (altText && hasTextual)) then false
    else if Audio in sel.content && !(hasAuditory || (transcript && hasTextual)) then false
    else if Video in sel.content
      && !(hasAuditory || (captions && hasVisual) || (transcript && hasTextual) || (descTranscript && hasTextual))
    then false
    else if Video in sel.content
      && !(hasVisual || (descTranscript && hasTextual) || (audioDescription && hasAuditory))
    then false
    else true
  }

  /** The modes that can each, on their own, meet one perception obligation:
      the native mode of the format plus whatever the declared accommodations
      let substitute for it. */
  function Route(native: Mode, textual: bool, visual: bool, auditory: bool): (r: set<Mode>)
    ensures native in r
    ensures Textual in r <==> native == Textual || textual
    ensures Visual in r <==> native == Visual || visual
    ensures Auditory in r <==> native == Auditory || auditory
  {
    {native}
    + (if textual then {Textual} else {})
    + (if visual then {Visual} else {})
    + (if auditory then {Auditory} else {})
  }

  /** The perception obligations a selection imposes, one per content format
      and two for video (its audio track and its visual track). Each is the
      set of modes any one of which discharges it. */
  function Obligations(sel: Selection): (r: set<set<Mode>>)
    ensures forall ob :: ob in r ==> ob != {}
  {
    var altText := AltText in sel.alts;
    var transcript := AudioTranscript in sel.alts;
    var captions := Captions in sel.alts;
    var descTranscript := DescTranscript in sel.alts;
    var audioDescription := AudioDescription in sel.alts;
    (if Text in sel.content then {Route(Textual, false, false, false)} else {})
    + (if Image in sel.content then {Route(Visual, altText, false, false)} else {})
    + (if Audio in sel.content then {Route(Auditory, transcript, false, false)} else {})
    + (if Video in sel.content
       then {Route(Auditory, transcript || descTranscript, captions, false),
             Route(Visual, descTranscript, false, audioDescription)}
       else {})
  }

  /** A candidate hits an obligation when it holds one of its modes. */
  predicate Hits(candidate: set<Mode>, ob: set<Mode>) {
    ob * candidate != {}
  }

  /** `coversAll` is a hitting-set condition: a candidate covers the
      selection exactly when it hits every obligation the selection imposes. */
  lemma CoversAllIffHitsObligations(sel: Selection, candidate: set<Mode>)
    ensures CoversAll(sel, candidate) <==> forall ob :: ob in Obligations(sel) ==> Hits(candidate, ob)
  {
    var altText := AltText in sel.alts;
    var transcript := AudioTranscript in sel.alts;
    var captions := Captions in sel.alts;
    var descTranscript := DescTranscript in sel.alts;
    var audioDescription := AudioDescription in sel.alts;
    ObligationsByFormat(sel, candidate);
    HitsByMembers(candidate, Route(Textual, false, false, false));
    HitsByMembers(candidate, Route(Visual, altText, false, false));
    HitsByMembers(candidate, Route(Auditory, transcript, false, false));
    HitsByMembers(candidate, Route(Auditory, transcript || descTranscript, captions, false));
    HitsByMembers(candidate, Route(Visual, descTranscript, false, audioDescription));
  }

  /** Hitting every obligation, format by format. */
  lemma ObligationsByFormat(sel: Selection, candidate: set<Mode>)
    ensures (forall ob :: ob in Obligations(sel) ==> Hits(candidate, ob)) <==>
      (Text in sel.content ==> Hits(candidate, Route(Textual, false, false, false)))
      && (Image in sel.content ==> Hits(candidate, Route(Visual, AltText in sel.alts, false, false)))
      && (Audio in sel.content ==> Hits(candidate, Route(Auditory, AudioTranscript in sel.alts, false, false)))
      && (Video in sel.content ==>
            Hits(candidate, Route(Auditory, AudioTranscript in sel.alts || DescTranscript in sel.alts, Captions in sel.alts, false))
            && Hits(candidate, Route(Visual, DescTranscript in sel.alts, false, AudioDescription in sel.alts)))
  {
  }

  /** Hitting a set of modes, spelled out mode by mode. */
  lemma HitsByMembers(candidate: set<Mode>, ob: set<Mode>)
    ensures Hits(candidate, ob) <==>
      (Textual in ob && Textual in candidate)
      || (Visual in ob && Visual in candidate)
      || (Auditory in ob && Auditory in candidate)
  {
    if Hits(candidate, ob) {
      var m :| m in ob * candidate;
      match m
      case Textual =>
      case Visual =>
      case Auditory =>
    }
    if Textual in ob && Textual in candidate {
      assert Textual in ob * candidate;
    }
    if Visual in ob && Visual in candidate {
      assert Visual in ob * candidate;
    }
    if Auditory in ob && Auditory in candidate {
      assert Auditory in ob * candidate;
    }
  }

  /** Monotonicity: adding modes to a covering candidate never breaks
      coverage, since every clause of `coversAll` asks only that some mode be
      present. */
  lemma CoversAllMonotone(sel: Selection, small: set<Mode>, large: set<Mode>)
    requires small <= large
    requires CoversAll(sel, small)
    ensures CoversAll(sel, large)
  {
    CoversAllIffHitsObligations(sel, small);
    CoversAllIffHitsObligations(sel, large);
    forall ob | ob in Obligations(sel) ensures Hits(large, ob) {
      assert Hits(small, ob);
      assert ob * small <= ob * large;
    }
  }

  /** All three modes together cover every selection, whatever is declared. */
  lemma AllModesCover(sel: Selection)
    ensures CoversAll(sel, {Textual, Visual, Auditory})
  {
  }

  /** The empty combination covers a selection exactly when no content is
      selected; with no content, every combination covers it. */
  lemma EmptyCandidateCoversOnlyNoContent(sel: Selection)
    ensures CoversAll(sel, {}) <==> sel.content == {}
    ensures sel.content == {} ==> forall candidate :: CoversAll(sel, candidate)
  {
    if sel.content != {} {
      var c :| c in sel.content;
      match c
      case Text =>
      case Image =>
      case Audio =>
      case Video =>
    }
  }
}
