# accessModeSufficient evaluator, modelled in Dafny

`ams.js` is a small web form that helps a publisher write the schema.org
`accessModeSufficient` metadata of a publication. The publisher checks the
content formats the publication holds (text, images, audio, video) and the
accommodations it declares (alternative text, audio transcript, captions,
descriptive transcript, audio description). The function `evaluateSets` then
lists every combination of access modes (textual, visual, auditory) that is
sufficient to perceive all of that content.

It works in three stages (coverage, minimality, expansion). The model gives each stage a module, plus one for the shared ordering helpers, one for `render`'s decision and one for worked scenarios:

- `AccessModes` (`modes.dfy`): the three modes, the canonical order `ORDER`,
  `sortSetArray` and `isProperSubset`. A JavaScript `Set` of modes is a
  duplicate-free `seq<Mode>` in insertion order.
- `Coverage` (`coverage.dfy`): `coversAll`, the test of whether a candidate
  combination perceives every checked format, with its early returns in
  the order of `ams.js`. An independent hitting-set reading of it (one perception
  obligation per format, two for video) is its reference partner.
- `Minimality` (`minimal.dfy`): the fixed universe `allCandidates` of the
  seven non-empty combinations, the covering ones (`covered`) and the minimal
  ones (`minimal`), both as the `filter` calls of `ams.js`.
- `Expansion` (`expansion.dfy`): the `forEach` loop that records each minimal
  set and its guarded single-mode extensions into a `Set` of JSON keys. The
  key of a list is its sorted copy. The `Set` of keys is a duplicate-free
  `seq` that only ever appends.
- `Report` (`report.dfy`): the decision `render` makes before it formats
  anything.
- `Scenarios` (`scenarios.dfy`): concrete selections whose complete output
  the code fixes.

`getState()` reads the form. In the model it becomes a parameter: a
`Selection` with the set of checked formats and the set of checked
accommodations. Every combination of flags is accepted.

The functions that compute, and the code each one models (their properties
are stated by the lemmas in the table below):

- `AccessModes.Rank`: `ORDER.indexOf` (ams.js:71, 74).
- `AccessModes.SortByRank`: `sortSetArray` (ams.js:73-75).
- `AccessModes.IsProperSubset`: `isProperSubset` (ams.js:145-149).
- `Coverage.CoversAll`: `coversAll` (ams.js:91-130).
- `Minimality.AllCandidates`: `allCandidates` (ams.js:132-140).
- `Minimality.Filter`: `Array.prototype.filter` with the callbacks of ams.js:142 and 151-153.
- `Minimality.Covered`: `covered` (ams.js:142).
- `Minimality.Minimal`: `minimal` (ams.js:151-153).
- `Expansion.Offered`: the flag pre-checks in front of each extension (ams.js:161, 165, 169).
- `Expansion.Record`: `expansions.add` on the `Set` of keys (ams.js:158, 163, 167, 171).
- `Expansion.Extend`: one guarded extension (ams.js:161-172).
- `Expansion.ExpandOne`: the body of `minimal.forEach` (ams.js:156-173).
- `Expansion.ExpandAll`: the `forEach` over the minimal sets (ams.js:156-173).
- `Expansion.EvaluateSets`: `evaluateSets` (ams.js:77-176).
- `Report.Render`: the decision in `render` (ams.js:185-201).

## Model

| member | source | states |
|---|---|---|
| AccessModes.Rank | ams.js:71 | Each mode's position in `ORDER` lies inside `ORDER` and names that mode. Different modes have different positions. |
| AccessModes.SortByRankSpec | ams.js:73-75 | `sortSetArray` returns a permutation of its argument that is sorted by position in `ORDER`. |
| AccessModes.SortedKeyIsListing | ams.js:73-75 | Sorting a duplicate-free list gives the canonical listing of its set of modes. So the key does not depend on insertion order. |
| AccessModes.SameKeyIffSameSet | ams.js:158 | Two duplicate-free lists get the same key exactly when they hold the same modes. So de-duplicating by key is de-duplicating by set. |
| AccessModes.ProperSubsetIffStrictInclusion | ams.js:145-149 | On duplicate-free lists, `isProperSubset(a, b)` (a size check, then a membership loop) holds exactly when the modes of `a` are a strict subset of the modes of `b`. |
| Coverage.CoversAllIffHitsObligations | ams.js:91-130 | `coversAll` holds exactly when the candidate hits every perception obligation: text needs textual; images need visual, or textual with alt text; audio needs auditory, or textual with a transcript; video needs both its audio track and its visual track covered. |
| Coverage.CoversAllMonotone | ams.js:91-130 | Adding modes to a covering candidate never breaks coverage. |
| Coverage.AllModesCover | ams.js:91-130 | The full triple covers every selection, whatever is declared. |
| Coverage.EmptyCandidateCoversOnlyNoContent | ams.js:97-129 | The empty combination covers exactly when no format is checked. With no format checked, every combination covers, because control falls through to `return true`. |
| Minimality.FilterSpec | ams.js:142 | `filter` keeps exactly the elements that pass its test, never adds any, and keeps a duplicate-free list duplicate-free. |
| Minimality.FilterKeepsOrder | ams.js:142-153 | `filter` keeps the relative order of the elements it keeps: any two of them occur in its input in the same order. |
| Minimality.AllCandidatesWellFormed | ams.js:132-140 | The universe has seven members. They are pairwise different, canonical, duplicate-free and non-empty. |
| Minimality.ListingInUniverse | ams.js:132-140 | A set of modes is non-empty exactly when its canonical listing is in the universe. So the universe enumerates every non-empty combination. |
| Minimality.CoveredSpec | ams.js:142 | `covered` holds exactly the universe members that satisfy `coversAll`, each once. It always holds the full triple. |
| Minimality.MinimalSpec | ams.js:151-153 | `minimal` holds exactly the covered candidates with no other covered candidate that is a proper subset, each once. |
| Minimality.MinimalInUniverseOrder | ams.js:132-153 | `covered` and `minimal` list their candidates in the order of `allCandidates`. |
| Minimality.MinimalIffNoSmallerCover | ams.js:145-153 | A candidate is minimal exactly when it is covered and no covered candidate has a strict subset of its modes. |
| Minimality.MinimalIsSmallestCover | ams.js:132-153 | A candidate is minimal exactly when it is in the universe, covers, and no non-empty strict subset of its modes covers. |
| Minimality.MinimalIsAntichain | ams.js:151-153 | No minimal set is a strict subset of another. Different minimal sets hold different modes. |
| Minimality.CoveredContainsMinimal | ams.js:151-153 | Every covered candidate contains the modes of some minimal set. |
| Minimality.MinimalNonEmpty | ams.js:139-153 | There is always at least one minimal set. |
| Minimality.NoContentCoversUniverse | ams.js:129-142 | With no format checked, `covered` is the whole universe, in universe order. |
| Minimality.MinimalOfUniverse | ams.js:145-153 | When every candidate is covered, the minimal sets are the three single modes. |
| Minimality.NoContentMinimalAreSingletons | ams.js:129-153 | With no format checked, `minimal` is `[[textual], [visual], [auditory]]`. |
| Expansion.RecordGrows | ams.js:158 | `Set.prototype.add` keeps every key already present in place and adds the new key at the end only when it is absent. |
| Expansion.ExpandOneGrows | ams.js:156-173 | Expanding one minimal set keeps every key already recorded in place and records nothing twice. When its own key is new, that key comes next. |
| Expansion.ExpandAllGrows | ams.js:156-173 | The whole `forEach` over the minimal sets keeps every recorded key in place and records nothing twice. |
| Expansion.KeyIsCanonicalListOfModes | ams.js:158 | The key of a duplicate-free list is the one canonical list with the same modes. |
| Expansion.ExtendEmits | ams.js:161-172 | One guarded extension adds a key exactly when the mode is missing, its flag pre-check passes, and the extended set covers. The key added is the canonical list of that extended set. |
| Expansion.ExpandOneEmits | ams.js:157-172 | One minimal set adds exactly the canonical lists of itself and of its guarded, covering single-mode extensions. |
| Expansion.EvaluateSetsSpec | ams.js:155-175 | A list is in the result exactly when it is canonical and names a minimal set, or a minimal set plus one missing mode whose pre-check passes and that still covers. |
| Expansion.RecheckNeverRejects | ams.js:161-171 | For a covering base, the `coversAll` re-check on an extension never rejects one that passed the flag pre-check. |
| Expansion.EvaluateSetsShape | ams.js:155-175 | The result in terms of the flags alone: each reported set is a minimal set, or a minimal set plus one missing mode. Visual is added only with images or video, auditory only with audio or video, and textual only with text, alt text, a transcript or a descriptive transcript. Every such set is reported. |
| Expansion.EvaluateSetsSound | ams.js:142-175 | Every reported list is non-empty, sorted in `ORDER` with no repeated mode, and covers the selection. |
| Expansion.MinimalSetsReported | ams.js:156-158 | Every minimal set is reported, under its key. |
| Expansion.EvaluateSetsDistinct | ams.js:155-175 | No list is reported twice, and no two reported lists hold the same modes. |
| Expansion.EvaluateSetsNonEmpty | ams.js:155-175 | The result is never empty. It opens with the key of the first minimal set. |
| Expansion.ExpandAllKeepsBaseOrder | ams.js:156-173 | When no base holds all the modes of an earlier base, the bases' keys appear in the result in the bases' own order. |
| Expansion.MinimalSetsInOrder | ams.js:132-175 | For two minimal sets in `minimal` order, the first comes before the second in `allCandidates`, and its key comes before the second's key in the result. |
| Expansion.ExpandAllFollowsBases | ams.js:156-173 | Every key the `forEach` adds comes at or after the key of a base that produces it, because each base records its own key before its extensions. |
| Expansion.ExtensionsFollowTheirBase | ams.js:155-175 | Every reported combination comes at or after the key of some minimal set that produces it: the set itself, or that set plus one guarded, covering mode. |
| Report.RenderOutcome | ams.js:185-201 | The "select a format" message appears exactly when no format is checked. "No sufficient combinations found" never appears. Otherwise a non-empty list is shown. |
| Report.RenderedCombinationsSuffice | ams.js:193-209 | Every listed combination is canonical, non-empty and covers the selection, and none is listed twice. |
| Scenarios.ImagesWithAltTextReport | ams.js:91-175 | Images with alt text have minimal sets `[[textual], [visual]]`. The result is `[[textual], [textual, visual], [visual]]`. |
| Scenarios.VideoOnlyReport | ams.js:91-175 | Video with no accommodation gives `[[visual, auditory]]`. |
| Scenarios.VideoWithTranscriptsReport | ams.js:91-175 | Video with captions and a descriptive transcript has `[textual]` among its minimal sets, which are `[[textual], [visual]]`. The result is `[[textual], [textual, visual], [textual, auditory], [visual], [visual, auditory]]`. |
| Scenarios.TextOnlyGuardsFilter | ams.js:161-172 | For text alone, `[textual, visual]` covers but is not reported. The flag pre-checks really filter. The result is `[[textual]]`. |
| Scenarios.ImagesOnlyReport | ams.js:91-175 | Images with no alt text give `[[visual]]`. |

## Left out

- `getState`, `updateAltCheckboxStates`, `toggleCtrl`, `blockClick`, `blockKey` and the event listeners (ams.js:1-68, 232-257) are browser I/O. `getState` becomes the `Selection` parameter. `toggleCtrl` clears accommodations that the checked formats make irrelevant; the model does not rely on that and accepts any flag combination.
- The HTML that `render` builds and the show/hide of the copy buttons (ams.js:179-213) are presentation. Only the three-way decision is modelled, in `Report.Render`.
- `copyToClipboard` (ams.js:215-229) uses the asynchronous clipboard API and timers.
- The `JSON.stringify`/`JSON.parse` round trip (ams.js:158, 175) is not modelled as text. A key is the sorted list itself. Two keys are equal as strings exactly when the sorted lists are equal, because mode names are fixed strings without separators.
- The mode names are the constructors of `Mode`, not the strings `'textual'`, `'visual'` and `'auditory'`.
- `other !== set` at ams.js:152 compares object identity. The model compares values. The seven members of the universe are pairwise different values (`Minimality.AllCandidatesWellFormed`), so both tests agree.
- `Array.prototype.sort` is modelled as an insertion sort. Positions in `ORDER` are distinct, so every correct sort, stable or not, gives the same list.
- Expansion.MinimalSetsInOrder: states the relative order of the minimal sets only. `Expansion.ExtensionsFollowTheirBase` adds that each combination comes at or after the key of a minimal set that produces it. Two facts are not proved by a general lemma: that the extensions of one minimal set come in visual, auditory, textual order, and that each minimal set's surviving extensions come before the next minimal set's key. Both are the shape of `Expansion.ExpandOne` and `Expansion.ExpandAll` and are shown on concrete selections in `Scenarios`.

## Notes on the code

- For images with alt text the code gives `[["textual"], ["textual","visual"], ["visual"]]`. `allCandidates` lists `[textual]` before `[visual]`, and the extension of `[textual]` with visual is recorded before `[visual]` is reached (`Scenarios.ImagesWithAltTextReport`).
- `evaluateSets` never returns an empty list: the full triple always covers, so some set is always minimal (`Expansion.EvaluateSetsNonEmpty`). The "No sufficient combinations found" branch of `render` is therefore unreachable (`Report.RenderOutcome`).
- The `coversAll` re-check on each extension is redundant. An extension of a covering set covers by monotonicity (`Expansion.RecheckNeverRejects`). This is harmless, not a defect.
