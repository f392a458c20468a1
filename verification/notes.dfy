/** Community notes on the client: the saved-note override applied to every loaded list
    (`mergeSavedNotes`, app.js:240-246) and the note form's submit handler
    (app.js:217-231). The browser store is passed in and returned as a plain map from
    parish id to its saved note list. */
module Notes {
  import opened Text
  import opened Parishes

  type Store = map<string, seq<Note>>

  /** `stored[parish.id]?.length` is truthy: a non-empty list is saved for this id. */
  predicate HasSaved(stored: Store, id: string) {
    id in stored && |stored[id]| > 0
  }

  /** The notes a parish shows once the store has been consulted. */
  function NotesAfterMerge(p: Parish, stored: Store): (notes: seq<Note>)
    ensures notes == p.communityNotes || (p.id in stored && notes == stored[p.id])
    ensures |notes| == 0 ==> |p.communityNotes| == 0
  {
    if HasSaved(stored, p.id) then stored[p.id] else p.communityNotes
  }

  /** `mergeSavedNotes`: a saved non-empty list replaces a parish's notes; nothing else changes. */
  function MergeSavedNotes(parishes: seq<Parish>, stored: Store): (r: seq<Parish>)
    ensures |r| == |parishes|
    ensures forall i :: 0 <= i < |r| ==>
      r[i] == parishes[i].(communityNotes := r[i].communityNotes)
    ensures forall i :: 0 <= i < |r| ==>
      (HasSaved(stored, parishes[i].id) ==> r[i].communityNotes == stored[parishes[i].id])
    ensures forall i :: 0 <= i < |r| ==>
      (!HasSaved(stored, parishes[i].id) ==> r[i].communityNotes == parishes[i].communityNotes)
  {
    seq(|parishes|, i requires 0 <= i < |parishes| =>
      parishes[i].(communityNotes := NotesAfterMerge(parishes[i], stored)))
  }

  /** An empty store leaves every parish as it was. */
  lemma MergeWithEmptyStore(parishes: seq<Parish>)
    ensures MergeSavedNotes(parishes, map[]) == parishes
  {
  }

  /** Merging twice with the same store is merging once: the saved list replaces rather
      than extends the notes. */
  lemma MergeIdempotent(parishes: seq<Parish>, stored: Store)
    ensures MergeSavedNotes(MergeSavedNotes(parishes, stored), stored) == MergeSavedNotes(parishes, stored)
  {
    var once := MergeSavedNotes(parishes, stored);
    var twice := MergeSavedNotes(once, stored);
    forall i | 0 <= i < |once| ensures twice[i] == once[i] {
      assert once[i].id == parishes[i].id;
    }
  }

  /** What the submit handler leads to. */
  datatype Submission =
    | Rejected
    | Accepted(parish: Parish, stored: Store)

  /** The handler's guard: a non-blank comment and a rating from 1 to 5. */
  predicate Acceptable(rawComment: string, rating: real) {
    !AllSpace(rawComment) && 1.0 <= rating <= 5.0
  }

  /** The note form's submit handler. `rawComment` is the form's comment field ("" when
      missing) and `stored` the map read back from browser storage. An accepted note is
      appended to the parish's notes, and the whole list is saved under the parish id. */
  function SubmitNote(p: Parish, stored: Store, rawComment: string, rating: real): (r: Submission)
    ensures r.Rejected? <==> !Acceptable(rawComment, rating)
    ensures r.Accepted? ==>
      && |r.parish.communityNotes| == |p.communityNotes| + 1
      && r.parish.communityNotes[..|p.communityNotes|] == p.communityNotes
      && r.parish.communityNotes[|p.communityNotes|] == Note(rating, Trim(rawComment))
      && r.parish == p.(communityNotes := r.parish.communityNotes)
    ensures r.Accepted? ==>
      && r.stored.Keys == stored.Keys + {p.id}
      && r.stored[p.id] == r.parish.communityNotes
      && (forall id :: id in stored && id != p.id ==> r.stored[id] == stored[id])
  {
    var comment := Trim(rawComment);
    if comment == [] || rating < 1.0 || rating > 5.0 then Rejected
    else
      var notes := p.communityNotes + [Note(rating, comment)];
      Accepted(p.(communityNotes := notes), stored[p.id := notes])
  }

  /** A blank comment, or a rating of 0 or 6, is rejected and never reaches the list. */
  lemma RejectedExamples(p: Parish, stored: Store)
    ensures SubmitNote(p, stored, " \t\n ", 4.0) == Rejected
    ensures SubmitNote(p, stored, "Reverent.", 0.0) == Rejected
    ensures SubmitNote(p, stored, "Reverent.", 6.0) == Rejected
  {
    assert AllSpace(" \t\n ");
  }

  /** An accepted note survives a reload: merging the updated store into any list loaded
      later gives every parish with that id the list ending in the new note, and every
      other parish the notes it would have had before the submission. */
  lemma SubmitThenReload(parishes: seq<Parish>, p: Parish, stored: Store, rawComment: string, rating: real)
    requires SubmitNote(p, stored, rawComment, rating).Accepted?
    ensures var r := SubmitNote(p, stored, rawComment, rating);
      forall i :: 0 <= i < |parishes| && parishes[i].id == p.id ==>
        MergeSavedNotes(parishes, r.stored)[i].communityNotes == r.parish.communityNotes
    ensures var r := SubmitNote(p, stored, rawComment, rating);
      forall i :: 0 <= i < |parishes| && parishes[i].id != p.id ==>
        MergeSavedNotes(parishes, r.stored)[i] == MergeSavedNotes(parishes, stored)[i]
  {
  }

  /** Accepted notes keep every rating in 1..5, so a parish whose notes were valid stays valid. */
  lemma SubmitKeepsRatingsValid(p: Parish, stored: Store, rawComment: string, rating: real)
    requires ValidRatings(p.communityNotes)
    ensures var r := SubmitNote(p, stored, rawComment, rating);
      r.Accepted? ==> ValidRatings(r.parish.communityNotes)
  {
  }
}
