/** The parish record the client ranks, filters and annotates, the user's weight
    settings, and the three built-in seed records (app.js:1-68). */
module Parishes {

  /** A community note: a rating (a JavaScript number, expected in 1..5) and a comment. */
  datatype Note = Note(rating: real, comment: string)

  /** One directory entry. Every JavaScript number is an exact real here. The free-text
      liturgy notes and web signals, which are only displayed, are not part of the model. */
  datatype Parish = Parish(
    id: string,
    name: string,
    location: string,
    zip: string,
    details: seq<string>,
    confessionHoursPerWeek: real,
    adorationHoursPerWeek: real,
    reverentImageSignals: real,
    onlineReviewScore: real,
    communityNotes: seq<Note>)

  /** The three slider values read by the page at render time. */
  datatype Weights = Weights(confessionWeight: real, adorationWeight: real, reviewWeight: real)

  /** Every rating in `notes` is at least zero. */
  predicate NonNegativeRatings(notes: seq<Note>) {
    forall i :: 0 <= i < |notes| ==> notes[i].rating >= 0.0
  }

  /** Every rating in `notes` lies in 1..5, as the note form enforces. */
  predicate ValidRatings(notes: seq<Note>) {
    forall i :: 0 <= i < |notes| ==> 1.0 <= notes[i].rating <= 5.0
  }

  /** All numeric signals of the parish are non-negative. */
  predicate NonNegativeSignals(p: Parish) {
    && p.confessionHoursPerWeek >= 0.0
    && p.adorationHoursPerWeek >= 0.0
    && p.reverentImageSignals >= 0.0
    && p.onlineReviewScore >= 0.0
    && NonNegativeRatings(p.communityNotes)
  }

  predicate NonNegativeWeights(w: Weights) {
    w.confessionWeight >= 0.0 && w.adorationWeight >= 0.0 && w.reviewWeight >= 0.0
  }

  function StJohnVianney(): Parish {
    Parish(
      "st-john-vianney", "St. John Vianney Parish", "Dallas, TX", "75230",
      ["latin", "ad-orientem", "tongue", "altar-rail"],
      8.0, 30.0, 4.0, 4.6,
      [Note(5.0, "Very prayerful atmosphere before and after Mass."),
       Note(4.0, "Music supports worship instead of performance.")])
  }

  function HolyTrinity(): Parish {
    Parish(
      "holy-trinity", "Holy Trinity Catholic Church", "Irving, TX", "75039",
      ["tongue"],
      4.0, 12.0, 3.0, 4.2,
      [Note(4.0, "Confession lines are steady and priests are available.")])
  }

  function OurLadyOfTheAngels(): Parish {
    Parish(
      "our-lady-angel", "Our Lady of the Angels", "Plano, TX", "75074",
      ["latin"],
      2.0, 6.0, 2.0, 3.8,
      [Note(3.0, "Good parish, but reverence can vary by Mass time.")])
  }

  /** The fallback data set used when the parish endpoint is unavailable. */
  function SeedParishes(): seq<Parish> {
    [StJohnVianney(), HolyTrinity(), OurLadyOfTheAngels()]
  }
}
