/** The session record (the `model.Session` class of the app). */
module Model {

  /** One scheduled talk. Every field is display text. */
  datatype Session = Session(
    id: string,
    speaker: string,
    description: string,
    date: string,
    timeInterval: string,
    imageUrl: string)

  /** No two sessions of the list share an id (the app assumes this but never checks it). */
  predicate UniqueIds(sessions: seq<Session>)
  {
    forall i, j :: 0 <= i < j < |sessions| ==> sessions[i].id != sessions[j].id
  }
}
