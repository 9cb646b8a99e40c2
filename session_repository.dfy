/**
 * The in-memory store: the fixed list of sessions and the set of favorite
 * session ids, which starts empty and changes only by toggling one id.
 */
module Data {
  import opened Model
  import opened Collections

  /** The favorites set after flipping the membership of id. */
  function Toggle(favorites: set<string>, id: string): (r: set<string>)
    ensures id in r <==> id !in favorites
    ensures forall x :: x != id ==> (x in r <==> x in favorites)
    ensures |r| == if id in favorites then |favorites| - 1 else |favorites| + 1
  {
    if id in favorites then favorites - {id} else favorites + {id}
  }

  /** Toggling the same id twice gives back the original set. */
  lemma ToggleTwice(favorites: set<string>, id: string)
    ensures Toggle(Toggle(favorites, id), id) == favorites
  {
  }

  /** The favorites set after toggling each id of ids in turn. */
  function ToggleEach(favorites: set<string>, ids: seq<string>): set<string>
    decreases |ids|
  {
    if ids == [] then favorites else ToggleEach(Toggle(favorites, ids[0]), ids[1..])
  }

  /** No id occurs twice in ids, and none is a favorite yet. */
  predicate FreshIds(favorites: set<string>, ids: seq<string>)
  {
    (forall i, j :: 0 <= i < j < |ids| ==> ids[i] != ids[j]) &&
    (forall i :: 0 <= i < |ids| ==> ids[i] !in favorites)
  }

  /** After toggling the first of some fresh ids, the rest are still fresh. */
  lemma FreshIdsTail(favorites: set<string>, ids: seq<string>)
    requires FreshIds(favorites, ids)
    requires ids != []
    ensures FreshIds(Toggle(favorites, ids[0]), ids[1..])
  {
  }

  /**
   * The store does not enforce any cap: toggling ids that are distinct and
   * not yet favorites adds every one of them.
   */
  lemma {:induction false} ToggleEachFresh(favorites: set<string>, ids: seq<string>)
    requires FreshIds(favorites, ids)
    ensures forall y :: y in ToggleEach(favorites, ids) <==> y in favorites || y in ids
    decreases |ids|
  {
    if ids != [] {
      FreshIdsTail(favorites, ids);
      var f := Toggle(favorites, ids[0]);
      ToggleEachFresh(f, ids[1..]);
      assert f == favorites + {ids[0]};
      assert ids == [ids[0]] + ids[1..];
    }
  }

  /** ... and so each toggle of a fresh id grows the set by one. */
  lemma {:induction false} ToggleEachFreshSize(favorites: set<string>, ids: seq<string>)
    requires FreshIds(favorites, ids)
    ensures |ToggleEach(favorites, ids)| == |favorites| + |ids|
    decreases |ids|
  {
    if ids != [] {
      FreshIdsTail(favorites, ids);
      ToggleEachFreshSize(Toggle(favorites, ids[0]), ids[1..]);
    }
  }

  /** Four toggles of distinct ids from the initial empty set leave four favorites. */
  lemma StoreExceedsCap()
    ensures |ToggleEach({}, ["1", "2", "3", "4"])| == 4
  {
    ToggleEachFreshSize({}, ["1", "2", "3", "4"]);
  }

  /** The predicate `it.id == id`, as a value that find can take. */
  function HasId(id: string): Session -> bool
  {
    (s: Session) => s.id == id
  }

  /** Some session of the list has this id. */
  predicate Listed(sessions: seq<Session>, id: string)
  {
    exists i :: 0 <= i < |sessions| && sessions[i].id == id
  }

  /** `sessions.find { it.id == id }`: None exactly when no session has the id. */
  function FindSession(sessions: seq<Session>, id: string): (r: Option<Session>)
    ensures r.None? <==> !Listed(sessions, id)
    ensures r.Some? ==> r.value.id == id && r.value in sessions
  {
    Find(HasId(id), sessions)
  }

  class SessionRepository {
    /** The fixed session list; `const`, so no operation can change it. */
    const sessions: seq<Session>
    /** The current value of the favorites state flow. */
    var favorites: set<string>

    constructor(sessions: seq<Session>)
      ensures this.sessions == sessions
      ensures favorites == {}
    {
      this.sessions := sessions;
      favorites := {};
    }

    /**
     * `requireNotNull(sessions.find { it.id == id })`: the first session in
     * list order with this id. A missing id throws, so callers must pass a
     * listed id.
     */
    function GetSession(id: string): (s: Session)
      requires Listed(sessions, id)
      ensures s.id == id
      ensures exists i :: 0 <= i < |sessions| && sessions[i] == s &&
                          forall j :: 0 <= j < i ==> sessions[j].id != id
    {
      Find(HasId(id), sessions).value
    }

    /** With unique ids, looking up a listed session's id gives that session. */
    lemma GetSessionOfListed(i: nat)
      requires UniqueIds(sessions)
      requires i < |sessions|
      ensures Listed(sessions, sessions[i].id)
      ensures GetSession(sessions[i].id) == sessions[i]
    {
    }

    /** The whole list, in its fixed order. */
    function GetSessions(): (r: seq<Session>)
      ensures r == sessions
    {
      sessions
    }

    /** The current favorites set, as a new subscriber of the flow first sees it. */
    function ObserveFavorites(): (r: set<string>)
      reads this
      ensures r == favorites
    {
      favorites
    }

    /**
     * Copies the set, adds id to the copy and, when it was already there,
     * removes it instead; then publishes the copy.
     */
    method ToggleFavorite(id: string)
      modifies this
      ensures favorites == Toggle(old(favorites), id)
      ensures id in favorites <==> id !in old(favorites)
      ensures forall x :: x != id ==> (x in favorites <==> x in old(favorites))
    {
      var copy := favorites;
      var added := id !in copy;
      copy := copy + {id};
      if !added {
        copy := copy - {id};
      }
      favorites := copy;
    }
  }
}
