/**
 * The list screen's logic without its rendering: the favorites strip, the
 * search filter, the grouping by date, the three-favorites policy of the
 * favorite button, and the exit-confirmation dialog flag.
 */
module Ui {
  import opened Model
  import opened Collections
  import opened Text
  import Data

  // ---------------------------------------------------------------------------
  // Favorites strip
  // ---------------------------------------------------------------------------

  /** The predicate `it.id in favorites`. */
  function InFavorites(favorites: set<string>): Session -> bool
  {
    (s: Session) => s.id in favorites
  }

  /** `sessions.filter { it.id in favorites }`: the sessions shown in the favorites strip. */
  function FavoriteSessions(sessions: seq<Session>, favorites: set<string>): (r: seq<Session>)
    ensures forall s :: s in r <==> s in sessions && s.id in favorites
  {
    Filter(InFavorites(favorites), sessions)
  }

  /**
   * The strip is exactly the favorite sessions in list order: a subsequence
   * of the list that keeps every occurrence of a session whose id is a
   * favorite and no other session.
   */
  lemma FavoriteStripExact(sessions: seq<Session>, favorites: set<string>)
    ensures IsSubsequence(FavoriteSessions(sessions, favorites), sessions)
    ensures forall s :: multiset(FavoriteSessions(sessions, favorites))[s] ==
                        if s.id in favorites then multiset(sessions)[s] else 0
  {
    FilterIsSubsequence(InFavorites(favorites), sessions);
  }

  // ---------------------------------------------------------------------------
  // Search filter and grouping by date
  // ---------------------------------------------------------------------------

  /**
   * A session matches the search text when the text is empty, or when its
   * description or its speaker contains the text, ignoring case.
   */
  predicate MatchesSearch(searchText: string, s: Session)
  {
    |searchText| == 0 ||
    ContainsIgnoreCase(s.description, searchText) ||
    ContainsIgnoreCase(s.speaker, searchText)
  }

  function Matching(searchText: string): Session -> bool
  {
    (s: Session) => MatchesSearch(searchText, s)
  }

  /** The sessions the list shows for this search text. */
  function SearchResults(sessions: seq<Session>, searchText: string): (r: seq<Session>)
    ensures forall s :: s in r <==> s in sessions && MatchesSearch(searchText, s)
  {
    Filter(Matching(searchText), sessions)
  }

  /** With an empty search text every session is shown, in list order. */
  lemma EmptySearchKeepsAll(sessions: seq<Session>)
    ensures SearchResults(sessions, "") == sessions
  {
    FilterKeepsAll(Matching(""), sessions);
  }

  /**
   * With a non-empty text, exactly the sessions whose description or speaker
   * holds the text at some position, ignoring case, are kept, every
   * occurrence of them, in list order.
   */
  lemma SearchResultsExact(sessions: seq<Session>, searchText: string)
    requires |searchText| > 0
    ensures IsSubsequence(SearchResults(sessions, searchText), sessions)
    ensures forall s :: multiset(SearchResults(sessions, searchText))[s] ==
                        if OccursIgnoreCase(s.description, searchText) || OccursIgnoreCase(s.speaker, searchText)
                        then multiset(sessions)[s] else 0
  {
    FilterIsSubsequence(Matching(searchText), sessions);
    forall s: Session
      ensures MatchesSearch(searchText, s) <==>
        OccursIgnoreCase(s.description, searchText) || OccursIgnoreCase(s.speaker, searchText)
    {
      ContainsIgnoreCaseSpec(s.description, searchText);
      ContainsIgnoreCaseSpec(s.speaker, searchText);
    }
  }

  /** Typing the search text in upper case shows the same sessions. */
  lemma SearchIgnoresCase(sessions: seq<Session>, searchText: string)
    ensures SearchResults(sessions, UpperAll(searchText)) == SearchResults(sessions, searchText)
  {
    forall s | s in sessions
      ensures Matching(UpperAll(searchText))(s) == Matching(searchText)(s)
    {
      ContainsIgnoresCaseOfQuery(s.description, searchText);
      ContainsIgnoresCaseOfQuery(s.speaker, searchText);
    }
    FilterCongruent(Matching(UpperAll(searchText)), Matching(searchText), sessions);
  }

  /** Upper-casing a session's description and speaker does not change whether it matches. */
  lemma MatchesSearchIgnoresCaseOfSession(searchText: string, s: Session)
    ensures MatchesSearch(searchText, s.(description := UpperAll(s.description), speaker := UpperAll(s.speaker)))
        == MatchesSearch(searchText, s)
  {
    ContainsIgnoresCaseOfText(s.description, searchText);
    ContainsIgnoresCaseOfText(s.speaker, searchText);
  }

  /** The key of the date grouping. */
  function DateOf(s: Session): string
  {
    s.date
  }

  /**
   * `sessions.filter { ... }.groupBy { it.date }`: the dated sections of the
   * list, in the order the list iterates them.
   */
  function SessionsByDate(sessions: seq<Session>, searchText: string): Groups<string, Session>
  {
    GroupBy(SearchResults(sessions, searchText), DateOf)
  }

  /**
   * One section per distinct date of the shown sessions, in the order of each
   * date's first shown session; each section holds exactly the shown
   * sessions of that date, in list order; together they hold every shown
   * session once.
   */
  lemma SessionsByDateSpec(sessions: seq<Session>, searchText: string)
    ensures IsGroupingOf(SessionsByDate(sessions, searchText), SearchResults(sessions, searchText), DateOf)
    ensures TotalSize(SessionsByDate(sessions, searchText)) == |SearchResults(sessions, searchText)|
  {
    GroupBySpec(SearchResults(sessions, searchText), DateOf);
  }

  // ---------------------------------------------------------------------------
  // Favorite button policy
  // ---------------------------------------------------------------------------

  /** At most this many favorites can be added through the list screen. */
  const FavoritesCap := 3

  /** The snackbar text shown when an addition is refused. */
  const FavoriteError := "Не удалось добавить сессию в избранное"

  /** `favorites.size < 3 || isFavorite`: the toggle reaches the store. */
  predicate ToggleAllowed(favorites: set<string>, id: string)
  {
    |favorites| < FavoritesCap || id in favorites
  }

  /** The favorites after the favorite button of session id is pressed. */
  function PolicyToggle(favorites: set<string>, id: string): (r: set<string>)
    ensures id in favorites ==> r == favorites - {id}
    ensures id !in favorites && |favorites| < FavoritesCap ==> r == favorites + {id}
    ensures id !in favorites && |favorites| >= FavoritesCap ==> r == favorites
    ensures |favorites| <= FavoritesCap ==> |r| <= FavoritesCap
  {
    if ToggleAllowed(favorites, id) then Data.Toggle(favorites, id) else favorites
  }

  /** The favorites after the buttons of ids are pressed in turn. */
  function PolicyToggleEach(favorites: set<string>, ids: seq<string>): set<string>
    decreases |ids|
  {
    if ids == [] then favorites else PolicyToggleEach(PolicyToggle(favorites, ids[0]), ids[1..])
  }

  /**
   * When every change goes through the button and the set starts with at
   * most three ids, it never holds more than three.
   */
  lemma {:induction false} CapNeverExceeded(favorites: set<string>, ids: seq<string>)
    requires |favorites| <= FavoritesCap
    ensures |PolicyToggleEach(favorites, ids)| <= FavoritesCap
    decreases |ids|
  {
    if ids != [] {
      CapNeverExceeded(PolicyToggle(favorites, ids[0]), ids[1..]);
    }
  }

  // ---------------------------------------------------------------------------
  // Exit dialog
  // ---------------------------------------------------------------------------

  /** What can happen to the exit dialog: the back gesture, a tap outside it, its cancel button. */
  datatype DialogEvent = Back | DismissRequest | Cancel

  /** The dialog flag after one event: back flips it, the other two clear it. */
  function DialogStep(open: bool, e: DialogEvent): bool
  {
    match e
    case Back => !open
    case DismissRequest => false
    case Cancel => false
  }

  /** The dialog flag after the events, in order. */
  function DialogAfter(open: bool, events: seq<DialogEvent>): bool
  {
    if events == [] then open
    else DialogStep(DialogAfter(open, events[..|events| - 1]), events[|events| - 1])
  }

  /** The number of back gestures since the last dismiss or cancel. */
  function BacksSinceClose(events: seq<DialogEvent>): nat
  {
    if events == [] then 0
    else if events[|events| - 1] == Back then BacksSinceClose(events[..|events| - 1]) + 1
    else 0
  }

  /** The dialog was dismissed or cancelled at some point. */
  predicate EverClosed(events: seq<DialogEvent>)
  {
    exists i :: 0 <= i < |events| && events[i] != Back
  }

  /**
   * The dialog is open exactly when an odd number of back gestures came since
   * it was last closed (or, if it never was, since the start, counting from
   * its initial state).
   */
  lemma {:induction false} DialogAfterSpec(open: bool, events: seq<DialogEvent>)
    ensures DialogAfter(open, events) ==
      if EverClosed(events) then BacksSinceClose(events) % 2 == 1
      else open != (BacksSinceClose(events) % 2 == 1)
  {
    if events != [] {
      var pre := events[..|events| - 1];
      DialogAfterSpec(open, pre);
      assert forall i :: 0 <= i < |pre| ==> pre[i] == events[i];
      if EverClosed(pre) {
        var i :| 0 <= i < |pre| && pre[i] != Back;
        assert events[i] != Back;
      }
      if events[|events| - 1] != Back {
        assert EverClosed(events);
      }
    }
  }

  // ---------------------------------------------------------------------------
  // Screen state and event handlers
  // ---------------------------------------------------------------------------

  /** The state the list screen keeps besides what it reads from the store. */
  class MainScreen {
    const repository: Data.SessionRepository
    /** The search field's text. */
    var searchText: string
    /** The snackbar message; empty while no snackbar is shown. */
    var snackbarError: string
    /** Whether the exit-confirmation dialog is shown. */
    var finishDialog: bool

    /** The store holds at most three favorites. */
    ghost predicate Valid()
      reads this, repository
    {
      |repository.favorites| <= FavoritesCap
    }

    constructor(repository: Data.SessionRepository)
      requires |repository.favorites| <= FavoritesCap
      ensures this.repository == repository
      ensures searchText == "" && snackbarError == "" && !finishDialog
      ensures Valid()
    {
      this.repository := repository;
      searchText := "";
      snackbarError := "";
      finishDialog := false;
    }

    /** The search field's `onValueChange`. */
    method OnSearchTextChange(value: string)
      modifies this
      ensures searchText == value
      ensures snackbarError == old(snackbarError) && finishDialog == old(finishDialog)
    {
      searchText := value;
    }

    /**
     * The favorite button of session sessionId: toggles it in the store when
     * fewer than three favorites exist or it is already a favorite, and
     * otherwise leaves the store alone and sets the snackbar message.
     */
    method OnToggleFavorite(sessionId: string)
      modifies this, repository
      ensures repository.favorites == PolicyToggle(old(repository.favorites), sessionId)
      ensures snackbarError ==
        if ToggleAllowed(old(repository.favorites), sessionId) then old(snackbarError) else FavoriteError
      ensures searchText == old(searchText) && finishDialog == old(finishDialog)
      ensures old(Valid()) ==> Valid()
    {
      var favorites := repository.ObserveFavorites();
      var isFavorite := sessionId in favorites;
      if |favorites| < FavoritesCap || isFavorite {
        repository.ToggleFavorite(sessionId);
      } else {
        snackbarError := FavoriteError;
      }
    }

    /** The back gesture: shows the exit dialog, or hides it when shown. */
    method OnBack()
      modifies this
      ensures finishDialog == DialogStep(old(finishDialog), Back)
      ensures searchText == old(searchText) && snackbarError == old(snackbarError)
    {
      finishDialog := !finishDialog;
    }

    /** A tap outside the exit dialog. */
    method OnDismissRequest()
      modifies this
      ensures finishDialog == DialogStep(old(finishDialog), DismissRequest)
      ensures searchText == old(searchText) && snackbarError == old(snackbarError)
    {
      finishDialog := false;
    }

    /** The exit dialog's cancel button. */
    method OnCancel()
      modifies this
      ensures finishDialog == DialogStep(old(finishDialog), Cancel)
      ensures searchText == old(searchText) && snackbarError == old(snackbarError)
    {
      finishDialog := false;
    }
  }
}
