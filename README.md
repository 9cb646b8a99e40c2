# Podlodka conference schedule: the favorites store and the list screen's logic

This project models the non-visual core of a small Android app that shows a
conference schedule. It has two parts.

- **The session store** (`SessionRepository`). It holds a fixed list of
  sessions and a set of favorite session ids. The set starts empty, and
  `toggleFavorite` flips one id in or out of it. `getSession` finds the
  first session with an id and crashes when there is none.
- **The list screen's logic** (`MainScreen`):
  - the favorites strip, which filters the list by the favorites set;
  - the search filter, which matches the text against description or
    speaker, ignoring case;
  - the grouping of the matching sessions by date;
  - the favorite button's policy: an addition is refused while three
    favorites exist, and a removal is always allowed;
  - the exit-confirmation dialog flag.

Files:

- `collections.dfy` models the Kotlin standard-library `filter`, `find` and
  `groupBy` that the app calls. Each is a function, with lemmas that say
  exactly what it computes.
- `text.dfy` models `String.contains(other, ignoreCase = true)`.
- `session.dfy` holds the `Session` record.
- `session_repository.dfy` holds the store, as a class whose `favorites`
  field `ToggleFavorite` reassigns.
- `main_screen.dfy` holds the screen's list functions and the button
  policy. It also holds a class for the state that the screen's event
  handlers update: the search text, the snackbar message and the dialog
  flag.
- `scenarios.dfy` has two concrete walks through the screen: a search for
  "adv", and a fourth favorite being refused.

The session list is a constructor parameter of the store, because the
concrete list is not part of this model. Ids are not assumed to be unique,
since the code never checks that. Where uniqueness matters, it is an
explicit precondition (`Model.UniqueIds`).

## Model

| member | source | states |
|---|---|---|
| `Data.SessionRepository.constructor` | app/src/main/java/com/gmail/volkovskiyda/podlodka/data/SessionRepository.kt:9 | the favorites set is empty before any toggle, and the store keeps the list it was given |
| `Data.Toggle` | app/src/main/java/com/gmail/volkovskiyda/podlodka/data/SessionRepository.kt:15 | after a toggle, id is a favorite exactly when it was not before; no other id changes membership; the size goes down by one if id was a favorite and up by one otherwise |
| `Data.SessionRepository.ToggleFavorite` | app/src/main/java/com/gmail/volkovskiyda/podlodka/data/SessionRepository.kt:14-16 | copying the set, adding id and removing it again when the add reports it was present leaves the field equal to `Toggle` of the old set: only id's membership flips |
| `Data.ToggleTwice` | app/src/main/java/com/gmail/volkovskiyda/podlodka/data/SessionRepository.kt:15 | toggling the same id twice restores the original set |
| `Data.ToggleEachFresh` | app/src/main/java/com/gmail/volkovskiyda/podlodka/data/SessionRepository.kt:14-16 | the store applies no cap: toggling distinct ids that are not yet favorites adds every one of them |
| `Data.ToggleEachFreshSize` | app/src/main/java/com/gmail/volkovskiyda/podlodka/data/SessionRepository.kt:14-16 | each such toggle grows the set by one, so the size becomes the old size plus the number of ids |
| `Data.StoreExceedsCap` | app/src/main/java/com/gmail/volkovskiyda/podlodka/data/SessionRepository.kt:14-16 | four toggles of distinct ids starting from the empty set leave four favorites, which is past the screen's cap of three |
| `Collections.Find` | app/src/main/java/com/gmail/volkovskiyda/podlodka/data/SessionRepository.kt:11 | `find` gives None exactly when no element satisfies the predicate, and otherwise gives the element at the first position that does |
| `Data.FindSession` | app/src/main/java/com/gmail/volkovskiyda/podlodka/data/SessionRepository.kt:11 | the lookup finds nothing, which is the case where `requireNotNull` throws, exactly when no session in the list has the id; whatever it finds is a listed session with that id |
| `Data.SessionRepository.GetSession` | app/src/main/java/com/gmail/volkovskiyda/podlodka/data/SessionRepository.kt:11 | when some session has the id, the result has that id and is the first such session in list order |
| `Data.SessionRepository.GetSessionOfListed` | app/src/main/java/com/gmail/volkovskiyda/podlodka/data/SessionRepository.kt:11-12 | when ids are unique, looking up the id of any listed session gives back that session |
| `Data.SessionRepository.GetSessions` | app/src/main/java/com/gmail/volkovskiyda/podlodka/data/SessionRepository.kt:12 | returns the list the store was built with; the field is `const`, so every call returns the same list and no operation modifies it |
| `Data.SessionRepository.ObserveFavorites` | app/src/main/java/com/gmail/volkovskiyda/podlodka/data/SessionRepository.kt:13 | the value a subscriber first receives is the current favorites set |
| `Collections.Filter` | app/src/main/java/com/gmail/volkovskiyda/podlodka/ui/MainScreen.kt:95 | `filter` keeps an element exactly when it is in the list and satisfies the predicate; each kept value occurs as often as in the list, and a value that fails the predicate does not occur |
| `Collections.FilterIsSubsequence` | app/src/main/java/com/gmail/volkovskiyda/podlodka/ui/MainScreen.kt:95 | what `filter` keeps stays in list order, as a subsequence of the list |
| `Ui.FavoriteSessions` | app/src/main/java/com/gmail/volkovskiyda/podlodka/ui/MainScreen.kt:95 | a session is in the favorites strip exactly when it is in the list and its id is a favorite |
| `Ui.FavoriteStripExact` | app/src/main/java/com/gmail/volkovskiyda/podlodka/ui/MainScreen.kt:95 | the strip is a subsequence of the list that keeps every occurrence of each favorite session and nothing else, so it is the favorite sessions in original list order |
| `Text.IndexOfIgnoreCase` | app/src/main/java/com/gmail/volkovskiyda/podlodka/ui/MainScreen.kt:132-133 | the scan returns the first offset where the text occurs ignoring case, and returns -1 exactly when it occurs at no offset |
| `Text.ContainsIgnoreCase` | app/src/main/java/com/gmail/volkovskiyda/podlodka/ui/MainScreen.kt:132-133 | `contains(other, ignoreCase = true)`, as `indexOf` finding an offset; `Text.ContainsIgnoreCaseSpec` gives its contract (other occurs at some offset, ignoring case) |
| `Text.CharEqualsIgnoreCaseSpec` | app/src/main/java/com/gmail/volkovskiyda/podlodka/ui/MainScreen.kt:132-133 | what "ignoring case" means: two characters compare equal exactly when their lower-case forms are equal |
| `Text.ContainsIgnoreCaseSpec` | app/src/main/java/com/gmail/volkovskiyda/podlodka/ui/MainScreen.kt:132-133 | `contains(ignoreCase = true)` holds exactly when the text occurs at some offset with every character equal ignoring case |
| `Text.ContainsIgnoresCaseOfQuery` | app/src/main/java/com/gmail/volkovskiyda/podlodka/ui/MainScreen.kt:132-133 | upper-casing the searched-for text does not change whether it is contained |
| `Text.ContainsIgnoresCaseOfText` | app/src/main/java/com/gmail/volkovskiyda/podlodka/ui/MainScreen.kt:132-133 | upper-casing the text being searched does not change whether the query is contained |
| `Ui.SearchResults` | app/src/main/java/com/gmail/volkovskiyda/podlodka/ui/MainScreen.kt:130-133 | a session is shown exactly when it is in the list and the text is empty or its description or speaker contains the text, ignoring case |
| `Ui.MatchesSearch` | app/src/main/java/com/gmail/volkovskiyda/podlodka/ui/MainScreen.kt:131-133 | the filter's condition: empty text, or description or speaker contains the text ignoring case; `Ui.SearchResults` and `Ui.SearchResultsExact` state what filtering by it keeps |
| `Ui.MatchesSearchIgnoresCaseOfSession` | app/src/main/java/com/gmail/volkovskiyda/podlodka/ui/MainScreen.kt:132-133 | whether a session matches does not depend on the case of its description or speaker |
| `Ui.EmptySearchKeepsAll` | app/src/main/java/com/gmail/volkovskiyda/podlodka/ui/MainScreen.kt:131 | with empty search text the filter returns the whole list unchanged |
| `Ui.SearchResultsExact` | app/src/main/java/com/gmail/volkovskiyda/podlodka/ui/MainScreen.kt:130-133 | with non-empty text, the kept sessions are a subsequence of the list holding every occurrence of exactly the sessions whose description or speaker contains the text ignoring case, so relative order is kept |
| `Ui.SearchIgnoresCase` | app/src/main/java/com/gmail/volkovskiyda/podlodka/ui/MainScreen.kt:130-133 | typing the search text in upper case shows the same sessions |
| `Collections.AddToGroup` | app/src/main/java/com/gmail/volkovskiyda/podlodka/ui/MainScreen.kt:134 | one `groupBy` insertion: a new key gets a group `[x]` at the end, an existing key keeps every key in its place, and the number of grouped elements grows by one |
| `Collections.GroupBy` | app/src/main/java/com/gmail/volkovskiyda/podlodka/ui/MainScreen.kt:134 | `groupBy` as successive `getOrPut(key).add(x)` insertions in list order; `Collections.GroupBySpec` gives its contract |
| `Collections.GroupBySpec` | app/src/main/java/com/gmail/volkovskiyda/podlodka/ui/MainScreen.kt:134 | `groupBy` yields one group per distinct key, ordered by the key's first occurrence; each group is non-empty and equals the list filtered by its key; every element's key has a group; the group sizes sum to the list length |
| `Ui.SessionsByDate` | app/src/main/java/com/gmail/volkovskiyda/podlodka/ui/MainScreen.kt:130-134 | `sessions.filter { ... }.groupBy { it.date }`: the dated sections of the list; `Ui.SessionsByDateSpec` gives its contract |
| `Ui.SessionsByDateSpec` | app/src/main/java/com/gmail/volkovskiyda/podlodka/ui/MainScreen.kt:129-134 | the date sections have distinct dates in order of each date's first shown session; each section is exactly the shown sessions of its date, in order; the section sizes sum to the number of shown sessions |
| `Scenarios.SearchAdvancedScenario` | app/src/main/java/com/gmail/volkovskiyda/podlodka/ui/MainScreen.kt:129-134 | with sessions (Alice, "Intro") and (Bob, "Advanced") on "Day 1", searching "adv" shows only Bob's session, in a single "Day 1" section |
| `Ui.PolicyToggle` | app/src/main/java/com/gmail/volkovskiyda/podlodka/ui/MainScreen.kt:159-165 | pressing the button of a favorite always removes it, whatever the count; a non-favorite is added only while fewer than three favorites exist and is otherwise refused with no change; a set of at most three stays at most three |
| `Ui.CapNeverExceeded` | app/src/main/java/com/gmail/volkovskiyda/podlodka/ui/MainScreen.kt:159-165 | if every change goes through the button and the set starts with at most three ids, it never holds more than three |
| `Ui.MainScreen.OnToggleFavorite` | app/src/main/java/com/gmail/volkovskiyda/podlodka/ui/MainScreen.kt:159-165 | the handler leaves the store holding `PolicyToggle` of the old favorites. When the toggle is refused it sets the non-empty snackbar message, and otherwise it leaves the message alone. It changes nothing else, and it keeps the at-most-three invariant |
| `Ui.MainScreen.constructor` | app/src/main/java/com/gmail/volkovskiyda/podlodka/ui/MainScreen.kt:42-47 | the screen starts with an empty snackbar message, the dialog hidden and empty search text; over a store with at most three favorites (the store starts empty) it starts with the at-most-three invariant `Valid()` |
| `Ui.MainScreen.OnSearchTextChange` | app/src/main/java/com/gmail/volkovskiyda/podlodka/ui/MainScreen.kt:83 | typing replaces the search text and changes nothing else |
| `Ui.MainScreen.OnBack` | app/src/main/java/com/gmail/volkovskiyda/podlodka/ui/MainScreen.kt:49-51 | the back gesture flips the dialog flag |
| `Ui.MainScreen.OnDismissRequest` | app/src/main/java/com/gmail/volkovskiyda/podlodka/ui/MainScreen.kt:57 | a dismiss request hides the dialog, whatever it was before |
| `Ui.MainScreen.OnCancel` | app/src/main/java/com/gmail/volkovskiyda/podlodka/ui/MainScreen.kt:72 | the cancel button hides the dialog, whatever it was before |
| `Ui.DialogAfterSpec` | app/src/main/java/com/gmail/volkovskiyda/podlodka/ui/MainScreen.kt:49-72 | after any sequence of back, dismiss and cancel events, the dialog is shown exactly when an odd number of back gestures came since it was last closed. If it never was closed, the count runs from the start and is taken relative to the initial state |

## Left out

- The rendering is left out because it has no behaviour to state. That covers `FavoriteCard`, `SessionCard`, `SessionDetail`, layout, icons, theming, the section headers and the strip's "show only when non-empty" check.
- Image loading through Coil is a call into an external library.
- The snackbar's two-second auto-dismiss (app/src/main/java/com/gmail/volkovskiyda/podlodka/ui/MainScreen.kt:177-180) is a coroutine delay. The model only sets the message.
- The `Flow`/`StateFlow` subscription and `collectAsState` are reactive plumbing. `ObserveFavorites` gives the current value.
- `rememberSaveable` restoring the search text is framework state restoration.
- The exit dialog's confirm button calls the activity's `finish()`, which is Android lifecycle and is not modelled.
- Navigation (MainActivity.kt) is Android plumbing: routes, the `session/{id}` string and its argument declaration. So are the `navigateToSession` callbacks.
- Screen.kt has no logic.
- SessionScreen.kt is rendering plus a call to `getSession`, which is modelled. Its `"date, time"` string is display formatting.
- The app reads the favorites set as captured at the last recomposition. That can lag behind the store, and the model checks the policy against the current set instead.
- Text.CharEqualsIgnoreCase: case mapping covers ASCII letters only. Kotlin folds all of Unicode, which is not modelled.
- Text.Upper: ASCII only, as above.
- Text.Lower: ASCII only, as above.
- Data.SessionRepository.GetSession: a missing id throws in the app. Here it is a precondition, and `Data.FindSession` models the not-found outcome as `None`.
