/** Two concrete walks through the list screen with a two-session schedule. */
module Scenarios {
  import opened Model
  import opened Ui
  import Data

  const Alice := Session("1", "Alice", "Intro", "Day 1", "10:00 - 11:00", "alice.png")
  const Bob := Session("2", "Bob", "Advanced", "Day 1", "11:00 - 12:00", "bob.png")

  /** Alice's talk neither is "adv..." nor is given by someone whose name holds "adv". */
  lemma AliceDoesNotMatchAdv()
    ensures !MatchesSearch("adv", Alice)
  {
    var q := "adv";
    assert !Text.CharEqualsIgnoreCase('I', 'a') && !Text.CharEqualsIgnoreCase('n', 'a');
    assert !Text.CharEqualsIgnoreCase('t', 'a') && !Text.CharEqualsIgnoreCase('r', 'a');
    assert !Text.CharEqualsIgnoreCase('l', 'd') && !Text.CharEqualsIgnoreCase('l', 'a');
    assert !Text.CharEqualsIgnoreCase('i', 'a') && !Text.CharEqualsIgnoreCase('c', 'a');
    forall i | 0 <= i <= 5 ensures !Text.RegionMatchesIgnoreCase("Intro", i, q) {
      if i + 3 <= 5 {
        assert "Intro"[i + 0] in {'I', 'n', 't'} && q[0] == 'a';
        assert !Text.CharEqualsIgnoreCase("Intro"[i + 0], q[0]);
      }
    }
    forall i | 0 <= i <= 5 ensures !Text.RegionMatchesIgnoreCase("Alice", i, q) {
      if i == 0 {
        assert !Text.CharEqualsIgnoreCase("Alice"[i + 1], q[1]);
      } else if i + 3 <= 5 {
        assert "Alice"[i + 0] in {'l', 'i'} && q[0] == 'a';
        assert !Text.CharEqualsIgnoreCase("Alice"[i + 0], q[0]);
      }
    }
    Text.ContainsIgnoreCaseSpec("Intro", q);
    Text.ContainsIgnoreCaseSpec("Alice", q);
  }

  /** Bob's talk "Advanced" starts with "adv", ignoring case. */
  lemma BobMatchesAdv()
    ensures MatchesSearch("adv", Bob)
  {
    assert Text.CharEqualsIgnoreCase('A', 'a');
    assert Text.RegionMatchesIgnoreCase("Advanced", 0, "adv");
    Text.ContainsIgnoreCaseSpec("Advanced", "adv");
  }

  /** Searching "adv" keeps only Bob's session, under the one date "Day 1". */
  lemma SearchAdvancedScenario()
    ensures SearchResults([Alice, Bob], "adv") == [Bob]
    ensures SessionsByDate([Alice, Bob], "adv") == [("Day 1", [Bob])]
  {
    AliceDoesNotMatchAdv();
    BobMatchesAdv();
    var p := Matching("adv");
    assert [Alice, Bob][1..] == [Bob] && [Bob][1..] == [];
    assert Collections.Filter(p, [Bob]) == [Bob] + Collections.Filter(p, []);
    assert Collections.Filter(p, [Alice, Bob]) == Collections.Filter(p, [Bob]);
    assert [Bob][..0] == [];
    assert Collections.GroupBy([Bob], DateOf) == Collections.AddToGroup([], "Day 1", Bob);
  }

  /**
   * Favoriting three sessions succeeds; a fourth is refused with the
   * snackbar message and no change; removing one is still accepted.
   */
  method CapScenario()
  {
    var repository := new Data.SessionRepository([Alice, Bob]);
    var screen := new MainScreen(repository);
    screen.OnToggleFavorite("1");
    screen.OnToggleFavorite("2");
    screen.OnToggleFavorite("3");
    assert repository.favorites == {"1", "2", "3"};
    assert screen.snackbarError == "";
    screen.OnToggleFavorite("4");
    assert repository.favorites == {"1", "2", "3"};
    assert screen.snackbarError == FavoriteError;
    screen.OnToggleFavorite("2");
    assert repository.favorites == {"1", "3"};
  }
}
