/** Two example rounds, one won and one lost, stated on the functions the
    page's state is kept equal to: the spotlight is Spaced(Reveal(answer,
    guessed)) while playing, the mistake count is |Misses(answer, guessed)|,
    and a loss shows Spaced(answer). */
module Scenarios {
  import opened Text
  import opened Round

  /** Answer CAT, guesses C, A, T: the spotlight reads "C _ _", "C A _",
      "C A T", only the last passes the win test, and no guess is a miss. */
  lemma CatRound()
    ensures Spaced(Reveal("CAT", "C")) == "C _ _"
    ensures Spaced(Reveal("CAT", "CA")) == "C A _"
    ensures Spaced(Reveal("CAT", "CAT")) == "C A T"
    ensures !Solved(Spaced(Reveal("CAT", "C")), "CAT") && !Solved(Spaced(Reveal("CAT", "CA")), "CAT")
    ensures Solved(Spaced(Reveal("CAT", "CAT")), "CAT")
    ensures |Misses("CAT", "CAT")| == 0
  {
    assert Reveal("CAT", "C") == "C__";
    SpacedThree('C', '_', '_');
    assert Reveal("CAT", "CA") == "CA_";
    SpacedThree('C', 'A', '_');
    assert Reveal("CAT", "CAT") == "CAT";
    SpacedThree('C', 'A', 'T');
    WinTest("CAT", "C");
    WinTest("CAT", "CA");
    WinTest("CAT", "CAT");
    assert 'T' in "CAT";
    assert Misses("CAT", "CAT") == {};
  }

  /** Answer DOG, guesses X, Y, Z: the mistakes count 1, 2, 3, and the
      spotlight of the lost round reads "D O G". */
  lemma DogRound()
    ensures |Misses("DOG", "X")| == 1 && |Misses("DOG", "XY")| == 2 && |Misses("DOG", "XYZ")| == 3
    ensures Spaced("DOG") == "D O G"
  {
    assert Misses("DOG", "") == {};
    MissesAfterGuess("DOG", "", 'X');
    assert "" + ['X'] == "X";
    MissesAfterGuess("DOG", "X", 'Y');
    assert "X" + ['Y'] == "XY";
    MissesAfterGuess("DOG", "XY", 'Z');
    assert "XY" + ['Z'] == "XYZ";
    SpacedThree('D', 'O', 'G');
  }

  /** A three-character spotlight. */
  lemma SpacedThree(a: char, b: char, c: char)
    ensures Spaced([a, b, c]) == [a, ' ', b, ' ', c]
  {
  }
}
