/** One round of the hangman game page: a word is drawn from the loaded word
    list, letters are guessed, the spotlight shows the answer with unguessed
    letters blanked, and three wrong letters lose the round. */
module Round {
  import opened Text
  import opened Wrappers
  import opened WordList

  /** The mistake count that loses a round; the page compares with `==` only. */
  const MistakeLimit: int := 3

  /** The end-of-round panel of the page: the win message with its Next button,
      the loss message with its Retry button, or neither while letters can be
      picked. */
  datatype Outcome = Playing | Won | Lost

  /** The answer with every character that has not been guessed replaced by `_`. */
  function Reveal(answer: string, guessed: seq<char>): (r: string)
    ensures |r| == |answer|
    ensures guessed == [] ==> forall i :: 0 <= i < |r| ==> r[i] == '_'
  {
    seq(|answer|, i requires 0 <= i < |answer| => if answer[i] in guessed then answer[i] else '_')
  }

  /** For an answer without `_`, the reveal is the whole answer exactly when
      every character of the answer has been guessed. */
  lemma RevealWhole(answer: string, guessed: seq<char>)
    requires '_' !in answer
    ensures Reveal(answer, guessed) == answer <==> forall c :: c in answer ==> c in guessed
  {
  }

  /** The spotlight has one slot per character of the answer, separated by
      single spaces; a slot shows the answer's character exactly when it has
      been guessed, and `_` otherwise. */
  lemma SpotlightSlots(answer: string, guessed: seq<char>)
    requires '_' !in answer
    ensures |Spaced(Reveal(answer, guessed))| == if answer == [] then 0 else 2 * |answer| - 1
    ensures forall i :: 0 <= i < |answer| ==>
              (Spaced(Reveal(answer, guessed))[2 * i] == answer[i] <==> answer[i] in guessed)
    ensures forall i :: 0 <= i < |answer| ==>
              (Spaced(Reveal(answer, guessed))[2 * i] == '_' <==> answer[i] !in guessed)
    ensures forall i :: 0 <= i < |answer| - 1 ==> Spaced(Reveal(answer, guessed))[2 * i + 1] == ' '
  {
    var r := Reveal(answer, guessed);
    var sp := Spaced(r);
    forall i | 0 <= i < |answer|
      ensures sp[2 * i] == r[i]
    {
      assert (2 * i) % 2 == 0 && (2 * i) / 2 == i;
    }
    forall i | 0 <= i < |answer| - 1
      ensures sp[2 * i + 1] == ' '
    {
      assert (2 * i + 1) % 2 == 1;
    }
  }

  /** The win test of the page: the spotlight with its spaces removed is the answer. */
  predicate Solved(spotlight: string, answer: string)
    ensures Solved(spotlight, answer) ==> ' ' !in answer && forall c :: c in answer ==> c in spotlight
  {
    Strip(spotlight, ' ') == answer
  }

  /** For an answer made of letters, the win test passes exactly when every
      character of the answer has been guessed. */
  lemma WinTest(answer: string, guessed: seq<char>)
    requires forall i :: 0 <= i < |answer| ==> IsLetter(answer[i])
    ensures Solved(Spaced(Reveal(answer, guessed)), answer) <==> forall c :: c in answer ==> c in guessed
  {
    var r := Reveal(answer, guessed);
    assert ' ' !in r by {
      forall i | 0 <= i < |r| ensures r[i] != ' ' {
        assert IsLetter(answer[i]);
      }
    }
    StripSpaced(r);
    if forall c :: c in answer ==> c in guessed {
      assert r == answer;
    }
    if r == answer {
      forall c | c in answer ensures c in guessed {
        var i :| 0 <= i < |answer| && answer[i] == c;
        assert IsLetter(r[i]);
      }
    }
  }

  /** A letter that is not in the answer reveals nothing. */
  lemma RevealAfterMiss(answer: string, guessed: seq<char>, x: char)
    requires x !in answer
    ensures Reveal(answer, guessed + [x]) == Reveal(answer, guessed)
  {
  }

  /** The guessed letters that do not occur in the answer. */
  function Misses(answer: string, guessed: seq<char>): (m: set<char>)
    ensures m == {} <==> forall i :: 0 <= i < |guessed| ==> guessed[i] in answer
    ensures forall c :: c in answer ==> c !in m
  {
    var m := set c | c in guessed && c !in answer;
    assert forall i :: 0 <= i < |guessed| && guessed[i] !in answer ==> guessed[i] in m;
    m
  }

  /** A new guess adds one miss exactly when it is not in the answer. */
  lemma MissesAfterGuess(answer: string, guessed: seq<char>, x: char)
    requires x !in guessed
    ensures |Misses(answer, guessed + [x])| == |Misses(answer, guessed)| + (if x in answer then 0 else 1)
  {
    var before := Misses(answer, guessed);
    if x in answer {
      assert Misses(answer, guessed + [x]) == before;
    } else {
      assert Misses(answer, guessed + [x]) == before + {x};
      assert x !in before;
    }
  }

  /** There are never more misses than guesses: the mistake count is bounded
      by the number of letters picked. */
  lemma {:induction false} MissesBound(answer: string, guessed: seq<char>)
    ensures |Misses(answer, guessed)| <= |guessed|
  {
    if guessed != [] {
      var g, x := guessed[..|guessed| - 1], guessed[|guessed| - 1];
      MissesBound(answer, g);
      assert guessed == g + [x];
      if x in answer || x in g {
        assert Misses(answer, guessed) == Misses(answer, g);
      } else {
        assert Misses(answer, guessed) == Misses(answer, g) + {x};
      }
    }
  }

  predicate NoDuplicates(s: seq<char>) {
    forall i, j :: 0 <= i < j < |s| ==> s[i] != s[j]
  }

  /** The guesses are distinct upper-cased letters. */
  predicate Guesses(guessed: seq<char>) {
    NoDuplicates(guessed) && forall i :: 0 <= i < |guessed| ==> UpperChar(guessed[i]) == guessed[i]
  }

  /** Recording a new upper-cased letter keeps the guesses distinct and upper-cased. */
  lemma GuessesAfterGuess(guessed: seq<char>, letter: char)
    requires Guesses(guessed) && UpperChar(letter) !in guessed
    ensures Guesses(guessed + [UpperChar(letter)])
  {
  }

  /** The category line: "Category: " and the category with its first
      character upper-cased; an empty category has no first character, which
      makes the page throw. */
  function CategoryLabel(category: string): (line: Option<string>)
    ensures line.Some? <==> category != []
    ensures line.Some? ==> |line.value| == 10 + |category| && line.value[..10] == "Category: "
    ensures line.Some? ==> line.value[10] == UpperChar(category[0]) && line.value[11..] == category[1..]
  {
    if category == [] then None
    else Some("Category: " + [UpperChar(category[0])] + category[1..])
  }

  /** Two categories get the same label exactly when they differ at most in
      the case of their first letter. */
  lemma CategoryLabelSame(c1: string, c2: string)
    ensures CategoryLabel(c1) == CategoryLabel(c2) <==>
              (c1 == [] && c2 == []) ||
              (c1 != [] && c2 != [] && UpperChar(c1[0]) == UpperChar(c2[0]) && c1[1..] == c2[1..])
  {
  }

  /** The hint line: "Hint: " and the hint. */
  function HintLabel(hint: string): (line: string)
    ensures |line| == 6 + |hint| && line[..6] == "Hint: " && line[6..] == hint
  {
    "Hint: " + hint
  }

  /** The game page's round state. The random draw of a word is the `pick`
      argument of the constructor and of NextClicked. */
  class Game {
    const category: string
    var wordList: seq<Entry>
    var answer: string
    var hint: string
    var guessed: seq<char>
    var mistakes: int
    var spotlight: string
    var hintText: string
    var categoryText: string
    var outcome: Outcome

    /** The round invariant: the answer is upper case, the guesses are
        distinct upper-cased letters, the mistake count is the number of
        guessed letters missing from the answer, and a lost round has reached
        the limit. */
    ghost predicate Valid()
      reads this
    {
      && category != []
      && Upper(answer) == answer
      && Guesses(guessed)
      && mistakes == |Misses(answer, guessed)|
      && (outcome == Lost ==> mistakes >= MistakeLimit)
    }

    /** The spotlight shows the reveal of the guesses, or, once the limit has
        been reached, possibly the whole answer. */
    ghost predicate Shown()
      reads this
    {
      || spotlight == Spaced(Reveal(answer, guessed))
      || (mistakes >= MistakeLimit && spotlight == Spaced(answer))
    }

    /** Opening the page for a category: the word list is parsed from the
        file text and, when it is not empty, a word is drawn and shown. */
    constructor (category: string, content: string, pick: nat)
      requires category != []
      requires Parse(content) != [] ==> pick < |Parse(content)|
      ensures Valid() && Shown()
      ensures this.category == category && wordList == Parse(content)
      ensures guessed == [] && mistakes == 0 && outcome == Playing
      ensures wordList == [] ==> answer == "" && hint == "" && spotlight == ""
      ensures wordList == [] ==> hintText == "" && categoryText == ""
      ensures wordList != [] ==> answer == Upper(wordList[pick].word) && hint == wordList[pick].hint
      ensures wordList != [] ==> spotlight == Spaced(Reveal(answer, []))
      ensures wordList != [] ==> hintText == HintLabel(hint) && categoryText == CategoryLabel(category).value
    {
      this.category := category;
      wordList := [];
      answer, hint := "", "";
      guessed, mistakes := [], 0;
      spotlight, hintText, categoryText := "", "", "";
      outcome := Playing;
      new;
      assert Misses(answer, guessed) == {};
      LoadWords(content, pick);
    }

    /** Loading the category file: its text is parsed into the word list and,
        when the list is not empty, entry `pick` is drawn and shown. */
    method LoadWords(content: string, pick: nat)
      requires Valid() && wordList == [] && guessed == []
      requires Parse(content) != [] ==> pick < |Parse(content)|
      modifies this`wordList, this`answer, this`hint, this`spotlight, this`hintText, this`categoryText
      ensures Valid() && wordList == Parse(content)
      ensures wordList == [] ==>
                answer == old(answer) && hint == old(hint) && spotlight == old(spotlight)
                && hintText == old(hintText) && categoryText == old(categoryText)
      ensures wordList != [] ==> answer == Upper(wordList[pick].word) && hint == wordList[pick].hint
      ensures wordList != [] ==> spotlight == Spaced(Reveal(answer, []))
      ensures wordList != [] ==> hintText == HintLabel(hint) && categoryText == CategoryLabel(category).value
    {
      var parsed := ParseWordList(content);
      wordList := wordList + parsed;
      assert wordList == Parse(content);
      if |wordList| == 0 {
        return;
      }
      DrawWord(pick);
    }

    /** Draws entry `pick` and shows it, on a round without guesses: the
        spotlight is all blanks and the hint and category lines are set. */
    method DrawWord(pick: nat)
      requires Valid() && guessed == []
      requires wordList == [] || pick < |wordList|
      modifies this`answer, this`hint, this`spotlight, this`hintText, this`categoryText
      ensures Valid() && Shown()
      ensures wordList == [] ==> answer == old(answer) && hint == old(hint)
      ensures wordList != [] ==> answer == Upper(wordList[pick].word) && hint == wordList[pick].hint
      ensures spotlight == Spaced(Reveal(answer, []))
      ensures hintText == HintLabel(hint) && categoryText == CategoryLabel(category).value
    {
      PickRandomWord(pick);
      if wordList != [] {
        UpperIdempotent(wordList[pick].word);
      }
      assert Misses(answer, guessed) == {};
      CalculateWord();
    }

    /** Draws entry `pick`: the answer becomes its word upper-cased and the
        hint its hint; an empty list changes nothing. */
    method PickRandomWord(pick: nat)
      requires wordList == [] || pick < |wordList|
      modifies this`answer, this`hint
      ensures wordList == [] ==> answer == old(answer) && hint == old(hint)
      ensures wordList != [] ==> answer == Upper(wordList[pick].word) && hint == wordList[pick].hint
    {
      if |wordList| == 0 {
        return;
      }
      var selected := wordList[pick];
      answer := Upper(selected.word);
      hint := selected.hint;
    }

    /** Recomputes the spotlight from the answer and the guesses, and the
        hint and category lines. */
    method CalculateWord()
      requires category != []
      modifies this`spotlight, this`hintText, this`categoryText
      ensures spotlight == Spaced(Reveal(answer, guessed))
      ensures hintText == HintLabel(hint) && categoryText == CategoryLabel(category).value
    {
      var temp := Reveal(answer, guessed);
      spotlight := Spaced(temp);
      hintText := HintLabel(hint);
      categoryText := CategoryLabel(category).value;
    }

    /** One letter from the keyboard. A letter already guessed (after
        upper-casing) changes nothing. A new letter is recorded; if it is in
        the answer the spotlight is recomputed and the win test applied,
        otherwise the mistake count goes up and, on reaching the limit, the
        round is lost and the whole answer shown. */
    method HandleGuess(letter: char)
      requires Valid() && Shown()
      modifies this`guessed, this`mistakes, this`spotlight, this`hintText, this`categoryText, this`outcome
      ensures Valid() && Shown()
      ensures UpperChar(letter) in old(guessed) ==>
                && guessed == old(guessed) && mistakes == old(mistakes) && spotlight == old(spotlight)
                && outcome == old(outcome) && hintText == old(hintText) && categoryText == old(categoryText)
      ensures UpperChar(letter) !in old(guessed) ==> guessed == old(guessed) + [UpperChar(letter)]
      ensures mistakes ==
                old(mistakes) + (if UpperChar(letter) in old(guessed) || UpperChar(letter) in answer then 0 else 1)
      ensures UpperChar(letter) !in old(guessed) && UpperChar(letter) in answer ==>
                && spotlight == Spaced(Reveal(answer, guessed))
                && hintText == HintLabel(hint) && categoryText == CategoryLabel(category).value
                && outcome == (if Solved(spotlight, answer) then Won else old(outcome))
      ensures UpperChar(letter) !in old(guessed) && UpperChar(letter) !in answer ==>
                && hintText == old(hintText) && categoryText == old(categoryText)
                && spotlight == (if mistakes == MistakeLimit then Spaced(answer) else old(spotlight))
                && outcome == (if mistakes == MistakeLimit then Lost else old(outcome))
      ensures (forall i :: 0 <= i < |answer| ==> IsLetter(answer[i])) &&
              UpperChar(letter) !in old(guessed) && UpperChar(letter) in answer ==>
                (outcome == Won <==> old(outcome) == Won || forall c :: c in answer ==> c in guessed)
    {
      var g := UpperChar(letter);
      if g in guessed {
        return;
      }
      MissesAfterGuess(answer, guessed, g);
      GuessesAfterGuess(guessed, letter);
      guessed := guessed + [g];
      if g in answer {
        CalculateWord();
        CheckIfGameWon();
        if forall i :: 0 <= i < |answer| ==> IsLetter(answer[i]) {
          WinTest(answer, guessed);
        }
      } else {
        RevealAfterMiss(answer, old(guessed), g);
        mistakes := mistakes + 1;
        CheckIfGameLost();
      }
    }

    /** The win test: a solved spotlight shows the win panel. */
    method CheckIfGameWon()
      modifies this`outcome
      ensures outcome == if Solved(spotlight, answer) then Won else old(outcome)
    {
      if Strip(spotlight, ' ') == answer {
        outcome := Won;
      }
    }

    /** The loss test: at exactly the limit the loss panel is shown and the
        spotlight shows every character of the answer. */
    method CheckIfGameLost()
      requires Upper(answer) == answer
      modifies this`outcome, this`spotlight
      ensures mistakes == MistakeLimit ==> outcome == Lost && spotlight == Spaced(answer)
      ensures mistakes != MistakeLimit ==> outcome == old(outcome) && spotlight == old(spotlight)
    {
      if mistakes == MistakeLimit {
        outcome := Lost;
        spotlight := Spaced(Upper(answer));
      }
    }

    /** Clears the guesses and the mistake count and hides the end panel. */
    method ResetGame()
      modifies this`guessed, this`mistakes, this`outcome
      ensures guessed == [] && mistakes == 0 && outcome == Playing
    {
      guessed := [];
      mistakes := 0;
      outcome := Playing;
    }

    /** The Next button: a fresh round on entry `pick` of the word list. */
    method NextClicked(pick: nat)
      requires Valid()
      requires wordList == [] || pick < |wordList|
      modifies this`answer, this`hint, this`guessed, this`mistakes, this`spotlight, this`hintText,
               this`categoryText, this`outcome
      ensures Valid() && Shown()
      ensures guessed == [] && mistakes == 0 && outcome == Playing
      ensures wordList == [] ==> answer == old(answer) && hint == old(hint)
      ensures wordList != [] ==> answer == Upper(wordList[pick].word) && hint == wordList[pick].hint
      ensures spotlight == Spaced(seq(|answer|, _ => '_'))
      ensures hintText == HintLabel(hint) && categoryText == CategoryLabel(category).value
    {
      ResetGame();
      assert Misses(answer, guessed) == {};
      DrawWord(pick);
      assert Reveal(answer, []) == seq(|answer|, _ => '_');
    }

    /** The Retry button: the same word again, with every slot blank. */
    method RetryClicked()
      requires Valid()
      modifies this`guessed, this`mistakes, this`spotlight, this`hintText, this`categoryText, this`outcome
      ensures Valid() && Shown()
      ensures answer == old(answer) && hint == old(hint)
      ensures guessed == [] && mistakes == 0 && outcome == Playing
      ensures spotlight == Spaced(seq(|answer|, _ => '_'))
      ensures hintText == HintLabel(hint) && categoryText == CategoryLabel(category).value
    {
      ResetGame();
      CalculateWord();
      assert Misses(answer, guessed) == {};
      assert Reveal(answer, []) == seq(|answer|, _ => '_');
    }
  }
}
