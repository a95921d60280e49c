# Hangman round engine

A Dafny model of the game page of a hangman app (`game.xaml.cs`). The page
does four things:

- It loads a category's word list. The file text is cleaned of byte-order
  marks and zero-width spaces and trimmed. It is split into lines, and each
  line of the form `word~hint` becomes an entry.
- It draws a word from the list. The answer is the word upper-cased.
- It evaluates guessed letters. The *spotlight* shows the answer with every
  unguessed character replaced by `_`, joined by single spaces. Three
  mistakes lose the round.
- It offers two restarts: *Next* draws a new word and *Retry* replays the
  same one.

Files:

- `text.dfy` (module `Text`) holds the .NET string operations the page
  relies on, over ASCII: `Trim`, `ToUpper`, `Replace(c, "")`, `Split('~')`,
  the split on `\r\n`/`\n`/`\r` with empty pieces removed, and
  `string.Join(' ', chars)`. `IndexOf` there is the first position of a
  character and serves only `Split('~')`. The `guessed.IndexOf(x)` of
  `CalculateWord` is a list lookup and is modelled as membership. Lemmas
  state the trim's uniqueness and its behaviour on padded text, the
  round trips of `Split('~')` and of the line split, how a line break
  divides the lines, and what upper-casing keeps.
- `wordlist.dfy` (module `WordList`) parses a word list.
  - `Parse` is the specification function.
  - `ParseWordList` is the loop of the page, proved equal to `Parse`.
  - Lemmas state which lines give entries, what the entries hold, and that
    writing entries one per line and parsing them back is the identity.
- `round.dfy` (module `Round`) holds the reveal, the win test, the mistake
  count and the labels as functions. It also holds the class `Game`, whose
  methods are the page's methods over its fields.
  - The invariant `Valid()` says the guesses are distinct upper-case
    characters and the mistake count equals the number of guessed letters
    absent from the answer.
  - `Shown()` says the spotlight is the reveal of the guesses, or, once the
    limit is reached, the full answer.
- `scenarios.dfy` (module `Scenarios`) holds the two example rounds, CAT
  won and DOG lost.
- `wrappers.dfy` holds `Option`.

The random draw `Rand.Next(wordList.Count)` is the `pick` argument of the
constructor and of `NextClicked`. The file read is replaced by the file's
text, given to the constructor as `content`.

The model follows the code in these details:

- A line is split on every `~`. The word is the text before the first `~`,
  the hint is the text between the first and second `~`, and a third or
  later field is dropped.
- `HandleGuess` does not refuse guesses once the round is won or lost. Only
  the page hides the keyboard. So guesses after a loss can push the mistake
  count past 3. The invariant therefore says `Lost ==> mistakes >= 3`, not
  `mistakes == 3`.
- A line such as `~hint` yields an entry with an empty word. The code does
  not check that words are non-empty.
- A load failure is caught and logged, and leaves the word list empty. No
  error reaches the caller.

## Model

| member | source | states |
|---|---|---|
| WordList.Prepare | game.xaml.cs:195 | the cleaned file text holds no byte-order mark and no zero-width space |
| WordList.Parse | game.xaml.cs:195-213 | every entry of a parsed file has a trimmed word and hint, free of BOM and zero-width space |
| WordList.EntryOf | game.xaml.cs:199-212 | a line gives an entry only when it holds a `~`, and the entry's word and hint are trimmed |
| WordList.ParseWordList | game.xaml.cs:197-213 | the line-by-line loop yields exactly `Parse(content)`; the loop invariant is that the list holds the entries of the lines seen so far |
| WordList.EntryOfLine | game.xaml.cs:199-212 | a line gives an entry exactly when it holds a `~`; the entry is the trimmed text before the first `~` and the trimmed text between the first and second `~`, whatever white space surrounds the line |
| WordList.EntriesAreTildeLines | game.xaml.cs:199-212 | the entries of a run of lines are the lines holding `~`, in the same order, each as the entry it stands for |
| WordList.EntriesClean | game.xaml.cs:204-210 | every word and hint is trimmed and holds no byte-order mark or zero-width space |
| WordList.ParseSpec | game.xaml.cs:195-213 | a parsed file has one entry per line holding `~`, in file order; every word and hint is trimmed and free of BOM and zero-width space |
| WordList.EntriesAppend | game.xaml.cs:199-213 | lines contribute independently: the entries of two runs of lines are those of the first followed by those of the second |
| WordList.ParseSerialize | game.xaml.cs:195-213 | writing trimmed entries without `~`, line breaks, BOM or zero-width space as `word~hint` lines and parsing the text gives the same entries back, in order |
| WordList.EntriesOfLines | game.xaml.cs:199-213 | the written lines of such entries parse to the entries |
| WordList.LineOfParses | game.xaml.cs:201-211 | one written line parses back to its entry |
| WordList.EntryOfClean | game.xaml.cs:204-210 | the fields of a line's entry are trimmed and hold no BOM, and no zero-width space when the line held none |
| Text.Trim | game.xaml.cs:195 | the result has no white space at either end, is no longer than the input and holds only characters of the input |
| Text.TrimUnique | game.xaml.cs:195 | the trim of `p + x + q` is `x` when `p` and `q` are white space and `x` has none at its ends |
| Text.TrimSplit | game.xaml.cs:201 | every text is white space, its trim, and white space |
| Text.TrimPadded | game.xaml.cs:209-210 | white space around a text does not change its trim |
| Text.TrimmedTrim | game.xaml.cs:209-210 | trimming a trimmed text changes nothing |
| Text.TrimKeeps | game.xaml.cs:201 | every non-white-space character survives the trim |
| Text.Strip | game.xaml.cs:195 | the result holds exactly the characters of the input other than the removed one, and is the input when that character is absent |
| Text.StripAppend | game.xaml.cs:195 | removing a character from a concatenation removes it from each part |
| Text.Fields | game.xaml.cs:206 | the first field is the text before the first separator; there is a second field exactly when the separator occurs, and it is the text up to the next one; no field holds the separator |
| Text.JoinFields | game.xaml.cs:206 | joining the fields with the separator gives back the text |
| Text.FieldsJoin | game.xaml.cs:206 | splitting a join of separator-free parts gives back the parts |
| Text.IndexOfFound | game.xaml.cs:206 | the first position of a character is inside the text exactly when the character occurs |
| Text.SplitLines | game.xaml.cs:197 | every piece is non-empty and holds no line break |
| Text.SplitLinesPlain | game.xaml.cs:197 | a text without line breaks is one line, or no line when empty |
| Text.SplitLinesBreak | game.xaml.cs:197 | a line break (`\r` or `\n`, including the two of a `\r\n`) divides the text: its lines are the lines before the break followed by the lines after it, so no empty line appears and no character is lost |
| Text.SplitLinesJoin | game.xaml.cs:197 | splitting lines joined by `\n` gives back the lines |
| Text.SplitLinesChars | game.xaml.cs:197 | a character absent from the text is absent from every line |
| Text.UpperChar | game.xaml.cs:235 | the result is never a lower-case letter and differs from the input at most by an ASCII letter's case |
| Text.Upper | game.xaml.cs:235 | upper-casing keeps the length |
| Text.UpperChars | game.xaml.cs:235 | after upper-casing no lower-case letter remains; each character is the input's, or the input's lower-case letter upper-cased; characters that are not lower-case letters are kept |
| Text.UpperIdempotent | game.xaml.cs:235 | upper-casing twice is upper-casing once |
| Text.Spaced | game.xaml.cs:244 | the joined text has `2n-1` characters, the `i`-th character at position `2i` and spaces in between |
| Text.StripSpaced | game.xaml.cs:296 | removing the spaces from the spaced text of a space-free text gives it back |
| Round.Reveal | game.xaml.cs:241-243 | the reveal has one character per character of the answer, and with no guesses every one is `_` |
| Round.RevealWhole | game.xaml.cs:241-243 | for an answer without `_`, the reveal is the whole answer exactly when every character of the answer has been guessed |
| Round.SpotlightSlots | game.xaml.cs:239-244 | the spotlight has one slot per answer character; a slot shows the character exactly when it was guessed and `_` exactly when it was not, with single spaces between slots |
| Round.Solved | game.xaml.cs:296 | a solved spotlight's answer holds no space, and every character of the answer appears in the spotlight |
| Round.WinTest | game.xaml.cs:294-296 | for an answer of letters, the spotlight without spaces equals the answer exactly when every character of the answer has been guessed |
| Round.RevealAfterMiss | game.xaml.cs:286-290 | guessing a letter absent from the answer reveals nothing new |
| Round.Misses | game.xaml.cs:277-288 | there are no misses exactly when every guess is in the answer, and no character of the answer is a miss |
| Round.MissesBound | game.xaml.cs:277-288 | there are never more misses than guessed letters |
| Round.MissesAfterGuess | game.xaml.cs:277-288 | a new guess adds one miss exactly when the letter is not in the answer |
| Round.GuessesAfterGuess | game.xaml.cs:271-277 | recording a new upper-cased letter keeps the guesses distinct and upper-cased |
| Round.HintLabel | game.xaml.cs:245 | the hint line is `Hint: ` followed by the hint |
| Round.CategoryLabel | game.xaml.cs:248 | the label is `Category: ` followed by the category with its first character upper-cased and the rest unchanged; an empty category has no label |
| Round.CategoryLabelSame | game.xaml.cs:248 | two categories get the same label exactly when they differ at most in the case of their first character |
| Round.Game.constructor | game.xaml.cs:175-183 | a new page holds the parsed word list, no guesses, no mistakes and the round in play; with an empty list the answer, hint, spotlight, hint line and category line stay empty; with a non-empty list, entry `pick` is drawn and shown with its hint and category lines |
| Round.Game.LoadWords | game.xaml.cs:185-227 | the word list becomes `Parse(content)`; when it is empty nothing else changes, otherwise entry `pick` is drawn and the spotlight, hint and category lines are set; the invariant is kept |
| Round.Game.DrawWord | game.xaml.cs:220-221 | on a round without guesses, entry `pick` is drawn and the spotlight shows its blanks; the invariant is kept |
| Round.Game.PickRandomWord | game.xaml.cs:229-237 | an empty list leaves answer and hint unchanged; otherwise the answer is the chosen word upper-cased and the hint its hint |
| Round.Game.CalculateWord | game.xaml.cs:239-249 | the spotlight is the spaced reveal of the guesses, the hint line is `Hint: ` and the hint, and the category line is the category label |
| Round.Game.HandleGuess | game.xaml.cs:269-292 | a letter already guessed after upper-casing changes nothing; a new one is appended upper-cased; the mistake count rises by one exactly when it is not in the answer; a hit recomputes the spotlight and applies the win test, which for a letter answer wins exactly when every letter has been guessed; a miss reaching 3 loses and shows the whole answer spaced; the invariant is kept |
| Round.Game.CheckIfGameWon | game.xaml.cs:294-307 | the round is won exactly when the spotlight without spaces equals the answer, and is otherwise unchanged |
| Round.Game.CheckIfGameLost | game.xaml.cs:309-323 | at exactly 3 mistakes the round is lost and the spotlight shows every character of the answer spaced; otherwise nothing changes |
| Round.Game.ResetGame | game.xaml.cs:356-371 | the guesses are emptied, the mistakes zeroed and the end panel hidden |
| Round.Game.NextClicked | game.xaml.cs:338-343 | a fresh round on entry `pick`: no guesses or mistakes, all-blank spotlight, the invariant restored |
| Round.Game.RetryClicked | game.xaml.cs:345-349 | the same answer and hint again, with no guesses or mistakes and an all-blank spotlight |
| Scenarios.CatRound | game.xaml.cs:239-249 | for answer CAT and guesses C, A, T the spotlight reads "C _ _", "C A _", "C A T", only the last passes the win test, and there are no misses |
| Scenarios.DogRound | game.xaml.cs:286-321 | for answer DOG and guesses X, Y, Z the misses count 1, 2, 3, and the lost round shows "D O G" |

## Left out

- The file read (`FileSystem.OpenAppPackageFileAsync`, `StreamReader`), async loading and the exception handler that logs to the console (game.xaml.cs:190-194, 223-226). The constructor takes the file text instead, and loading finishes inside the constructor.
- `Rand.Next`: the drawn index is the `pick` argument (game.xaml.cs:234).
- Presentation: `INotifyPropertyChanged`, the visibility flags, `Message`, the hangman and score image names (`UpdateStatus`, game.xaml.cs:325-336), `EnableAllLetterButtons`, and the keyboard buttons that disable themselves. The win and loss panels are the `outcome` field (`Playing`, `Won`, `Lost`).
- Exit navigation and MainPage.xaml.cs, which hold only screen navigation.
- Full Unicode `ToUpper` and `Trim`. Upper-casing maps only `a`–`z`, and white space is the space and U+0009–U+000D.
- The initial `null` of the spotlight, hint and category text properties is modelled as the empty string.
- Round.Game.constructor: requires a non-empty category. `CalculateWord` reads `selectedCategory[0]` and would throw on an empty one; `CategoryLabel` returns `None` for that case.
- Round.Game.HandleGuess: the win biconditional is stated only for answers made of letters. For other answers the contract gives the outcome through the literal win test `Solved`.
