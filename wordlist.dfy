/** The string-processing half of loading a category's word list: the text
    of the file (read elsewhere) becomes an ordered list of (word, hint)
    entries, one per line of the form `word~hint`. */
module WordList {
  import opened Text
  import opened Wrappers

  /** The byte-order mark and the zero-width space, both removed from the file text. */
  const BOM: char := '\U{FEFF}'
  const ZWSP: char := '\U{200B}'

  datatype Entry = Entry(word: string, hint: string)

  /** The file text with every byte-order mark and zero-width space removed,
      then trimmed. */
  function Prepare(content: string): (r: string)
    ensures BOM !in r && ZWSP !in r
  {
    Trim(Strip(Strip(content, BOM), ZWSP))
  }

  /** What one piece of the split text contributes: nothing when it is blank
      after trimming or holds no `~`; otherwise its first two `~`-separated
      fields, trimmed. */
  function EntryOf(rawLine: string): (e: Option<Entry>)
    ensures e.Some? ==> '~' in rawLine && Trimmed(e.value.word) && Trimmed(e.value.hint)
  {
    var line := Trim(rawLine);
    if AllSpace(line) then None
    else
      var parts := Fields(Strip(line, BOM), '~');
      if |parts| >= 2 then Some(Entry(Trim(parts[0]), Trim(parts[1]))) else None
  }

  /** The entries the lines contribute, in order. */
  function Entries(lines: seq<string>): seq<Entry>
  {
    if lines == [] then []
    else
      var e := EntryOf(lines[|lines| - 1]);
      Entries(lines[..|lines| - 1]) + (if e.Some? then [e.value] else [])
  }

  /** The word list a category file yields. */
  function Parse(content: string): (wordList: seq<Entry>)
    ensures forall i :: 0 <= i < |wordList| ==> Clean(wordList[i])
  {
    var text := Prepare(content);
    SplitLinesChars(text, BOM);
    SplitLinesChars(text, ZWSP);
    EntriesClean(SplitLines(text));
    Entries(SplitLines(text))
  }

  /** The loop that fills the word list, one line at a time. */
  method ParseWordList(content: string) returns (wordList: seq<Entry>)
    ensures wordList == Parse(content)
  {
    var lines := SplitLines(Prepare(content));
    wordList := [];
    for i := 0 to |lines|
      invariant wordList == Entries(lines[..i])
    {
      PrefixStep(lines, i);
      var line := Trim(lines[i]);
      if AllSpace(line) {
        EntriesSkip(lines[..i], lines[i]);
        continue;
      }
      line := Strip(line, BOM);
      var parts := Fields(line, '~');
      if |parts| >= 2 {
        var word := Trim(parts[0]);
        var hint := Trim(parts[1]);
        EntriesSnoc(lines[..i], lines[i], Entry(word, hint));
        wordList := wordList + [Entry(word, hint)];
      } else {
        EntriesSkip(lines[..i], lines[i]);
      }
    }
    assert lines[..|lines|] == lines;
  }

  // ---------------------------------------------------------------------------
  // Which lines give entries, and what the entries hold

  /** The entry a line holding `~` stands for, stated on the line as it is:
      the trimmed text before its first `~`, and the trimmed text between its
      first and second `~` (or to the end when there is no second one). */
  function FieldsOf(line: string): Entry
    requires '~' in line
  {
    Entry(Trim(FirstField(line, '~')), Trim(FirstField(After(line, '~'), '~')))
  }

  /** A line gives an entry exactly when it holds a `~`, and the entry is the
      one the line stands for: the surrounding white space, blank lines and any
      third or later field do not matter. */
  lemma EntryOfLine(rawLine: string)
    requires BOM !in rawLine
    ensures EntryOf(rawLine).Some? <==> '~' in rawLine
    ensures '~' in rawLine ==> EntryOf(rawLine).value == FieldsOf(rawLine)
  {
    var line := Trim(rawLine);
    EntryOfTrimmed(rawLine);
    if '~' in rawLine {
      TrimKeeps(rawLine, '~');
      var p, q := TrimSplit(rawLine);
      FieldsAround(p, line, q);
    }
  }

  /** The entry of a line is read off its trimmed text. */
  lemma EntryOfTrimmed(rawLine: string)
    requires BOM !in rawLine
    ensures EntryOf(rawLine) == if '~' in Trim(rawLine) then Some(FieldsOf(Trim(rawLine))) else None
  {
  }

  /** White space around a line holding `~` does not change its trimmed fields. */
  lemma FieldsAround(p: string, x: string, q: string)
    requires AllSpace(p) && AllSpace(q) && '~' in x
    ensures FieldsOf(p + x + q) == FieldsOf(x)
  {
    NoTildeInSpace(p);
    NoTildeInSpace(q);
    FirstFieldAround(p, x, q, '~');
    TrimLeft(p, FirstField(x, '~'));
    var rest := After(x, '~');
    FirstFieldSuffix(rest, q, '~');
    if '~' !in rest {
      TrimRight(FirstField(rest, '~'), q);
    }
  }

  lemma NoTildeInSpace(p: string)
    requires AllSpace(p)
    ensures '~' !in p
  {
  }

  /** Text without `d` around a text holding `d` moves neither field boundary. */
  lemma FirstFieldAround(p: string, x: string, q: string, d: char)
    requires d !in p && d in x
    ensures d in p + x + q
    ensures FirstField(p + x + q, d) == p + FirstField(x, d)
    ensures After(p + x + q, d) == After(x, d) + q
  {
    IndexOfFound(x, d);
    IndexOfPrefix(x, q, d);
    IndexOfAppend(p, x + q, d);
    assert p + x + q == p + (x + q);
    var k := IndexOf(x, d);
    assert (p + (x + q))[..|p| + k] == p + x[..k];
    assert (p + (x + q))[|p| + k + 1..] == x[k + 1..] + q;
  }

  /** A suffix without `d` extends the first field only when there is no `d`. */
  lemma FirstFieldSuffix(x: string, q: string, d: char)
    requires d !in q
    ensures d in x ==> FirstField(x + q, d) == FirstField(x, d)
    ensures d !in x ==> FirstField(x + q, d) == FirstField(x, d) + q
  {
    IndexOfFound(x, d);
    if d in x {
      IndexOfPrefix(x, q, d);
      assert (x + q)[..IndexOf(x, d)] == x[..IndexOf(x, d)];
    } else {
      IndexOfAppend(x, q, d);
      IndexOfFound(q, d);
      assert (x + q)[..|x| + |q|] == x + q;
    }
  }

  /** The fields of every entry are trimmed and hold no byte-order mark, and
      no zero-width space when the line held none. */
  lemma EntryOfClean(rawLine: string)
    requires EntryOf(rawLine).Some?
    ensures Trimmed(EntryOf(rawLine).value.word) && Trimmed(EntryOf(rawLine).value.hint)
    ensures BOM !in EntryOf(rawLine).value.word && BOM !in EntryOf(rawLine).value.hint
    ensures ZWSP !in rawLine ==>
              ZWSP !in EntryOf(rawLine).value.word && ZWSP !in EntryOf(rawLine).value.hint
  {
    var line := Strip(Trim(rawLine), BOM);
    var parts := Fields(line, '~');
    var w, h := parts[0], parts[1];
    assert w == line[..IndexOf(line, '~')];
    assert BOM !in w && (ZWSP !in rawLine ==> ZWSP !in w);
    var rest := After(line, '~');
    assert h == rest[..IndexOf(rest, '~')];
    assert forall c :: c in rest ==> c in line;
    assert BOM !in h && (ZWSP !in rawLine ==> ZWSP !in h);
  }

  /** The lines that hold a `~`, in order. */
  function TildeLines(lines: seq<string>): (r: seq<string>)
    ensures forall i :: 0 <= i < |r| ==> '~' in r[i]
    ensures forall l :: l in r ==> l in lines
  {
    if lines == [] then []
    else
      var last := lines[|lines| - 1];
      TildeLines(lines[..|lines| - 1]) + (if '~' in last then [last] else [])
  }

  /** The entries are exactly the lines holding `~`, in the same order, each
      turned into the entry it stands for. */
  lemma {:induction false} EntriesAreTildeLines(lines: seq<string>)
    requires forall i :: 0 <= i < |lines| ==> BOM !in lines[i]
    ensures |Entries(lines)| == |TildeLines(lines)|
    ensures forall i :: 0 <= i < |Entries(lines)| ==> Entries(lines)[i] == FieldsOf(TildeLines(lines)[i])
  {
    if lines != [] {
      var init := lines[..|lines| - 1];
      var last := lines[|lines| - 1];
      EntriesAreTildeLines(init);
      EntryOfLine(last);
      LastSplit(lines);
      if '~' in last {
        EntriesSnoc(init, last, FieldsOf(last));
      } else {
        EntriesSkip(init, last);
      }
    }
  }

  /** Every entry's word and hint are trimmed and free of byte-order marks
      and zero-width spaces. */
  lemma {:induction false} EntriesClean(lines: seq<string>)
    requires forall i :: 0 <= i < |lines| ==> ZWSP !in lines[i]
    ensures forall e :: e in Entries(lines) ==> Clean(e)
  {
    if lines != [] {
      var init, last := lines[..|lines| - 1], lines[|lines| - 1];
      EntriesClean(init);
      var tail := if EntryOf(last).Some? then [EntryOf(last).value] else [];
      if EntryOf(last).Some? {
        EntryOfClean(last);
      }
      assert forall e :: e in tail ==> Clean(e);
      assert Entries(lines) == Entries(init) + tail;
    }
  }

  /** An entry whose word and hint are trimmed and hold no BOM or zero-width space. */
  predicate Clean(e: Entry) {
    CleanField(e.word) && CleanField(e.hint)
  }

  predicate CleanField(s: string) {
    Trimmed(s) && BOM !in s && ZWSP !in s
  }

  /** What a category file yields: the split lines of the cleaned text that
      hold a `~`, in file order, each as the entry it stands for; and no word
      or hint keeps white space at its ends or a BOM or zero-width space. */
  lemma ParseSpec(content: string)
    ensures |Parse(content)| == |TildeLines(SplitLines(Prepare(content)))|
    ensures forall i :: 0 <= i < |Parse(content)| ==>
              Parse(content)[i] == FieldsOf(TildeLines(SplitLines(Prepare(content)))[i])
    ensures forall i :: 0 <= i < |Parse(content)| ==> Clean(Parse(content)[i])
  {
    var text := Prepare(content);
    SplitLinesChars(text, BOM);
    SplitLinesChars(text, ZWSP);
    EntriesAreTildeLines(SplitLines(text));
    EntriesClean(SplitLines(text));
  }

  /** Lines contribute their entries independently: the entries of two runs
      of lines are those of the first followed by those of the second. */
  lemma {:induction false} EntriesAppend(xs: seq<string>, ys: seq<string>)
    ensures Entries(xs + ys) == Entries(xs) + Entries(ys)
  {
    if ys == [] {
      assert xs + ys == xs;
    } else {
      var init, last := ys[..|ys| - 1], ys[|ys| - 1];
      EntriesAppend(xs, init);
      LastSplit(ys);
      Assoc(xs, init, [last]);
      EntriesLast(xs + init, last);
      EntriesLast(init, last);
      Assoc(Entries(xs), Entries(init), Entries([last]));
    }
  }

  // ---------------------------------------------------------------------------
  // Writing a word list back out

  /** An entry that survives being written as one `word~hint` line: both
      fields trimmed, without `~`, line breaks, BOM or zero-width space. */
  predicate Storable(e: Entry) {
    Trimmed(e.word) && Trimmed(e.hint) &&
    (forall c :: c in e.word ==> Plain(c)) && (forall c :: c in e.hint ==> Plain(c))
  }

  predicate Plain(c: char) {
    c != '~' && !IsBreak(c) && c != BOM && c != ZWSP
  }

  function LineOf(e: Entry): string {
    e.word + ['~'] + e.hint
  }

  /** The written lines of the entries, in order. */
  function LinesOf(entries: seq<Entry>): (lines: seq<string>)
    ensures |lines| == |entries|
    ensures forall i :: 0 <= i < |entries| ==> lines[i] == LineOf(entries[i])
  {
    if entries == [] then []
    else LinesOf(entries[..|entries| - 1]) + [LineOf(entries[|entries| - 1])]
  }

  /** The file text holding the entries one per line. */
  function Serialize(entries: seq<Entry>): string {
    Join(LinesOf(entries), '\n')
  }

  /** Writing storable entries one per line and parsing the text gives the
      same entries back, in the same order. */
  lemma ParseSerialize(entries: seq<Entry>)
    requires forall i :: 0 <= i < |entries| ==> Storable(entries[i])
    ensures Parse(Serialize(entries)) == entries
  {
    var lines := LinesOf(entries);
    var text := Serialize(entries);
    forall i | 0 <= i < |lines|
      ensures IsLine(lines[i]) && BOM !in lines[i] && ZWSP !in lines[i]
      ensures !IsSpace(lines[i][0]) && !IsSpace(lines[i][|lines[i]| - 1])
    {
      LineOfShape(entries[i]);
    }
    JoinAvoids(lines, '\n', BOM);
    JoinAvoids(lines, '\n', ZWSP);
    assert Strip(Strip(text, BOM), ZWSP) == text;
    JoinEnds(lines, '\n');
    TrimmedTrim(text);
    assert Prepare(text) == text;
    SplitLinesJoin(lines);
    EntriesOfLines(entries);
  }

  /** What a written line looks like: non-empty, a single line, holding `~`,
      with no BOM, zero-width space or white space at its ends. */
  lemma LineOfShape(e: Entry)
    requires Storable(e)
    ensures IsLine(LineOf(e)) && BOM !in LineOf(e) && ZWSP !in LineOf(e) && '~' in LineOf(e)
    ensures !IsSpace(LineOf(e)[0]) && !IsSpace(LineOf(e)[|LineOf(e)| - 1])
  {
    var l := LineOf(e);
    var k := |e.word|;
    assert l[k] == '~';
    forall j | 0 <= j < |l|
      ensures l[j] == '~' || Plain(l[j])
    {
      if j < k {
        assert l[j] == e.word[j] && e.word[j] in e.word;
      } else if j > k {
        assert l[j] == e.hint[j - k - 1] && e.hint[j - k - 1] in e.hint;
      }
    }
    assert e.word != [] ==> l[0] == e.word[0];
    assert e.hint != [] ==> l[|l| - 1] == e.hint[|e.hint| - 1];
  }

  /** A written line parses back to its entry. */
  lemma LineOfParses(e: Entry)
    requires Storable(e)
    ensures EntryOf(LineOf(e)) == Some(e)
  {
    var l := LineOf(e);
    LineOfShape(e);
    EntryOfLine(l);
    assert '~' !in e.word;
    FirstFieldAround(e.word, ['~'], e.hint, '~');
    assert l == e.word + ['~'] + e.hint;
    assert FirstField(['~'], '~') == [];
    assert After(['~'], '~') == [];
    assert FirstField(l, '~') == e.word;
    assert After(l, '~') == e.hint;
    assert '~' !in e.hint;
    TrimmedTrim(e.word);
    TrimmedTrim(e.hint);
  }

  /** A character found in no part and not the separator is not in the join. */
  lemma {:induction false} JoinAvoids(parts: seq<string>, d: char, x: char)
    requires x != d
    requires forall i :: 0 <= i < |parts| ==> x !in parts[i]
    ensures x !in Join(parts, d)
  {
    if |parts| > 1 {
      JoinAvoids(parts[1..], d, x);
    }
  }

  /** Joined non-empty parts start with the first part's first character and
      end with the last part's last character. */
  lemma {:induction false} JoinEnds(parts: seq<string>, d: char)
    requires forall i :: 0 <= i < |parts| ==> parts[i] != []
    ensures parts != [] ==> Join(parts, d) != []
    ensures parts != [] ==> Join(parts, d)[0] == parts[0][0]
    ensures parts != [] ==>
              var j := Join(parts, d);
              var l := parts[|parts| - 1];
              j[|j| - 1] == l[|l| - 1]
  {
    if |parts| > 1 {
      JoinEnds(parts[1..], d);
    }
  }

  /** Parsing the written lines of storable entries gives the entries. */
  lemma {:induction false} EntriesOfLines(entries: seq<Entry>)
    requires forall i :: 0 <= i < |entries| ==> Storable(entries[i])
    ensures Entries(LinesOf(entries)) == entries
  {
    if entries != [] {
      var n := |entries|;
      var init, e := entries[..n - 1], entries[n - 1];
      EntriesOfLines(init);
      LineOfParses(e);
      EntriesSnoc(LinesOf(init), LineOf(e), e);
      LastSplit(entries);
    }
  }

  /** A line that gives an entry adds that entry at the end. */
  lemma EntriesSnoc(lines: seq<string>, x: string, e: Entry)
    requires EntryOf(x) == Some(e)
    ensures Entries(lines + [x]) == Entries(lines) + [e]
  {
    assert (lines + [x])[..|lines|] == lines;
  }

  /** The last line contributes what it contributes on its own. */
  lemma EntriesLast(lines: seq<string>, x: string)
    ensures Entries(lines + [x]) == Entries(lines) + Entries([x])
  {
    assert (lines + [x])[..|lines|] == lines;
    assert [x][..0] == [];
  }

  /** A line that gives no entry adds nothing. */
  lemma EntriesSkip(lines: seq<string>, x: string)
    requires EntryOf(x) == None
    ensures Entries(lines + [x]) == Entries(lines)
  {
  }
}
