/** The .NET string operations the game relies on, restricted to ASCII:
    Trim and IsNullOrWhiteSpace over ASCII white space, char.ToUpper over
    ASCII letters, Replace(x, "") for one character, Split on one character
    (through the first position of a character), Split on the three line
    breaks with empty pieces removed, and string.Join(' ', chars). */
module Text {

  /** ASCII white space: the space and the control characters U+0009 to U+000D. */
  predicate IsSpace(c: char) {
    c == ' ' || '\t' <= c <= '\r'
  }

  predicate IsLetter(c: char) {
    'A' <= c <= 'Z' || 'a' <= c <= 'z'
  }

  predicate AllSpace(s: string) {
    forall i :: 0 <= i < |s| ==> IsSpace(s[i])
  }

  /** Neither starts nor ends with white space. */
  predicate Trimmed(s: string) {
    s == [] || (!IsSpace(s[0]) && !IsSpace(s[|s| - 1]))
  }

  // ---------------------------------------------------------------------------
  // char.ToUpper and string.ToUpper

  /** The result is never a lower-case letter, and differs from `c` at most by
      the case of an ASCII letter. */
  function UpperChar(c: char): (u: char)
    ensures !('a' <= u <= 'z')
    ensures u == c || ('a' <= c <= 'z' && u as int == c as int - 32)
  {
    if 'a' <= c <= 'z' then (c as int - 32) as char else c
  }

  function Upper(s: string): (r: string)
    ensures |r| == |s|
  {
    seq(|s|, i requires 0 <= i < |s| => UpperChar(s[i]))
  }

  /** ToUpper leaves no lower-case letter, and keeps every character that is
      not one. */
  lemma UpperChars(s: string)
    ensures forall i :: 0 <= i < |s| ==> !('a' <= Upper(s)[i] <= 'z')
    ensures forall i :: 0 <= i < |s| ==>
              Upper(s)[i] == s[i] || ('a' <= s[i] <= 'z' && Upper(s)[i] as int == s[i] as int - 32)
    ensures forall i :: 0 <= i < |s| && !('a' <= s[i] <= 'z') ==> Upper(s)[i] == s[i]
  {
  }

  lemma UpperIdempotent(s: string)
    ensures Upper(Upper(s)) == Upper(s)
  {
  }

  // ---------------------------------------------------------------------------
  // Trim

  /** The number of leading white-space characters. */
  function Lead(s: string): (n: nat)
    ensures n <= |s|
    ensures forall i :: 0 <= i < n ==> IsSpace(s[i])
    ensures n < |s| ==> !IsSpace(s[n])
  {
    if s != [] && IsSpace(s[0]) then 1 + Lead(s[1..]) else 0
  }

  /** The number of trailing white-space characters. */
  function Tail(s: string): (n: nat)
    ensures n <= |s|
    ensures forall i :: |s| - n <= i < |s| ==> IsSpace(s[i])
    ensures n < |s| ==> !IsSpace(s[|s| - 1 - n])
  {
    if s != [] && IsSpace(s[|s| - 1]) then 1 + Tail(s[..|s| - 1]) else 0
  }

  /** string.Trim(): drop leading and trailing white space. */
  function Trim(s: string): (r: string)
    ensures Trimmed(r)
    ensures |r| <= |s|
    ensures forall c :: c in r ==> c in s
  {
    var t := s[Lead(s)..];
    t[..|t| - Tail(t)]
  }

  /** Trim cuts `s` into white space, the trimmed text, and white space. */
  lemma TrimSlice(s: string) returns (a: nat, b: nat)
    ensures a <= b <= |s|
    ensures Trim(s) == s[a..b]
    ensures forall i :: 0 <= i < a ==> IsSpace(s[i])
    ensures forall i :: b <= i < |s| ==> IsSpace(s[i])
    ensures a < b ==> !IsSpace(s[a]) && !IsSpace(s[b - 1])
  {
    a := Lead(s);
    var t := s[a..];
    b := a + |t| - Tail(t);
    DropTake(s, a, b);
    forall i | b <= i < |s|
      ensures IsSpace(s[i])
    {
      assert s[i] == t[i - a];
    }
  }

  /** `s` is its trimmed text with white space before and after. */
  lemma TrimSplit(s: string) returns (p: string, q: string)
    ensures s == p + Trim(s) + q
    ensures AllSpace(p) && AllSpace(q)
  {
    var a, b := TrimSlice(s);
    p, q := s[..a], s[b..];
    assert s == s[..a] + s[a..b] + s[b..];
  }

  /** The trimmed text is the only trimmed middle between two runs of white space. */
  lemma TrimUnique(s: string, p: string, x: string, q: string)
    requires s == p + x + q
    requires AllSpace(p) && AllSpace(q) && Trimmed(x)
    ensures Trim(s) == x
  {
    var a, b := TrimSlice(s);
    assert forall i :: 0 <= i < |p| ==> s[i] == p[i];
    assert forall i :: |p| <= i < |p| + |x| ==> s[i] == x[i - |p|];
    assert forall i :: |p| + |x| <= i < |s| ==> s[i] == q[i - |p| - |x|];
    if x == [] {
      assert a == b;
    } else {
      assert s[|p|] == x[0] && s[|p| + |x| - 1] == x[|x| - 1];
      assert a == |p| && b == |p| + |x|;
      assert s[a..b] == x;
    }
  }

  /** White space around a text does not change what Trim makes of it. */
  lemma TrimPadded(p: string, x: string, q: string)
    requires AllSpace(p) && AllSpace(q)
    ensures Trim(p + x + q) == Trim(x)
  {
    var p', q' := TrimSplit(x);
    AllSpaceAppend(p, p');
    AllSpaceAppend(q', q);
    Regroup(p, p', Trim(x), q', q);
    TrimUnique(p + x + q, p + p', Trim(x), q' + q);
  }

  /** White space before a text does not change what Trim makes of it. */
  lemma TrimLeft(p: string, x: string)
    requires AllSpace(p)
    ensures Trim(p + x) == Trim(x)
  {
    TrimPadded(p, x, []);
    NoEmpty(p, x);
  }

  /** White space after a text does not change what Trim makes of it. */
  lemma TrimRight(x: string, q: string)
    requires AllSpace(q)
    ensures Trim(x + q) == Trim(x)
  {
    TrimPadded([], x, q);
    NoEmpty(x, q);
  }

  lemma AllSpaceAppend(a: string, b: string)
    requires AllSpace(a) && AllSpace(b)
    ensures AllSpace(a + b)
  {
  }

  /** A text that has no white space at either end is its own trim. */
  lemma TrimmedTrim(s: string)
    requires Trimmed(s)
    ensures Trim(s) == s
  {
  }

  /** Every character of `s` that is not white space survives Trim. */
  lemma TrimKeeps(s: string, c: char)
    requires c in s && !IsSpace(c)
    ensures c in Trim(s)
  {
  }

  // ---------------------------------------------------------------------------
  // Replace(c, "")

  /** `s` with every occurrence of `c` removed. */
  function Strip(s: string, c: char): (r: string)
    ensures forall x :: x in r <==> x in s && x != c
    ensures c !in s ==> r == s
  {
    if s == [] then [] else (if s[0] == c then [] else [s[0]]) + Strip(s[1..], c)
  }

  lemma {:induction false} StripAppend(s: string, t: string, c: char)
    ensures Strip(s + t, c) == Strip(s, c) + Strip(t, c)
  {
    if s == [] {
      assert s + t == t;
    } else {
      assert (s + t)[0] == s[0];
      assert (s + t)[1..] == s[1..] + t;
      StripAppend(s[1..], t, c);
    }
  }

  // ---------------------------------------------------------------------------
  // IndexOf and Split(char)

  /** The position of the first `d` in `s`, or |s| when there is none. */
  function IndexOf(s: string, d: char): (k: nat)
    ensures k <= |s|
    ensures forall i :: 0 <= i < k ==> s[i] != d
    ensures k < |s| ==> s[k] == d
  {
    if s == [] then 0
    else if s[0] == d then 0
    else 1 + IndexOf(s[1..], d)
  }

  /** The conditions above pin the position down. */
  lemma IndexOfIs(s: string, d: char, k: nat)
    requires k <= |s|
    requires forall i :: 0 <= i < k ==> s[i] != d
    requires k < |s| ==> s[k] == d
    ensures IndexOf(s, d) == k
  {
  }

  lemma IndexOfFound(s: string, d: char)
    ensures IndexOf(s, d) < |s| <==> d in s
  {
  }

  /** The text before the first `d` (all of `s` when there is none). */
  function FirstField(s: string, d: char): (r: string)
    ensures d !in r
    ensures d !in s ==> r == s
  {
    IndexOfFound(s, d);
    s[..IndexOf(s, d)]
  }

  /** The text after the first `d`. */
  function After(s: string, d: char): string
    requires d in s
  {
    s[IndexOf(s, d) + 1..]
  }

  /** string.Split(d): the pieces between the occurrences of `d`, empty ones kept. */
  function Fields(s: string, d: char): (parts: seq<string>)
    ensures |parts| >= 1
    ensures parts[0] == FirstField(s, d)
    ensures |parts| >= 2 <==> d in s
    ensures d in s ==> parts[1] == FirstField(After(s, d), d)
    ensures forall i :: 0 <= i < |parts| ==> d !in parts[i]
    decreases |s|
  {
    var k := IndexOf(s, d);
    IndexOfFound(s, d);
    if k == |s| then [s] else [s[..k]] + Fields(s[k + 1..], d)
  }

  /** string.Join(d, parts). */
  function Join(parts: seq<string>, d: char): string
  {
    if parts == [] then []
    else if |parts| == 1 then parts[0]
    else parts[0] + [d] + Join(parts[1..], d)
  }

  lemma {:induction false} JoinFields(s: string, d: char)
    ensures Join(Fields(s, d), d) == s
    decreases |s|
  {
    var k := IndexOf(s, d);
    if k < |s| {
      JoinFields(s[k + 1..], d);
      JoinCons(s[..k], Fields(s[k + 1..], d), d);
      SplitAt(s, k);
    }
  }

  lemma {:induction false} FieldsJoin(parts: seq<string>, d: char)
    requires |parts| >= 1
    requires forall i :: 0 <= i < |parts| ==> d !in parts[i]
    ensures Fields(Join(parts, d), d) == parts
  {
    var s := Join(parts, d);
    if |parts| == 1 {
      IndexOfFound(s, d);
    } else {
      var first, rest := parts[0], Join(parts[1..], d);
      Around(first, d, rest);
      IndexOfIs(s, d, |first|);
      FieldsJoin(parts[1..], d);
      HeadTail(parts);
    }
  }

  /** Joining a first part before at least one more puts `d` between them. */
  lemma JoinCons(first: string, rest: seq<string>, d: char)
    requires |rest| >= 1
    ensures Join([first] + rest, d) == first + [d] + Join(rest, d)
  {
  }

  /** A prefix without `d` shifts the position of the first `d`. */
  lemma IndexOfAppend(p: string, x: string, d: char)
    requires d !in p
    ensures IndexOf(p + x, d) == |p| + IndexOf(x, d)
  {
    assert forall i :: 0 <= i < |p| ==> (p + x)[i] == p[i];
    assert forall i :: |p| <= i < |p + x| ==> (p + x)[i] == x[i - |p|];
    IndexOfIs(p + x, d, |p| + IndexOf(x, d));
  }

  /** A suffix does not move the first `d` of a text that holds one. */
  lemma IndexOfPrefix(x: string, q: string, d: char)
    requires d in x
    ensures IndexOf(x + q, d) == IndexOf(x, d)
  {
    IndexOfFound(x, d);
    assert forall i :: 0 <= i < |x| ==> (x + q)[i] == x[i];
    IndexOfIs(x + q, d, IndexOf(x, d));
  }

  // ---------------------------------------------------------------------------
  // Split(new[] { "\r\n", "\n", "\r" }, StringSplitOptions.RemoveEmptyEntries)

  predicate IsBreak(c: char) {
    c == '\r' || c == '\n'
  }

  /** The position of the first line-break character, or |s| when there is none. */
  function LineBreak(s: string): (k: nat)
    ensures k <= |s|
    ensures forall i :: 0 <= i < k ==> !IsBreak(s[i])
    ensures k < |s| ==> IsBreak(s[k])
  {
    if s == [] || IsBreak(s[0]) then 0 else 1 + LineBreak(s[1..])
  }

  /** A piece the line splitter can produce: non-empty and without breaks. */
  predicate IsLine(l: string) {
    l != [] && forall j :: 0 <= j < |l| ==> !IsBreak(l[j])
  }

  /** The length of the separator at position `k`: "\r\n" is tried first. */
  function BreakWidth(s: string, k: nat): nat
    requires k < |s|
  {
    if s[k] == '\r' && k + 1 < |s| && s[k + 1] == '\n' then 2 else 1
  }

  /** The non-empty pieces between line breaks, in order. */
  function SplitLines(s: string): (lines: seq<string>)
    ensures forall i :: 0 <= i < |lines| ==> IsLine(lines[i])
    decreases |s|
  {
    var k := LineBreak(s);
    var head := if k == 0 then [] else [s[..k]];
    if k == |s| then head
    else
      var rest := SplitLines(s[k + BreakWidth(s, k)..]);
      head + rest
  }

  /** A text without breaks is a single line, or no line when it is empty. */
  lemma SplitLinesPlain(x: string)
    requires forall j :: 0 <= j < |x| ==> !IsBreak(x[j])
    ensures SplitLines(x) == if x == [] then [] else [x]
  {
    assert x[..|x|] == x;
  }

  /** A break splits the text in two: the lines of the text are those before
      it followed by those after it. Runs of breaks, "\r\n" pairs and lone
      "\r" or "\n" therefore never produce an empty line or lose a character. */
  lemma SplitLinesBreak(x: string, b: char, y: string)
    requires IsBreak(b)
    ensures SplitLines(x + [b] + y) == SplitLines(x) + SplitLines(y)
  {
    Around(x, b, y);
    SplitLinesBreakAt(x + [b] + y, |x|);
  }

  /** SplitLinesBreak on one text, at the position of any of its breaks. */
  lemma {:induction false} SplitLinesBreakAt(s: string, n: nat)
    requires n < |s| && IsBreak(s[n])
    ensures SplitLines(s) == SplitLines(s[..n]) + SplitLines(s[n + 1..])
    decreases |s|
  {
    var k := LineBreak(s);
    if k == n {
      SplitLinesFirst(s, n);
    } else if k + BreakWidth(s, k) <= n {
      var m := k + BreakWidth(s, k);
      SplitLinesBreakAt(s[m..], n - m);
      SplitLinesLater(s, n, k, m);
    } else {
      SplitLinesPair(s, n, k);
    }
  }

  /** The induction step of SplitLinesBreakAt: an earlier break whose
      separator ends before position n. */
  lemma SplitLinesLater(s: string, n: nat, k: nat, m: nat)
    requires n < |s| && k == LineBreak(s) && k < n && m == k + BreakWidth(s, k) && m <= n
    requires SplitLines(s[m..]) == SplitLines(s[m..][..n - m]) + SplitLines(s[m..][n - m + 1..])
    ensures SplitLines(s) == SplitLines(s[..n]) + SplitLines(s[n + 1..])
  {
    var h := if k == 0 then [] else [s[..k]];
    assert SplitLines(s) == h + SplitLines(s[m..]) by {
      SplitLinesAt(s, k, m - k);
    }
    SplitLinesPrefix(s, n, k, m);
    SliceSlice(s, m, n);
    Assoc(h, SplitLines(s[m..n]), SplitLines(s[n + 1..]));
  }

  /** The cut at n keeps the lines before the first break. */
  lemma SplitLinesPrefix(s: string, n: nat, k: nat, m: nat)
    requires n <= |s| && k == LineBreak(s) && k < n && m == k + BreakWidth(s, k) && m <= n
    ensures SplitLines(s[..n]) == (if k == 0 then [] else [s[..k]]) + SplitLines(s[m..n])
  {
    var p := s[..n];
    LineBreakIs(p, k);
    assert BreakWidth(p, k) == m - k;
    SplitLinesAt(p, k, m - k);
    assert p[..k] == s[..k];
    assert p[m..] == s[m..n];
  }

  /** The other case of SplitLinesBreakAt: a "\r" just before the break at n. */
  lemma SplitLinesPair(s: string, n: nat, k: nat)
    requires n < |s| && k == LineBreak(s) && k < n && n < k + BreakWidth(s, k)
    ensures SplitLines(s) == SplitLines(s[..n]) + SplitLines(s[n + 1..])
  {
    var p := s[..n];
    var h := if k == 0 then [] else [s[..k]];
    assert n == k + 1;
    assert SplitLines(s) == h + SplitLines(s[n + 1..]) by {
      SplitLinesAt(s, k, 2);
    }
    assert SplitLines(p) == h by {
      LineBreakIs(p, k);
      SplitLinesAt(p, k, 1);
      assert p[..k] == s[..k];
      assert p[k + 1..] == [];
    }
  }

  /** SplitLinesBreakAt at the first break. */
  lemma SplitLinesFirst(s: string, n: nat)
    requires n < |s| && n == LineBreak(s)
    ensures SplitLines(s) == SplitLines(s[..n]) + SplitLines(s[n + 1..])
  {
    var w := BreakWidth(s, n);
    assert SplitLines(s) == SplitLines(s[..n]) + SplitLines(s[n + w..]) by {
      SplitLinesAt(s, n, w);
      SplitLinesPlain(s[..n]);
    }
    if w == 2 {
      SliceDrop(s, n + 1);
      SplitLinesNewline(s[n + 1..]);
    }
  }

  /** A leading "\n" adds no line. */
  lemma SplitLinesNewline(t: string)
    requires t != [] && t[0] == '\n'
    ensures SplitLines(t) == SplitLines(t[1..])
  {
    LineBreakIs(t, 0);
    SplitLinesAt(t, 0, 1);
  }

  /** The lines of a text holding a break: the text before the first break,
      when not empty, then the lines after its separator. */
  lemma SplitLinesAt(s: string, k: nat, w: nat)
    requires k == LineBreak(s) && k < |s| && w == BreakWidth(s, k)
    ensures SplitLines(s) == (if k == 0 then [] else [s[..k]]) + SplitLines(s[k + w..])
  {
  }

  /** The conditions of LineBreak pin the position down. */
  lemma LineBreakIs(s: string, k: nat)
    requires k <= |s|
    requires forall i :: 0 <= i < k ==> !IsBreak(s[i])
    requires k < |s| ==> IsBreak(s[k])
    ensures LineBreak(s) == k
  {
  }

  /** Splitting lines joined with "\n" gives the lines back, when none is
      empty and none holds a line break. */
  lemma {:induction false} SplitLinesJoin(lines: seq<string>)
    requires forall i :: 0 <= i < |lines| ==> IsLine(lines[i])
    ensures SplitLines(Join(lines, '\n')) == lines
  {
    if |lines| == 1 {
      SplitLinesOne(lines[0], []);
      assert lines[0] + [] == lines[0];
      assert lines == [lines[0]];
    } else if |lines| > 1 {
      var rest := Join(lines[1..], '\n');
      SplitLinesOne(lines[0], ['\n'] + rest);
      assert Join(lines, '\n') == lines[0] + (['\n'] + rest);
      SplitLinesJoin(lines[1..]);
      assert lines == [lines[0]] + lines[1..];
    }
  }

  /** A line followed by nothing, or by "\n" and more text, is split off whole. */
  lemma SplitLinesOne(x: string, y: string)
    requires IsLine(x)
    requires y == [] || y[0] == '\n'
    ensures SplitLines(x + y) == [x] + (if y == [] then [] else SplitLines(y[1..]))
  {
    var s := x + y;
    LineBreakAt(x, y);
    assert s[..|x|] == x;
    if y != [] {
      assert s[|x|] == '\n';
      assert s[|x| + 1..] == y[1..];
    }
  }

  /** Every character of every line comes from the split text. */
  lemma {:induction false} SplitLinesChars(s: string, c: char)
    requires c !in s
    ensures forall i :: 0 <= i < |SplitLines(s)| ==> c !in SplitLines(s)[i]
    decreases |s|
  {
    var k := LineBreak(s);
    if k < |s| {
      var t := s[k + BreakWidth(s, k)..];
      assert c !in t by {
        assert forall j :: 0 <= j < |t| ==> t[j] == s[j + k + BreakWidth(s, k)];
      }
      SplitLinesChars(t, c);
    }
    assert c !in s[..k];
  }

  /** A line without breaks ends at the first break after it. */
  lemma LineBreakAt(x: string, y: string)
    requires forall j :: 0 <= j < |x| ==> !IsBreak(x[j])
    requires y == [] || IsBreak(y[0])
    ensures LineBreak(x + y) == |x|
  {
    assert forall i :: 0 <= i < |x| ==> (x + y)[i] == x[i];
    assert y != [] ==> (x + y)[|x|] == y[0];
  }

  // ---------------------------------------------------------------------------
  // string.Join(' ', chars)

  /** The characters of `s` separated by single spaces. */
  function Spaced(s: string): (r: string)
    ensures |r| == if s == [] then 0 else 2 * |s| - 1
    ensures forall i :: 0 <= i < |r| ==> r[i] == if i % 2 == 0 then s[i / 2] else ' '
  {
    if |s| <= 1 then s else [s[0], ' '] + Spaced(s[1..])
  }

  /** Removing the spaces from the spaced-out text gives the text back,
      when it holds no space of its own. */
  lemma {:induction false} StripSpaced(s: string)
    requires ' ' !in s
    ensures Strip(Spaced(s), ' ') == s
  {
    if |s| > 1 {
      StripAppend([s[0], ' '], Spaced(s[1..]), ' ');
      assert [s[0], ' '][1..] == [' '];
      assert Strip([s[0], ' '], ' ') == [s[0]];
      assert ' ' !in s[1..];
      StripSpaced(s[1..]);
      assert s == [s[0]] + s[1..];
    }
  }

  // ---------------------------------------------------------------------------
  // Sequence bookkeeping used by the proofs above and in the other modules

  lemma NoEmpty<T>(a: seq<T>, b: seq<T>)
    ensures a + b + [] == a + b && [] + a + b == a + b
  {
  }

  lemma Regroup<T>(a: seq<T>, b: seq<T>, c: seq<T>, d: seq<T>, e: seq<T>)
    ensures a + (b + c + d) + e == (a + b) + c + (d + e)
  {
  }

  lemma SplitAt<T>(s: seq<T>, k: nat)
    requires k < |s|
    ensures s == s[..k] + [s[k]] + s[k + 1..]
  {
  }

  lemma HeadTail<T>(s: seq<T>)
    requires s != []
    ensures s == [s[0]] + s[1..]
  {
  }

  /** The pieces of `a`, then `x`, then `b`, read back by position. */
  lemma Around<T>(a: seq<T>, x: T, b: seq<T>)
    ensures forall i :: 0 <= i < |a| ==> (a + [x] + b)[i] == a[i]
    ensures (a + [x] + b)[|a|] == x
    ensures (a + [x] + b)[..|a|] == a && (a + [x] + b)[|a| + 1..] == b
  {
  }

  /** A non-empty sequence is its front followed by its last element. */
  lemma LastSplit<T>(s: seq<T>)
    requires s != []
    ensures s == s[..|s| - 1] + [s[|s| - 1]]
  {
  }

  /** A prefix one longer is the prefix followed by the next element. */
  lemma PrefixStep<T>(s: seq<T>, i: nat)
    requires i < |s|
    ensures s[..i + 1] == s[..i] + [s[i]]
  {
  }

  lemma SliceDrop<T>(s: seq<T>, i: nat)
    requires i < |s|
    ensures s[i..][1..] == s[i + 1..]
  {
  }

  lemma SliceSlice<T>(s: seq<T>, m: nat, n: nat)
    requires m <= n < |s|
    ensures s[m..][..n - m] == s[m..n] && s[m..][n - m + 1..] == s[n + 1..]
  {
  }

  lemma Assoc<T>(a: seq<T>, b: seq<T>, c: seq<T>)
    ensures a + (b + c) == a + b + c
  {
  }

  lemma DropTake<T>(s: seq<T>, a: nat, b: nat)
    requires a <= b <= |s|
    ensures s[a..][..b - a] == s[a..b]
  {
  }
}
