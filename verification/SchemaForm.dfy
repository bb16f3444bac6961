/**
 * The canonical form two schema texts are compared by: lines trimmed, white space collapsed, blank and
 * bare `*` lines dropped, sorted. It forgets the order of the lines and how they are spaced, and
 * nothing else.
 */
module SchemaForm {
  import opened Text

  // ---------- the canonical form ----------

  /** `line.replace(/\s+/g, " ")`. */
  function CollapseSpaces(s: string): string {
    if s == "" then ""
    else if !IsSpace(s[0]) then [s[0]] + CollapseSpaces(s[1..])
    else if |s| > 1 && IsSpace(s[1]) then CollapseSpaces(s[1..])
    else " " + CollapseSpaces(s[1..])
  }

  function Clean(line: string): string {
    CollapseSpaces(Trim(line))
  }

  function CleanLines(lines: seq<string>): seq<string> {
    if lines == [] then []
    else (if Clean(lines[0]) in {"", "*"} then [] else [Clean(lines[0])]) + CleanLines(lines[1..])
  }

  /** `lines.sort()`; `SortedOnce` below leaves no other result to any sorting method. */
  function Sort(lines: seq<string>): seq<string> {
    if lines == [] then [] else Insert(lines[0], Sort(lines[1..]))
  }

  function Insert(line: string, sorted: seq<string>): seq<string> {
    if sorted == [] || AtMost(line, sorted[0]) then [line] + sorted else [sorted[0]] + Insert(line, sorted[1..])
  }

  function NormaliseSchemaForComparison(schema: string): string {
    Join(Sort(CleanLines(SplitLines(schema))), "\n")
  }

  // ---------- a line is its words ----------

  /** The maximal runs of anything but white space. */
  function Words(s: string): (words: seq<string>)
    ensures forall i :: 0 <= i < |words| ==> IsWord(words[i])
    ensures s != "" && !IsSpace(s[0]) ==> words != []
  {
    if s == "" then []
    else if IsSpace(s[0]) then Words(s[1..])
    else
      var rest := Words(s[1..]);
      if |s| > 1 && !IsSpace(s[1]) then [[s[0]] + rest[0]] + rest[1..] else [[s[0]]] + rest
  }

  predicate IsWord(w: string) {
    w != "" && forall c :: c in w ==> !IsSpace(c)
  }

  predicate AllWords(words: seq<string>) {
    forall i :: 0 <= i < |words| ==> IsWord(words[i])
  }

  lemma JoinOfHead(head: string, words: seq<string>, glue: string)
    requires words != []
    ensures Join([head + words[0]] + words[1..], glue) == head + Join(words, glue)
  {
    if |words| > 1 {
      assert ([head + words[0]] + words[1..])[1..] == words[1..];
    }
  }

  /** Past a leading space, collapsing a text that ends in no space glues its words together. */
  lemma {:induction false} CollapsedWords(s: string)
    requires s == "" || !IsSpace(s[|s| - 1])
    ensures CollapseSpaces(s) == (if s != "" && IsSpace(s[0]) then " " else "") + Join(Words(s), " ")
  {
    hide IsSpace;
    if s != "" {
      var tail := s[1..];
      CollapsedWords(tail);
      if !IsSpace(s[0]) {
        if tail != "" && !IsSpace(tail[0]) {
          JoinOfHead([s[0]], Words(tail), " ");
        } else if tail != "" {
          WordsOfText(tail);
          assert Words(s)[1..] == Words(tail);
        }
      }
    }
  }

  lemma {:induction false} WordsOfText(s: string)
    requires s != "" && !IsSpace(s[|s| - 1])
    ensures Words(s) != []
  {
    if IsSpace(s[0]) {
      WordsOfText(s[1..]);
    }
  }

  lemma {:induction false} WordsOfTrailing(s: string, c: char)
    requires IsSpace(c)
    ensures Words(s + [c]) == Words(s)
  {
    hide IsSpace;
    if s == "" {
      assert (s + [c])[1..] == "";
    } else {
      assert (s + [c])[1..] == s[1..] + [c];
      WordsOfTrailing(s[1..], c);
    }
  }

  lemma {:induction false} WordsOfTrimEnd(s: string)
    ensures Words(TrimEnd(s)) == Words(s)
  {
    hide IsSpace;
    if s != "" && IsSpace(s[|s| - 1]) {
      WordsOfTrimEnd(s[..|s| - 1]);
      WordsOfTrailing(s[..|s| - 1], s[|s| - 1]);
      assert s == s[..|s| - 1] + [s[|s| - 1]];
    }
  }

  lemma {:induction false} WordsOfTrimStart(s: string)
    ensures Words(TrimStart(s)) == Words(s)
  {
    hide IsSpace;
    if s != "" && IsSpace(s[0]) {
      WordsOfTrimStart(s[1..]);
    }
  }

  /** A cleaned line is its words with one space between them, so it says which words and nothing more. */
  lemma CleanIsItsWords(line: string)
    ensures Clean(line) == Join(Words(line), " ")
  {
    hide IsSpace, TrimStart, TrimEnd, Words, CollapseSpaces;
    TrimTrims(line);
    CollapsedWords(Trim(line));
    WordsOfTrimStart(line);
    WordsOfTrimEnd(TrimStart(line));
  }

  lemma WordIsUnspaced(words: seq<string>)
    requires AllWords(words)
    ensures forall i :: 0 <= i < |words| ==> ' ' !in words[i]
  {
  }

  lemma JoinedWordsApart(words: seq<string>, others: seq<string>)
    requires AllWords(words) && AllWords(others)
    ensures Join(words, " ") == Join(others, " ") <==> words == others
  {
    hide IsWord, Split;
    WordIsUnspaced(words);
    WordIsUnspaced(others);
    JoinedIsEmpty(words);
    JoinedIsEmpty(others);
    if words != [] && others != [] {
      SplitOfJoin(words, ' ');
      SplitOfJoin(others, ' ');
    }
  }

  lemma JoinedIsEmpty(words: seq<string>)
    requires AllWords(words)
    ensures Join(words, " ") == "" <==> words == []
  {
  }

  // ---------- sorting ----------

  predicate IsSorted(lines: seq<string>) {
    forall i, j :: 0 <= i < j < |lines| ==> AtMost(lines[i], lines[j])
  }

  lemma AtMostOrder(a: string, b: string, c: string)
    ensures AtMost(a, a)
    ensures AtMost(a, b) || AtMost(b, a)
    ensures AtMost(a, b) && AtMost(b, a) ==> a == b
    ensures AtMost(a, b) && AtMost(b, c) ==> AtMost(a, c)
  {
    hide Less;
    LessIrreflexive(a);
    LessTotal(a, b);
    LessTotal(b, c);
    if Less(a, b) {
      LessAsymmetric(a, b);
    }
    if Less(c, a) && !Less(b, a) && a != b {
      LessTransitive(c, a, b);
    }
  }

  lemma {:induction false} InsertSorts(line: string, sorted: seq<string>)
    requires IsSorted(sorted)
    ensures IsSorted(Insert(line, sorted))
    ensures multiset(Insert(line, sorted)) == multiset{line} + multiset(sorted)
  {
    hide AtMost;
    if sorted == [] || AtMost(line, sorted[0]) {
      forall j | 0 <= j < |sorted| ensures AtMost(line, sorted[j]) {
        AtMostOrder(line, sorted[0], sorted[j]);
      }
    } else {
      InsertSorts(line, sorted[1..]);
      assert sorted == [sorted[0]] + sorted[1..];
      AtMostOrder(line, sorted[0], sorted[0]);
      var rest := Insert(line, sorted[1..]);
      forall j | 0 <= j < |rest| ensures AtMost(sorted[0], rest[j]) {
        assert rest[j] in multiset(rest);
        if rest[j] != line {
          assert rest[j] in multiset(sorted[1..]);
        }
      }
    }
  }

  lemma {:induction false} SortSorts(lines: seq<string>)
    ensures IsSorted(Sort(lines)) && multiset(Sort(lines)) == multiset(lines)
  {
    if lines != [] {
      SortSorts(lines[1..]);
      InsertSorts(lines[0], Sort(lines[1..]));
      assert lines == [lines[0]] + lines[1..];
    }
  }

  lemma TailMultiset(lines: seq<string>)
    requires lines != []
    ensures multiset(lines[1..]) == multiset(lines) - multiset{lines[0]}
  {
    assert lines == [lines[0]] + lines[1..];
  }

  lemma SmallestFirst(a: seq<string>, b: seq<string>)
    requires IsSorted(a) && a != [] && b != [] && b[0] in multiset(a)
    ensures AtMost(a[0], b[0])
  {
    hide AtMost;
    var j :| 0 <= j < |a| && a[j] == b[0];
    AtMostOrder(a[0], a[0], a[0]);
  }

  /** There is one way to sort a collection of lines. */
  lemma {:induction false} SortedOnce(a: seq<string>, b: seq<string>)
    requires IsSorted(a) && IsSorted(b) && multiset(a) == multiset(b)
    ensures a == b
  {
    hide AtMost, IsSorted;
    assert |a| == |multiset(a)| && |b| == |multiset(b)|;
    if a != [] {
      assert a[0] in multiset(a) && b[0] in multiset(b);
      SmallestFirst(a, b);
      SmallestFirst(b, a);
      AtMostOrder(a[0], b[0], a[0]);
      TailMultiset(a);
      TailMultiset(b);
      TailSorted(a);
      TailSorted(b);
      SortedOnce(a[1..], b[1..]);
      assert a == [a[0]] + a[1..] && b == [b[0]] + b[1..];
    }
  }

  lemma TailSorted(lines: seq<string>)
    requires IsSorted(lines) && lines != []
    ensures IsSorted(lines[1..])
  {
  }

  // ---------- what the form decides ----------

  /** The declarations of a schema: each line's words, but for blank lines and bare `*` lines. */
  function WordLines(lines: seq<string>): seq<seq<string>> {
    if lines == [] then []
    else (if Words(lines[0]) in {[], ["*"]} then [] else [Words(lines[0])]) + WordLines(lines[1..])
  }

  function Joined(wordLines: seq<seq<string>>): (lines: seq<string>)
    ensures |lines| == |wordLines|
    ensures forall i :: 0 <= i < |lines| ==> lines[i] == Join(wordLines[i], " ")
  {
    if wordLines == [] then [] else [Join(wordLines[0], " ")] + Joined(wordLines[1..])
  }

  predicate AllDeclarations(wordLines: seq<seq<string>>) {
    forall i :: 0 <= i < |wordLines| ==> AllWords(wordLines[i]) && wordLines[i] !in {[], ["*"]}
  }

  lemma {:induction false} CleanLinesAreWordLines(lines: seq<string>)
    ensures CleanLines(lines) == Joined(WordLines(lines))
    ensures AllDeclarations(WordLines(lines))
  {
    hide Clean, Words, IsWord;
    if lines != [] {
      CleanLinesAreWordLines(lines[1..]);
      CleanIsItsWords(lines[0]);
      assert AllWords(Words(lines[0])) && AllWords([]) && AllWords(["*"]) by { WordsAreWords(lines[0]); }
      JoinedWordsApart(Words(lines[0]), []);
      JoinedWordsApart(Words(lines[0]), ["*"]);
    }
  }

  lemma WordsAreWords(line: string)
    ensures AllWords(Words(line)) && AllWords([]) && AllWords(["*"])
  {
  }

  lemma {:induction false} JoinedCounts(wordLines: seq<seq<string>>, words: seq<string>)
    requires AllDeclarations(wordLines) && AllWords(words)
    ensures multiset(Joined(wordLines))[Join(words, " ")] == multiset(wordLines)[words]
  {
    hide Join, AllWords;
    if wordLines != [] {
      JoinedCounts(wordLines[1..], words);
      JoinedWordsApart(wordLines[0], words);
      assert wordLines == [wordLines[0]] + wordLines[1..];
      assert Joined(wordLines) == [Join(wordLines[0], " ")] + Joined(wordLines[1..]);
    }
  }

  lemma JoinedSame(a: seq<seq<string>>, b: seq<seq<string>>)
    requires AllDeclarations(a) && AllDeclarations(b)
    ensures multiset(Joined(a)) == multiset(Joined(b)) <==> multiset(a) == multiset(b)
  {
    hide Join, AllWords;
    if multiset(a) == multiset(b) {
      forall line | line in multiset(Joined(a)) || line in multiset(Joined(b))
        ensures multiset(Joined(a))[line] == multiset(Joined(b))[line]
      {
        var words :| AllWords(words) && line == Join(words, " ") by {
          if line in Joined(a) {
            LineHasWords(a, line);
          } else {
            LineHasWords(b, line);
          }
        }
        JoinedCounts(a, words);
        JoinedCounts(b, words);
      }
      SameCounts(multiset(Joined(a)), multiset(Joined(b)));
    } else if multiset(Joined(a)) == multiset(Joined(b)) {
      forall words | words in multiset(a) || words in multiset(b) ensures multiset(a)[words] == multiset(b)[words] {
        assert AllWords(words);
        JoinedCounts(a, words);
        JoinedCounts(b, words);
      }
      SameCounts(multiset(a), multiset(b));
    }
  }

  lemma LineHasWords(wordLines: seq<seq<string>>, line: string)
    requires AllDeclarations(wordLines) && line in Joined(wordLines)
    ensures exists words :: AllWords(words) && line == Join(words, " ")
  {
    hide AllWords;
    var i :| 0 <= i < |wordLines| && Joined(wordLines)[i] == line;
    assert AllWords(wordLines[i]);
  }

  lemma SameCounts<T>(a: multiset<T>, b: multiset<T>)
    requires forall x :: x in a || x in b ==> a[x] == b[x]
    ensures a == b
  {
  }

  /** Lines as they are glued: no break in them, none empty. */
  predicate IsLineList(lines: seq<string>) {
    forall i :: 0 <= i < |lines| ==> '\n' !in lines[i] && lines[i] != ""
  }

  lemma JoinedLinesApart(a: seq<string>, b: seq<string>)
    requires IsLineList(a) && IsLineList(b)
    ensures Join(a, "\n") == Join(b, "\n") <==> a == b
  {
    hide Split;
    JoinedLinesEmpty(a);
    JoinedLinesEmpty(b);
    if a != [] && b != [] {
      SplitOfJoin(a, '\n');
      SplitOfJoin(b, '\n');
    }
  }

  lemma JoinedLinesEmpty(lines: seq<string>)
    requires IsLineList(lines)
    ensures Join(lines, "\n") == "" <==> lines == []
  {
  }

  /** The words of the form's lines are not broken by line ends. */
  lemma {:induction false} JoinWithoutBreak(words: seq<string>)
    requires AllWords(words)
    ensures '\n' !in Join(words, " ")
    ensures words != [] ==> var line := Join(words, " "); line != "" && !IsSpace(line[|line| - 1])
  {
    if |words| > 1 {
      JoinWithoutBreak(words[1..]);
    } else if words != [] {
      var w := words[0];
      assert w[|w| - 1] in w;
    }
  }

  /** A line the form can hold: one declaration's words with one space between them. */
  ghost predicate IsFormLine(line: string) {
    exists words :: AllWords(words) && words !in {[], ["*"]} && line == Join(words, " ")
  }

  lemma FormLines(schema: string) returns (lines: seq<string>)
    ensures lines == Sort(CleanLines(SplitLines(schema)))
    ensures IsLineList(lines) && IsSorted(lines)
    ensures multiset(lines) == multiset(Joined(WordLines(SplitLines(schema))))
    ensures forall i :: 0 <= i < |lines| ==> IsFormLine(lines[i])
  {
    hide IsWord, SplitLines, Sort, Join, IsSpace;
    var wordLines := WordLines(SplitLines(schema));
    CleanLinesAreWordLines(SplitLines(schema));
    lines := Sort(CleanLines(SplitLines(schema)));
    SortSorts(CleanLines(SplitLines(schema)));
    forall i | 0 <= i < |lines|
      ensures '\n' !in lines[i] && lines[i] != ""
      ensures IsFormLine(lines[i])
    {
      assert lines[i] in multiset(Joined(wordLines));
      var k :| 0 <= k < |wordLines| && Joined(wordLines)[k] == lines[i];
      JoinWithoutBreak(wordLines[k]);
    }
  }

  /**
   * Two schemas have the same form exactly when they hold the same lines, each as often, in any order
   * and however spaced, blank and bare `*` lines aside.
   */
  lemma SameFormExactly(a: string, b: string)
    ensures NormaliseSchemaForComparison(a) == NormaliseSchemaForComparison(b)
            <==> multiset(WordLines(SplitLines(a))) == multiset(WordLines(SplitLines(b)))
  {
    hide SplitLines, Sort, Join, IsSorted, AllDeclarations;
    var la := FormLines(a);
    var lb := FormLines(b);
    JoinedLinesApart(la, lb);
    CleanLinesAreWordLines(SplitLines(a));
    CleanLinesAreWordLines(SplitLines(b));
    JoinedSame(WordLines(SplitLines(a)), WordLines(SplitLines(b)));
    if multiset(la) == multiset(lb) {
      SortedOnce(la, lb);
    }
  }

  // ---------- idempotence ----------

  /** No carriage return before the break that follows. */
  predicate EndsOpen(line: string) {
    line != "" && line[|line| - 1] != '\r'
  }

  lemma {:induction false} NoReturns(lines: seq<string>)
    requires forall i :: 0 <= i < |lines| ==> EndsOpen(lines[i])
    ensures WithoutReturns(lines) == lines
  {
    if lines != [] {
      NoReturns(lines[1..]);
      assert lines == [lines[0]] + lines[1..];
    }
  }

  lemma {:induction false} WordsOfWord(w: string, tail: string)
    requires IsWord(w) && (tail == "" || IsSpace(tail[0]))
    ensures Words(w + tail) == [w] + Words(tail)
  {
    var s := w + tail;
    assert s[0] in w;
    if |w| == 1 {
      assert w == [w[0]] && s[1..] == tail;
    } else {
      assert w[1] in w && s[1] == w[1];
      assert s[1..] == w[1..] + tail;
      WordsOfWord(w[1..], tail);
      assert w == [w[0]] + w[1..];
      assert Words(s) == [[s[0]] + w[1..]] + Words(tail);
    }
  }

  lemma {:induction false} WordsOfJoin(words: seq<string>)
    requires AllWords(words)
    ensures Words(Join(words, " ")) == words
  {
    hide IsSpace, IsWord;
    if |words| == 1 {
      WordsOfWord(words[0], "");
      assert words[0] + "" == words[0];
    } else if words != [] {
      var rest := Join(words[1..], " ");
      WordsOfJoin(words[1..]);
      assert IsSpace(' ') by { BlankIsSpace(); }
      WordsOfWord(words[0], " " + rest);
      assert Join(words, " ") == words[0] + (" " + rest);
      assert (" " + rest)[1..] == rest;
    }
  }

  lemma BlankIsSpace()
    ensures IsSpace(' ') && IsSpace('\r') && IsSpace('\n')
  {
  }

  lemma CleanStays(line: string)
    requires IsFormLine(line)
    ensures Clean(line) == line && line !in {"", "*"}
  {
    hide IsWord, AllWords, Join, Clean;
    var words :| AllWords(words) && words !in {[], ["*"]} && line == Join(words, " ");
    CleanIsItsWords(line);
    WordsOfJoin(words);
    WordsAreWords("");
    JoinedWordsApart(words, []);
    JoinedWordsApart(words, ["*"]);
    JoinOfFew();
  }

  /** Lines that are already in the form are left as they are. */
  lemma {:induction false} CleanLinesStay(lines: seq<string>)
    requires forall i :: 0 <= i < |lines| ==> IsFormLine(lines[i])
    ensures CleanLines(lines) == lines
  {
    hide IsWord, AllWords, Join, Clean, IsFormLine;
    if lines != [] {
      CleanLinesStay(lines[1..]);
      CleanStays(lines[0]);
      assert lines == [lines[0]] + lines[1..];
    }
  }

  lemma JoinOfFew()
    ensures Join([], " ") == "" && Join(["*"], " ") == "*"
  {
  }

  lemma FormLineEnd(line: string)
    requires IsFormLine(line)
    ensures EndsOpen(line)
  {
    hide IsWord, IsSpace;
    var words :| AllWords(words) && words !in {[], ["*"]} && line == Join(words, " ");
    JoinWithoutBreak(words);
    BlankIsSpace();
  }

  lemma SplitLinesOfForm(lines: seq<string>)
    requires IsLineList(lines) && lines != [] && forall i :: 0 <= i < |lines| ==> IsFormLine(lines[i])
    ensures SplitLines(Join(lines, "\n")) == lines
  {
    hide *;
    var front := lines[..|lines| - 1];
    SplitOfLines(lines);
    forall i | 0 <= i < |front| ensures EndsOpen(front[i]) {
      FormLineEnd(lines[i]);
    }
    NoReturns(front);
    SplitLinesOpen(Join(lines, "\n"), front, lines[|lines| - 1]);
    assert lines == front + [lines[|lines| - 1]];
  }

  lemma SplitLinesOpen(schema: string, front: seq<string>, last: string)
    requires Split(schema, '\n') == front + [last] && WithoutReturns(front) == front
    ensures SplitLines(schema) == front + [last]
  {
    hide Split, WithoutReturns;
    assert (front + [last])[..|front|] == front;
  }

  lemma SplitOfLines(lines: seq<string>)
    requires IsLineList(lines) && lines != []
    ensures Split(Join(lines, "\n"), '\n') == lines
  {
    hide Split, Join;
    SplitOfJoin(lines, '\n');
  }

  lemma SortedStays(lines: seq<string>)
    requires IsSorted(lines)
    ensures Sort(lines) == lines
  {
    hide Sort, IsSorted;
    SortSorts(lines);
    SortedOnce(Sort(lines), lines);
  }

  /** The form of the form is the form. */
  lemma FormIsFinal(schema: string)
    ensures NormaliseSchemaForComparison(NormaliseSchemaForComparison(schema)) == NormaliseSchemaForComparison(schema)
  {
    hide SplitLines, CleanLines, Sort, Join, IsSorted, IsFormLine, IsLineList, Joined, WordLines;
    var lines := FormLines(schema);
    if lines == [] {
      EmptyForm();
      JoinedLinesEmpty(lines);
    } else {
      SplitLinesOfForm(lines);
      CleanLinesStay(lines);
      SortedStays(lines);
    }
  }

  lemma EmptyForm()
    ensures NormaliseSchemaForComparison("") == ""
  {
    hide SplitLines, CleanLines, IsSpace;
    EmptySplits();
    BlankIsDropped();
  }

  lemma EmptySplits()
    ensures SplitLines("") == [""]
  {
    assert Split("", '\n') == [""];
    assert [""][..0] == [];
  }

  lemma BlankIsDropped()
    ensures CleanLines([""]) == []
  {
    hide IsSpace, CleanLines;
    assert Clean("") == "" by {
      assert TrimStart("") == "" && TrimEnd("") == "";
    }
    DroppedAlone("");
  }

  lemma DroppedAlone(line: string)
    requires Clean(line) == ""
    ensures CleanLines([line]) == []
  {
    hide Clean;
  }
}
