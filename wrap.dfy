/**
 Greedy word wrapping (`wrap_text`).  The text is split on whitespace and
 words are packed into lines: a word joins the current line when the
 measured width of the line with it stays within the limit, and otherwise
 starts a new line.  The measurement is the font's `getbbox(...)[2]`,
 taken here as an arbitrary integer-valued function of the string.

 A wrap is described by its groups of words, one group per line.
 `IsGreedyWrap` says what the greedy loop produces without saying how;
 `WrapUnique` shows that it pins the groups down completely.
 */
module Wrap {
  import opened PyStr

  /** The words of all groups, in order. */
  function Flatten(groups: seq<seq<string>>): seq<string> {
    if groups == [] then [] else groups[0] + Flatten(groups[1..])
  }

  /** The lines that the groups print as: each group joined by single spaces. */
  function LinesOf(groups: seq<seq<string>>): (lines: seq<string>)
    ensures |lines| == |groups|
  {
    seq(|groups|, i requires 0 <= i < |groups| => JoinWords(groups[i]))
  }

  /** The words of each line. */
  function WordsOfLines(lines: seq<string>): (groups: seq<seq<string>>)
    ensures |groups| == |lines|
  {
    seq(|lines|, i requires 0 <= i < |lines| => Split(lines[i]))
  }

  /** Every prefix of two or more words of a line fits: the loop only ever
      adds a word to a line after measuring the line with it. */
  ghost predicate PrefixesFit(groups: seq<seq<string>>, width: string -> int, maxWidth: int) {
    forall i, j :: 0 <= i < |groups| && 2 <= j <= |groups[i]| ==>
      width(JoinWords(groups[i][..j])) <= maxWidth
  }

  /** Every break is forced: a non-empty line followed by the first word of
      the next line is too wide. */
  ghost predicate BreaksForced(groups: seq<seq<string>>, width: string -> int, maxWidth: int) {
    forall i :: 0 <= i < |groups| - 1 && groups[i] != [] && groups[i + 1] != [] ==>
      width(JoinWords(groups[i] + [groups[i + 1][0]])) > maxWidth
  }

  /** The groups partition `words` into greedy lines.  Only the first line
      may be empty, and it is empty exactly when there are no words or the
      first word alone is too wide. */
  ghost predicate IsGreedyWrap(words: seq<string>, groups: seq<seq<string>>,
                               width: string -> int, maxWidth: int) {
    && |groups| >= 1
    && Flatten(groups) == words
    && (forall i :: 1 <= i < |groups| ==> groups[i] != [])
    && (groups[0] == [] <==> (words == [] || width(words[0]) > maxWidth))
    && PrefixesFit(groups, width, maxWidth)
    && BreaksForced(groups, width, maxWidth)
  }

  /** `wrap_text(text, font, max_width)`: the wrapped lines joined by newlines. */
  method WrapText(text: string, width: string -> int, maxWidth: int) returns (wrapped: string)
    ensures Split(wrapped) == Split(text)
    ensures Split(text) == [] ==> wrapped == ""
    ensures var lines := SplitOn(wrapped, '\n');
      && lines == LinesOf(WordsOfLines(lines))
      && IsGreedyWrap(Split(text), WordsOfLines(lines), width, maxWidth)
  {
    var lines: seq<string> := [];
    var words := Split(text);
    var currentLine := "";
    ghost var done: seq<seq<string>> := [];
    ghost var current: seq<string> := [];
    for i := 0 to |words|
      invariant WrapState(words, i, lines, currentLine, done, current, width, maxWidth)
    {
      var word := words[i];
      if width(currentLine + word) <= maxWidth {
        WordFits(words, i, lines, currentLine, done, current, width, maxWidth);
        currentLine := currentLine + word + " ";
        current := current + [word];
      } else {
        WordBreaks(words, i, lines, currentLine, done, current, width, maxWidth);
        lines := lines + [Strip(currentLine)];
        done := done + [current];
        current := [word];
        currentLine := word + " ";
      }
    }
    ghost var groups: seq<seq<string>>;
    if currentLine != "" {
      LastLine(words, lines, currentLine, done, current, width, maxWidth);
      lines := lines + [Strip(currentLine)];
      groups := done + [current];
    } else {
      NoWords(words, lines, currentLine, done, current, width, maxWidth);
      groups := [[]];
    }
    wrapped := JoinWith(lines, "\n");
    FinishWrap(words, groups, lines, wrapped);
  }

  // ---------------------------------------------------------------------
  // The loop's invariant and its steps

  /** After `i` words: `done` are the closed lines' words and `lines` their
      text, `current` the open line's words and `currentLine` its text with
      the trailing blank, and together they form the greedy wrap so far. */
  ghost predicate WrapState(words: seq<string>, i: int, lines: seq<string>, currentLine: string,
                            done: seq<seq<string>>, current: seq<string>,
                            width: string -> int, maxWidth: int) {
    && 0 <= i <= |words|
    && (forall k :: 0 <= k < |words| ==> IsWord(words[k]))
    && currentLine == (if current == [] then "" else JoinWords(current) + " ")
    && lines == LinesOf(done)
    && (i == 0 ==> done == [] && current == [])
    && (forall k :: 0 <= k < |current| ==> IsWord(current[k]))
    && (i > 0 ==> current != [] && IsGreedyWrap(words[..i], done + [current], width, maxWidth))
  }

  /** The word fits: it is appended to the open line. */
  lemma WordFits(words: seq<string>, i: int, lines: seq<string>, currentLine: string,
                 done: seq<seq<string>>, current: seq<string>,
                 width: string -> int, maxWidth: int)
    requires WrapState(words, i, lines, currentLine, done, current, width, maxWidth)
    requires i < |words| && width(currentLine + words[i]) <= maxWidth
    ensures WrapState(words, i + 1, lines, currentLine + words[i] + " ",
                      done, current + [words[i]], width, maxWidth)
  {
    var word := words[i];
    assert words[..i + 1] == words[..i] + [word];
    CandidateLine(current, word);
    if i == 0 {
      StartLine(word, width, maxWidth);
    } else {
      ExtendLine(words[..i], done, current, word, width, maxWidth);
    }
  }

  /** The word does not fit: the open line is closed (stripped of its
      trailing blank) and the word opens the next one. */
  lemma WordBreaks(words: seq<string>, i: int, lines: seq<string>, currentLine: string,
                   done: seq<seq<string>>, current: seq<string>,
                   width: string -> int, maxWidth: int)
    requires WrapState(words, i, lines, currentLine, done, current, width, maxWidth)
    requires i < |words| && width(currentLine + words[i]) > maxWidth
    ensures WrapState(words, i + 1, lines + [Strip(currentLine)], words[i] + " ",
                      done + [current], [words[i]], width, maxWidth)
  {
    var word := words[i];
    assert words[..i + 1] == words[..i] + [word];
    CandidateLine(current, word);
    if current != [] {
      JoinWordsShape(current);
      StripTrailingBlank(JoinWords(current));
    }
    assert Strip(currentLine) == JoinWords(current);
    assert lines + [Strip(currentLine)] == LinesOf(done + [current]);
    if i == 0 {
      StartLine(word, width, maxWidth);
    } else {
      BreakLine(words[..i], done, current, word, width, maxWidth);
    }
    assert JoinWords([word]) == word;
  }

  /** After the loop, a non-empty open line is the last line. */
  lemma LastLine(words: seq<string>, lines: seq<string>, currentLine: string,
                 done: seq<seq<string>>, current: seq<string>,
                 width: string -> int, maxWidth: int)
    requires WrapState(words, |words|, lines, currentLine, done, current, width, maxWidth)
    requires currentLine != ""
    ensures words != [] && current != []
    ensures lines + [Strip(currentLine)] == LinesOf(done + [current])
    ensures IsGreedyWrap(words, done + [current], width, maxWidth)
  {
    JoinWordsShape(current);
    StripTrailingBlank(JoinWords(current));
    assert words[..|words|] == words;
  }

  /** After the loop, an empty open line means there were no words. */
  lemma NoWords(words: seq<string>, lines: seq<string>, currentLine: string,
                done: seq<seq<string>>, current: seq<string>,
                width: string -> int, maxWidth: int)
    requires WrapState(words, |words|, lines, currentLine, done, current, width, maxWidth)
    requires currentLine == ""
    ensures words == [] && lines == []
    ensures IsGreedyWrap(words, [[]], width, maxWidth)
  {
    assert Flatten([[]]) == [] + Flatten([]);
  }

  /** The measured candidate is the current line's words and the new word
      joined by single spaces. */
  lemma CandidateLine(current: seq<string>, word: string)
    ensures (if current == [] then "" else JoinWords(current) + " ") + word == JoinWords(current + [word])
    ensures (if current == [] then "" else JoinWords(current) + " ") + word + " " == JoinWords(current + [word]) + " "
  {
    if current != [] {
      JoinWithSnoc(current, word, " ");
    } else {
      assert current + [word] == [word];
    }
  }

  lemma {:induction false} FlattenSnoc(groups: seq<seq<string>>, g: seq<string>)
    ensures Flatten(groups + [g]) == Flatten(groups) + g
  {
    if groups != [] {
      assert (groups + [g])[1..] == groups[1..] + [g];
      FlattenSnoc(groups[1..], g);
    }
  }

  /** The first word opens the first line, or, when it alone is too wide,
      the second line after an empty first one. */
  lemma StartLine(word: string, width: string -> int, maxWidth: int)
    ensures width(word) <= maxWidth ==> IsGreedyWrap([word], [] + [[word]], width, maxWidth)
    ensures width(word) > maxWidth ==> IsGreedyWrap([word], [[]] + [[word]], width, maxWidth)
  {
    assert Flatten([[word]]) == [word];
    assert Flatten([[], [word]]) == [word];
  }

  /** A word that fits extends the last line. */
  lemma ExtendLine(words: seq<string>, done: seq<seq<string>>, current: seq<string>,
                   word: string, width: string -> int, maxWidth: int)
    requires current != []
    requires IsGreedyWrap(words, done + [current], width, maxWidth)
    requires width(JoinWords(current + [word])) <= maxWidth
    ensures IsGreedyWrap(words + [word], done + [current + [word]], width, maxWidth)
  {
    var before, after := done + [current], done + [current + [word]];
    FlattenSnoc(done, current);
    FlattenSnoc(done, current + [word]);
    forall i, j | 0 <= i < |after| && 2 <= j <= |after[i]|
      ensures width(JoinWords(after[i][..j])) <= maxWidth
    {
      if i < |done| {
        assert after[i] == before[i];
      } else if j <= |current| {
        assert after[i][..j] == before[i][..j];
      } else {
        assert after[i][..j] == current + [word];
      }
    }
    forall i | 0 <= i < |after| - 1 && after[i] != [] && after[i + 1] != []
      ensures width(JoinWords(after[i] + [after[i + 1][0]])) > maxWidth
    {
      assert after[i] == before[i] && after[i + 1][0] == before[i + 1][0];
    }
    assert after[0] == [] <==> before[0] == [];
    assert |Flatten(before)| >= |current| > 0;
    assert (words + [word])[0] == words[0];
    assert Flatten(after) == words + [word];
    forall i | 1 <= i < |after|
      ensures after[i] != []
    {
      if i < |done| {
        assert after[i] == before[i];
      }
    }
  }

  /** A word that does not fit closes the last line and opens a new one. */
  lemma BreakLine(words: seq<string>, done: seq<seq<string>>, current: seq<string>,
                  word: string, width: string -> int, maxWidth: int)
    requires current != []
    requires IsGreedyWrap(words, done + [current], width, maxWidth)
    requires width(JoinWords(current + [word])) > maxWidth
    ensures IsGreedyWrap(words + [word], (done + [current]) + [[word]], width, maxWidth)
  {
    var before := done + [current];
    var after := before + [[word]];
    FlattenSnoc(before, [word]);
    forall i, j | 0 <= i < |after| && 2 <= j <= |after[i]|
      ensures width(JoinWords(after[i][..j])) <= maxWidth
    {
      assert after[i] == before[i];
    }
    forall i | 0 <= i < |after| - 1 && after[i] != [] && after[i + 1] != []
      ensures width(JoinWords(after[i] + [after[i + 1][0]])) > maxWidth
    {
      if i < |before| - 1 {
        assert after[i] == before[i] && after[i + 1] == before[i + 1];
      }
    }
  }

  /** Every word of every group is a word of the whole. */
  lemma {:induction false} GroupsOfWords(groups: seq<seq<string>>)
    requires forall k :: 0 <= k < |Flatten(groups)| ==> IsWord(Flatten(groups)[k])
    ensures forall i, k :: 0 <= i < |groups| && 0 <= k < |groups[i]| ==> IsWord(groups[i][k])
  {
    if groups != [] {
      var f := Flatten(groups);
      assert f == groups[0] + Flatten(groups[1..]);
      assert forall k :: 0 <= k < |groups[0]| ==> f[k] == groups[0][k];
      assert forall k :: 0 <= k < |Flatten(groups[1..])| ==> f[|groups[0]| + k] == Flatten(groups[1..])[k];
      GroupsOfWords(groups[1..]);
      forall i, k | 0 <= i < |groups| && 0 <= k < |groups[i]|
        ensures IsWord(groups[i][k])
      {
        if i > 0 {
          assert groups[i] == groups[1..][i - 1];
        }
      }
    }
  }

  /** Splitting the newline-joined lines on whitespace gives all words. */
  lemma {:induction false} SplitJoinedLines(groups: seq<seq<string>>)
    requires |groups| >= 1
    requires forall i, k :: 0 <= i < |groups| && 0 <= k < |groups[i]| ==> IsWord(groups[i][k])
    ensures Split(JoinWith(LinesOf(groups), "\n")) == Flatten(groups)
  {
    var lines := LinesOf(groups);
    SplitJoinWords(groups[0]);
    if |groups| == 1 {
      assert Flatten(groups) == groups[0] + Flatten([]);
    } else {
      assert lines[1..] == LinesOf(groups[1..]);
      assert JoinWith(lines, "\n") == lines[0] + ['\n'] + JoinWith(lines[1..], "\n");
      SplitAtSpace(lines[0], '\n', JoinWith(lines[1..], "\n"));
      SplitJoinedLines(groups[1..]);
    }
  }

  /** After the loop: the joined string splits back into the lines, the
      lines into the groups, and the groups form the greedy wrap. */
  lemma FinishWrap(words: seq<string>, groups: seq<seq<string>>, lines: seq<string>, wrapped: string)
    requires forall k :: 0 <= k < |words| ==> IsWord(words[k])
    requires |groups| >= 1 && Flatten(groups) == words
    requires words == [] ==> groups == [[]] && lines == []
    requires words != [] ==> lines == LinesOf(groups)
    requires wrapped == JoinWith(lines, "\n")
    ensures SplitOn(wrapped, '\n') == LinesOf(groups)
    ensures WordsOfLines(LinesOf(groups)) == groups
    ensures Split(wrapped) == words
  {
    GroupsOfWords(groups);
    var all := LinesOf(groups);
    forall i | 0 <= i < |groups|
      ensures Split(all[i]) == groups[i]
      ensures '\n' !in all[i]
    {
      SplitJoinWords(groups[i]);
      if groups[i] != [] {
        JoinWordsShape(groups[i]);
      }
    }
    assert WordsOfLines(all) == groups;
    if words == [] {
      assert all == [""];
    } else {
      SplitOnJoin(all, '\n');
      SplitJoinedLines(groups);
    }
  }

  // ---------------------------------------------------------------------
  // The greedy wrap is unique

  /** The first words of the flattening are the first group. */
  lemma FlattenHead(groups: seq<seq<string>>)
    requires groups != []
    ensures Flatten(groups) == groups[0] + Flatten(groups[1..])
    ensures |groups[0]| <= |Flatten(groups)|
    ensures Flatten(groups)[..|groups[0]|] == groups[0]
    ensures Flatten(groups)[|groups[0]|..] == Flatten(groups[1..])
  {
  }

  /** If the first line of `a` were shorter than that of `b`, the first
      line of `a` with the next word would be a prefix of `b`'s first line,
      so it would fit. */
  lemma ShorterFirstLineFits(a: seq<seq<string>>, b: seq<seq<string>>,
                             width: string -> int, maxWidth: int)
    requires a != [] && b != []
    requires forall i :: 0 <= i < |a| ==> a[i] != []
    requires Flatten(a) == Flatten(b)
    requires PrefixesFit(b, width, maxWidth)
    ensures |a[0]| < |b[0]| ==>
      |a| >= 2 && a[1] != [] && width(JoinWords(a[0] + [a[1][0]])) <= maxWidth
  {
    if |a[0]| < |b[0]| {
      var n := |a[0]|;
      var words := Flatten(a);
      FlattenHead(a);
      FlattenHead(b);
      assert |words| >= |b[0]| > n;
      assert |a| >= 2;
      FlattenHead(a[1..]);
      assert a[1..][0] == a[1];
      assert words[n] == a[1][0];
      assert b[0][..n + 1] == words[..n + 1] == a[0] + [a[1][0]];
      assert width(JoinWords(b[0][..n + 1])) <= maxWidth;
    }
  }

  /** The first line's groups condition carries over to the remaining lines. */
  lemma TailShape(g: seq<seq<string>>, width: string -> int, maxWidth: int)
    requires g != []
    requires PrefixesFit(g, width, maxWidth) && BreaksForced(g, width, maxWidth)
    ensures PrefixesFit(g[1..], width, maxWidth) && BreaksForced(g[1..], width, maxWidth)
  {
    assert forall i :: 0 <= i < |g| - 1 ==> g[1..][i] == g[i + 1];
  }

  /** Two wraps into non-empty greedy lines of the same words are equal. */
  lemma {:induction false} ChainUnique(a: seq<seq<string>>, b: seq<seq<string>>,
                                       width: string -> int, maxWidth: int)
    requires forall i :: 0 <= i < |a| ==> a[i] != []
    requires forall i :: 0 <= i < |b| ==> b[i] != []
    requires Flatten(a) == Flatten(b)
    requires PrefixesFit(a, width, maxWidth) && BreaksForced(a, width, maxWidth)
    requires PrefixesFit(b, width, maxWidth) && BreaksForced(b, width, maxWidth)
    ensures a == b
    decreases |a|
  {
    if a == [] || b == [] {
      if a != [] {
        FlattenHead(a);
      }
      if b != [] {
        FlattenHead(b);
      }
    } else {
      ShorterFirstLineFits(a, b, width, maxWidth);
      ShorterFirstLineFits(b, a, width, maxWidth);
      FlattenHead(a);
      FlattenHead(b);
      assert |a[0]| == |b[0]|;
      assert a[0] == b[0];
      TailShape(a, width, maxWidth);
      TailShape(b, width, maxWidth);
      ChainUnique(a[1..], b[1..], width, maxWidth);
      assert a == [a[0]] + a[1..] && b == [b[0]] + b[1..];
    }
  }

  /** The greedy wrap of a word sequence is unique: whatever produces a
      greedy wrap produces exactly the lines `wrap_text` does. */
  lemma WrapUnique(words: seq<string>, g1: seq<seq<string>>, g2: seq<seq<string>>,
                   width: string -> int, maxWidth: int)
    requires IsGreedyWrap(words, g1, width, maxWidth)
    requires IsGreedyWrap(words, g2, width, maxWidth)
    ensures g1 == g2
  {
    FlattenHead(g1);
    FlattenHead(g2);
    TailShape(g1, width, maxWidth);
    TailShape(g2, width, maxWidth);
    if g1[0] == [] {
      ChainUnique(g1[1..], g2[1..], width, maxWidth);
      assert g1 == [g1[0]] + g1[1..] && g2 == [g2[0]] + g2[1..];
    } else {
      ChainUnique(g1, g2, width, maxWidth);
    }
  }

  // ---------------------------------------------------------------------
  // What the greedy wrap means for the printed lines

  /** The printed lines of a greedy wrap: words are kept in order and
      single-spaced; a line of two or more words fits; a non-empty line
      followed by the next line's first word would not fit; and only the
      first line can be empty, exactly when the text has no words or its
      first word alone is too wide. */
  lemma GreedyLines(words: seq<string>, lines: seq<string>, width: string -> int, maxWidth: int)
    requires lines == LinesOf(WordsOfLines(lines))
    requires IsGreedyWrap(words, WordsOfLines(lines), width, maxWidth)
    ensures |lines| >= 1
    ensures Flatten(WordsOfLines(lines)) == words
    ensures forall i :: 0 <= i < |lines| ==> lines[i] == JoinWords(Split(lines[i]))
    ensures forall i :: 0 <= i < |lines| && |Split(lines[i])| >= 2 ==> width(lines[i]) <= maxWidth
    ensures forall i :: 0 <= i < |lines| && width(lines[i]) > maxWidth ==> |Split(lines[i])| <= 1
    ensures forall i :: 0 <= i < |lines| ==> (lines[i] == "" <==> Split(lines[i]) == [])
    ensures forall i :: 0 <= i < |lines| && lines[i] == "" ==>
      i == 0 && (words == [] || width(words[0]) > maxWidth)
    ensures forall i :: 0 <= i < |lines| - 1 && lines[i] != "" ==>
      Split(lines[i + 1]) != [] && width(lines[i] + " " + Split(lines[i + 1])[0]) > maxWidth
  {
    var g := WordsOfLines(lines);
    forall i | 0 <= i < |lines|
      ensures lines[i] == JoinWords(g[i])
      ensures lines[i] == "" <==> g[i] == []
      ensures |g[i]| >= 2 ==> width(lines[i]) <= maxWidth
    {
      assert lines[i] == LinesOf(g)[i];
      if g[i] != [] {
        JoinWordsShape(g[i]);
      }
      assert g[i][..|g[i]|] == g[i];
    }
    forall i | 0 <= i < |lines| - 1 && lines[i] != ""
      ensures g[i + 1] != [] && width(lines[i] + " " + g[i + 1][0]) > maxWidth
    {
      JoinWithSnoc(g[i], g[i + 1][0], " ");
    }
  }
}
