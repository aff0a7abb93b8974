/**
 The parts of Python's `str` behaviour the display code relies on:
 `isspace`, `split()` with no separator, `split(sep)`, `strip()`,
 `replace(target, repl)` and `sep.join(parts)`, with `CountChar` as a
 reference count of one character.  Strings are sequences of Unicode
 scalar values: Python's code points other than the surrogates.
 */
module PyStr {

  /** Python's `str.isspace` for one character: the characters that
      `split()` and `strip()` treat as whitespace. */
  predicate IsSpace(c: char) {
    || c == ' ' || c == '\t' || c == '\n' || c == '\r'
    || c == '\U{0B}' || c == '\U{0C}'
    || ('\U{1C}' <= c <= '\U{1F}')
    || c == '\U{85}' || c == '\U{A0}' || c == '\U{1680}'
    || ('\U{2000}' <= c <= '\U{200A}')
    || c == '\U{2028}' || c == '\U{2029}' || c == '\U{202F}'
    || c == '\U{205F}' || c == '\U{3000}'
  }

  /** A word as `split()` returns it: non-empty, with no whitespace. */
  predicate IsWord(w: string) {
    w != "" && forall i :: 0 <= i < |w| ==> !IsSpace(w[i])
  }

  /** The longest prefix of `s` that contains no whitespace. */
  function LeadingWord(s: string): (w: string)
    ensures |w| <= |s| && w == s[..|w|]
    ensures forall i :: 0 <= i < |w| ==> !IsSpace(w[i])
    ensures |w| < |s| ==> IsSpace(s[|w|])
    ensures s != "" && !IsSpace(s[0]) ==> |w| > 0
  {
    if s == "" || IsSpace(s[0]) then "" else [s[0]] + LeadingWord(s[1..])
  }

  /** `s.split()`: the maximal runs of non-whitespace characters, in order. */
  function Split(s: string): (words: seq<string>)
    ensures forall i :: 0 <= i < |words| ==> IsWord(words[i])
    decreases |s|
  {
    if s == "" then []
    else if IsSpace(s[0]) then Split(s[1..])
    else
      var w := LeadingWord(s);
      [w] + Split(s[|w|..])
  }

  /** `sep.join(parts)`. */
  function JoinWith(parts: seq<string>, sep: string): string {
    if |parts| == 0 then ""
    else if |parts| == 1 then parts[0]
    else parts[0] + sep + JoinWith(parts[1..], sep)
  }

  /** `" ".join(words)`. */
  function JoinWords(words: seq<string>): string {
    JoinWith(words, " ")
  }

  /** `s.split(sep)` for a one-character separator: the pieces between
      separators, empty ones included, so there is always at least one. */
  function SplitOn(s: string, sep: char): (pieces: seq<string>)
    ensures |pieces| >= 1
  {
    if s == "" then [""]
    else
      var rest := SplitOn(s[1..], sep);
      if s[0] == sep then [""] + rest
      else [[s[0]] + rest[0]] + rest[1..]
  }

  /** `s.count(c)` for one character. */
  function CountChar(s: string, c: char): nat {
    if s == "" then 0 else (if s[0] == c then 1 else 0) + CountChar(s[1..], c)
  }

  /** `s.lstrip()`: `s` without its leading whitespace. */
  function StripStart(s: string): (r: string)
    ensures |r| <= |s|
    ensures forall i :: 0 <= i < |s| - |r| ==> IsSpace(s[i])
    ensures r == "" || !IsSpace(r[0])
  {
    if s != "" && IsSpace(s[0]) then StripStart(s[1..]) else s
  }

  /** What `lstrip` keeps is a suffix of its argument. */
  lemma {:induction false} StripStartSuffix(s: string)
    ensures StripStart(s) == s[|s| - |StripStart(s)|..]
  {
    if s != "" && IsSpace(s[0]) {
      StripStartSuffix(s[1..]);
    }
  }

  /** `s.rstrip()`: `s` without its trailing whitespace. */
  function StripEnd(s: string): (r: string)
    ensures |r| <= |s|
    ensures forall i :: |r| <= i < |s| ==> IsSpace(s[i])
    ensures r == "" || !IsSpace(r[|r| - 1])
  {
    if s != "" && IsSpace(s[|s| - 1]) then StripEnd(s[..|s| - 1]) else s
  }

  /** What `rstrip` keeps is a prefix of its argument. */
  lemma {:induction false} StripEndPrefix(s: string)
    ensures StripEnd(s) == s[..|StripEnd(s)|]
  {
    if s != "" && IsSpace(s[|s| - 1]) {
      StripEndPrefix(s[..|s| - 1]);
    }
  }

  /** The number of whitespace characters `s` starts with. */
  function LeadingSpaces(s: string): nat {
    |s| - |StripStart(s)|
  }

  /** `s.strip()`: `s` without its leading and trailing whitespace; what is
      left starts and ends with a non-whitespace character. */
  function Strip(s: string): (r: string)
    ensures LeadingSpaces(s) + |r| <= |s|
    ensures forall i :: 0 <= i < LeadingSpaces(s) ==> IsSpace(s[i])
    ensures forall i :: LeadingSpaces(s) + |r| <= i < |s| ==> IsSpace(s[i])
    ensures r == "" || (!IsSpace(r[0]) && !IsSpace(r[|r| - 1]))
  {
    var t := StripStart(s);
    var r := StripEnd(t);
    StripStartSuffix(s);
    StripEndPrefix(t);
    SpacesOfSuffix(s, t, r);
    r
  }

  /** What `strip` keeps is the slice of `s` between the two runs of
      whitespace. */
  lemma StripSlice(s: string)
    ensures Strip(s) == s[LeadingSpaces(s)..LeadingSpaces(s) + |Strip(s)|]
  {
    var t := StripStart(s);
    StripStartSuffix(s);
    StripEndPrefix(t);
    SliceOfSuffix(s, t, Strip(s));
  }

  lemma SliceOfSuffix(s: string, t: string, r: string)
    requires |t| <= |s| && t == s[|s| - |t|..]
    requires |r| <= |t| && r == t[..|r|]
    ensures |s| - |t| + |r| <= |s|
    ensures r == s[|s| - |t|..|s| - |t| + |r|]
  {
  }

  lemma SpacesOfSuffix(s: string, t: string, r: string)
    requires |t| <= |s| && t == s[|s| - |t|..]
    requires |r| <= |t|
    requires forall i :: |r| <= i < |t| ==> IsSpace(t[i])
    ensures forall i :: |s| - |t| + |r| <= i < |s| ==> IsSpace(s[i])
  {
    forall i | |s| - |t| + |r| <= i < |s|
      ensures IsSpace(s[i])
    {
      assert s[i] == t[i - (|s| - |t|)];
    }
  }

  /** `p` occurs in `s` (Python's `p in s`). */
  predicate HasInfix(s: string, p: string) {
    p <= s || (s != "" && HasInfix(s[1..], p))
  }

  /** `s.replace(target, repl)`: every occurrence of `target`, scanning from the
      left and without overlaps, is replaced by `repl`. */
  function Replace(s: string, target: string, repl: string): string
    requires target != ""
  {
    if s == "" then ""
    else if target <= s then repl + Replace(s[|target|..], target, repl)
    else [s[0]] + Replace(s[1..], target, repl)
  }

  // ---------------------------------------------------------------------
  // split()

  /** A word ends where whitespace starts, whatever follows. */
  lemma {:induction false} LeadingWordStops(a: string, t: string)
    requires t != "" && IsSpace(t[0])
    ensures LeadingWord(a + t) == LeadingWord(a)
  {
    if a == "" {
    } else if IsSpace(a[0]) {
    } else {
      assert (a + t)[1..] == a[1..] + t;
      LeadingWordStops(a[1..], t);
    }
  }

  /** Splitting at a whitespace character splits the two sides independently:
      whitespace never survives into a word and never joins two words. */
  lemma {:induction false} SplitAtSpace(a: string, c: char, b: string)
    requires IsSpace(c)
    ensures Split(a + [c] + b) == Split(a) + Split(b)
    decreases |a|
  {
    var s := a + [c] + b;
    if a == "" {
      assert s == [c] + b;
      assert s[1..] == b;
    } else if IsSpace(a[0]) {
      assert s[1..] == a[1..] + [c] + b;
      SplitAtSpace(a[1..], c, b);
    } else {
      assert s == a + ([c] + b);
      LeadingWordStops(a, [c] + b);
      var w := LeadingWord(a);
      assert s[|w|..] == a[|w|..] + [c] + b;
      SplitAtSpace(a[|w|..], c, b);
    }
  }

  /** A word splits to itself. */
  lemma SplitWord(w: string)
    requires IsWord(w)
    ensures Split(w) == [w]
  {
    assert LeadingWord(w) == w;
    assert w[|w|..] == "";
  }

  /** Round trip: splitting words joined by single spaces gives the words back. */
  lemma {:induction false} SplitJoinWords(ws: seq<string>)
    requires forall i :: 0 <= i < |ws| ==> IsWord(ws[i])
    ensures Split(JoinWords(ws)) == ws
  {
    if |ws| == 0 {
    } else if |ws| == 1 {
      SplitWord(ws[0]);
    } else {
      SplitAtSpace(ws[0], ' ', JoinWords(ws[1..]));
      assert JoinWords(ws) == ws[0] + [' '] + JoinWords(ws[1..]);
      SplitWord(ws[0]);
      SplitJoinWords(ws[1..]);
    }
  }

  // ---------------------------------------------------------------------
  // join

  /** Joining one more part appends the separator and the part. */
  lemma {:induction false} JoinWithSnoc(parts: seq<string>, x: string, sep: string)
    requires |parts| >= 1
    ensures JoinWith(parts + [x], sep) == JoinWith(parts, sep) + sep + x
  {
    if |parts| == 1 {
    } else {
      assert (parts + [x])[1..] == parts[1..] + [x];
      JoinWithSnoc(parts[1..], x, sep);
    }
  }

  /** A joined string begins with its first part and ends with its last. */
  lemma {:induction false} JoinWithEnds(parts: seq<string>, sep: string)
    requires |parts| >= 1
    ensures parts[0] <= JoinWith(parts, sep)
    ensures |parts[|parts| - 1]| <= |JoinWith(parts, sep)|
    ensures JoinWith(parts, sep)[|JoinWith(parts, sep)| - |parts[|parts| - 1]|..] == parts[|parts| - 1]
  {
    if |parts| > 1 {
      JoinWithEnds(parts[1..], sep);
    }
  }

  /** A character in no part and not in the separator is not in the join. */
  lemma {:induction false} JoinWithAvoids(parts: seq<string>, sep: string, c: char)
    requires c !in sep
    requires forall i :: 0 <= i < |parts| ==> c !in parts[i]
    ensures c !in JoinWith(parts, sep)
  {
    if |parts| > 1 {
      JoinWithAvoids(parts[1..], sep, c);
    }
  }

  /** Words joined by single spaces start and end with a non-space and hold no newline. */
  lemma JoinWordsShape(ws: seq<string>)
    requires |ws| >= 1
    requires forall i :: 0 <= i < |ws| ==> IsWord(ws[i])
    ensures JoinWords(ws) != ""
    ensures !IsSpace(JoinWords(ws)[0]) && !IsSpace(JoinWords(ws)[|JoinWords(ws)| - 1])
    ensures '\n' !in JoinWords(ws)
  {
    JoinWithEnds(ws, " ");
    var j := JoinWords(ws);
    var last := ws[|ws| - 1];
    assert j[|j| - |last|..][|last| - 1] == last[|last| - 1];
    assert forall i :: 0 <= i < |ws| ==> '\n' !in ws[i];
    JoinWithAvoids(ws, " ", '\n');
  }

  // ---------------------------------------------------------------------
  // strip()

  /** Stripping a string that already starts and ends with a non-space,
      followed by trailing spaces, leaves exactly that string. */
  lemma StripTrailingBlank(j: string)
    requires j != "" && !IsSpace(j[0]) && !IsSpace(j[|j| - 1])
    ensures Strip(j + " ") == j
  {
    var s := j + " ";
    assert StripStart(s) == s;
    assert s[..|s| - 1] == j;
    assert StripEnd(s) == StripEnd(j);
    assert StripEnd(j) == j;
  }

  // ---------------------------------------------------------------------
  // split(sep)

  /** Splitting at a separator character splits each side independently. */
  lemma {:induction false} SplitOnAtSep(a: string, sep: char, b: string)
    ensures SplitOn(a + [sep] + b, sep) == SplitOn(a, sep) + SplitOn(b, sep)
  {
    var s := a + [sep] + b;
    if a == "" {
      assert s[1..] == b;
    } else {
      assert s[1..] == a[1..] + [sep] + b;
      SplitOnAtSep(a[1..], sep, b);
    }
  }

  /** A string without the separator is a single piece. */
  lemma {:induction false} SplitOnWithout(s: string, sep: char)
    requires sep !in s
    ensures SplitOn(s, sep) == [s]
  {
    if s != "" {
      SplitOnWithout(s[1..], sep);
      assert [s[0]] + s[1..] == s;
    }
  }

  /** Round trip: splitting pieces joined by the separator gives the pieces
      back, provided no piece contains it. */
  lemma {:induction false} SplitOnJoin(parts: seq<string>, sep: char)
    requires |parts| >= 1
    requires forall i :: 0 <= i < |parts| ==> sep !in parts[i]
    ensures SplitOn(JoinWith(parts, [sep]), sep) == parts
  {
    if |parts| == 1 {
      SplitOnWithout(parts[0], sep);
    } else {
      assert JoinWith(parts, [sep]) == parts[0] + [sep] + JoinWith(parts[1..], [sep]);
      SplitOnAtSep(parts[0], sep, JoinWith(parts[1..], [sep]));
      SplitOnWithout(parts[0], sep);
      SplitOnJoin(parts[1..], sep);
    }
  }

  /** `s.split(sep)` has one more piece than `s` has separators. */
  lemma {:induction false} SplitOnCount(s: string, sep: char)
    ensures |SplitOn(s, sep)| == CountChar(s, sep) + 1
  {
    if s != "" {
      SplitOnCount(s[1..], sep);
    }
  }

  // ---------------------------------------------------------------------
  // replace()

  /** An occurrence in a suffix is an occurrence. */
  lemma {:induction false} InfixOfSuffix(s: string, k: nat, p: string)
    requires k <= |s|
    requires HasInfix(s[k..], p)
    ensures HasInfix(s, p)
    decreases k
  {
    if k > 0 {
      assert s[1..][k - 1..] == s[k..];
      InfixOfSuffix(s[1..], k - 1, p);
    }
  }

  /** Characters of a replacement result before its first newline come
      unchanged from the input (when `repl` is a newline). */
  lemma {:induction false} ReplacePrefixUntouched(s: string, target: string, t: string)
    requires target != ""
    requires t <= Replace(s, target, "\n")
    ensures '\n' in t || t <= s
  {
    if s == "" {
    } else if target <= s {
      if t != "" {
        assert t[0] == '\n';
      }
    } else if t != "" {
      assert t[1..] <= Replace(s[1..], target, "\n");
      ReplacePrefixUntouched(s[1..], target, t[1..]);
      assert '\n' in t[1..] ==> '\n' in t;
    }
  }

  /** Replacing by a newline creates no occurrence of a newline-free `p`,
      and leaves no occurrence of the replaced text itself. */
  lemma {:induction false} ReplaceLeavesOut(s: string, target: string, p: string)
    requires target != "" && p != ""
    ensures HasInfix(Replace(s, target, "\n"), p) ==> '\n' in p || (HasInfix(s, p) && target != p)
    decreases |s|
  {
    var r := Replace(s, target, "\n");
    if s == "" {
    } else if target <= s {
      var rest := s[|target|..];
      ReplaceLeavesOut(rest, target, p);
      if HasInfix(rest, p) {
        InfixOfSuffix(s, |target|, p);
      }
      assert r == "\n" + Replace(rest, target, "\n");
      assert r[1..] == Replace(rest, target, "\n");
      if p <= r {
        assert p[0] == '\n';
      }
    } else {
      ReplaceLeavesOut(s[1..], target, p);
      assert r[1..] == Replace(s[1..], target, "\n");
      if p <= r {
        assert p[1..] <= Replace(s[1..], target, "\n");
        ReplacePrefixUntouched(s[1..], target, p[1..]);
        assert '\n' in p[1..] ==> '\n' in p;
        if '\n' !in p {
          assert p <= s;
        }
      }
    }
  }

  /** Replacing text that does not occur changes nothing. */
  lemma {:induction false} ReplaceAbsent(s: string, target: string, repl: string)
    requires target != ""
    requires !HasInfix(s, target)
    ensures Replace(s, target, repl) == s
  {
    if s != "" {
      ReplaceAbsent(s[1..], target, repl);
    }
  }
}
