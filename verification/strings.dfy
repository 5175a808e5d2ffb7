/**
 * The few pieces of Python's `str` behaviour the parser and the writers rely on:
 * `strip()`, `split()` (whitespace runs), `split(sep)` (every separator, empty
 * pieces kept) and `sep.join(parts)`.
 */
module Strings {

  /** The characters Python's `str.isspace()` accepts, so `strip()` and `split()` remove them. */
  const WhitespaceChars: set<char> := {
    ' ', '\t', '\n', '\r', '\U{0B}', '\U{0C}', '\U{1C}', '\U{1D}', '\U{1E}', '\U{1F}',
    '\U{85}', '\U{A0}', '\U{1680}', '\U{2000}', '\U{2001}', '\U{2002}', '\U{2003}', '\U{2004}',
    '\U{2005}', '\U{2006}', '\U{2007}', '\U{2008}', '\U{2009}', '\U{200A}', '\U{2028}', '\U{2029}',
    '\U{202F}', '\U{205F}', '\U{3000}'
  }

  predicate IsWhitespace(c: char) {
    c in WhitespaceChars
  }

  predicate NoWhitespace(s: string) {
    forall i :: 0 <= i < |s| ==> !IsWhitespace(s[i])
  }

  predicate AllWhitespace(s: string) {
    forall i :: 0 <= i < |s| ==> IsWhitespace(s[i])
  }

  predicate StartsWith(s: string, prefix: string) {
    |prefix| <= |s| && s[..|prefix|] == prefix
  }

  predicate EndsWith(s: string, suffix: string) {
    |suffix| <= |s| && s[|s| - |suffix|..] == suffix
  }

  /** `lstrip()`: drops the leading whitespace and nothing else. */
  function TrimLeft(s: string): (r: string)
    ensures |r| <= |s| && r == s[|s| - |r|..]
    ensures r == [] || !IsWhitespace(r[0])
  {
    if |s| > 0 && IsWhitespace(s[0]) then TrimLeft(s[1..]) else s
  }

  /** What `lstrip()` removes is whitespace. */
  lemma {:induction false} TrimLeftRemovesBlank(s: string)
    ensures AllWhitespace(s[..|s| - |TrimLeft(s)|])
  {
    if |s| > 0 && IsWhitespace(s[0]) {
      TrimLeftRemovesBlank(s[1..]);
      var r := TrimLeft(s);
      assert s[..|s| - |r|] == [s[0]] + s[1..][..|s| - 1 - |r|];
    }
  }

  /** `rstrip()`: drops the trailing whitespace and nothing else. */
  function TrimRight(s: string): (r: string)
    ensures |r| <= |s| && r == s[..|r|]
    ensures AllWhitespace(s[|r|..])
    ensures r == [] || !IsWhitespace(r[|r| - 1])
  {
    if |s| > 0 && IsWhitespace(s[|s| - 1]) then
      var r := TrimRight(s[..|s| - 1]);
      assert s[|r|..] == s[..|s| - 1][|r|..] + [s[|s| - 1]];
      r
    else
      s
  }

  /** `strip()`: the middle of `s` once whitespace is removed at both ends. */
  function Strip(s: string): (r: string)
    ensures r == [] || (!IsWhitespace(r[0]) && !IsWhitespace(r[|r| - 1]))
    ensures r == [] <==> AllWhitespace(s)
  {
    var t := TrimLeft(s);
    var r := TrimRight(t);
    TrimLeftRemovesBlank(s);
    if r == [] then
      assert s == s[..|s| - |t|] + t;
      assert t == t[..0] + t[0..];
      r
    else
      assert s[|s| - |t|] == t[0] == r[0];
      r
  }

  lemma {:induction false} StripOfNoWhitespace(s: string)
    requires NoWhitespace(s)
    ensures Strip(s) == s
  {
  }

  /** Length of the longest prefix of `s` free of whitespace. */
  function WordLen(s: string): (n: nat)
    ensures n <= |s|
    ensures n == |s| || IsWhitespace(s[n])
  {
    if |s| > 0 && !IsWhitespace(s[0]) then 1 + WordLen(s[1..]) else 0
  }

  lemma {:induction false} WordLenIsWord(s: string)
    ensures NoWhitespace(s[..WordLen(s)])
  {
    if |s| > 0 && !IsWhitespace(s[0]) {
      WordLenIsWord(s[1..]);
      var n := WordLen(s);
      assert s[..n] == [s[0]] + s[1..][..n - 1];
    }
  }

  /** A non-empty run of non-whitespace characters. */
  predicate IsWord(w: string) {
    |w| > 0 && NoWhitespace(w)
  }

  /** `str.split()` with no argument: the maximal whitespace-free runs, in order. */
  function SplitWhitespace(s: string): (parts: seq<string>)
    ensures forall i :: 0 <= i < |parts| ==> IsWord(parts[i])
    decreases |s|
  {
    var t := TrimLeft(s);
    if t == [] then
      []
    else
      var n := WordLen(t);
      var word := t[..n];
      var rest := SplitWhitespace(t[n..]);
      WordLenIsWord(t);
      assert IsWord(word);
      PrependWord(word, rest);
      [word] + rest
  }

  lemma {:induction false} PrependWord(word: string, rest: seq<string>)
    requires IsWord(word)
    requires forall i :: 0 <= i < |rest| ==> IsWord(rest[i])
    ensures forall i :: 0 <= i < |[word] + rest| ==> IsWord(([word] + rest)[i])
  {
  }

  /** A string splits into no words exactly when it is blank. */
  lemma {:induction false} SplitWhitespaceEmpty(s: string)
    ensures SplitWhitespace(s) == [] <==> AllWhitespace(s)
  {
    var t := TrimLeft(s);
    TrimLeftRemovesBlank(s);
    if t == [] {
      assert s[..|s|] == s;
    } else {
      assert s[|s| - |t|] == t[0];
    }
  }

  /** Position of the first `c` in `s`, or `|s|` when there is none. */
  function IndexOf(s: string, c: char): (i: nat)
    ensures i <= |s|
    ensures i < |s| ==> s[i] == c
    ensures c !in s[..i]
  {
    if |s| == 0 then 0
    else if s[0] == c then 0
    else
      var i := 1 + IndexOf(s[1..], c);
      assert s[..i] == [s[0]] + s[1..][..i - 1];
      i
  }

  /** `s.split(sep)`: cuts at every separator and keeps empty pieces. */
  function SplitOn(s: string, sep: char): (parts: seq<string>)
    ensures |parts| >= 1
    ensures forall i :: 0 <= i < |parts| ==> sep !in parts[i]
    decreases |s|
  {
    var i := IndexOf(s, sep);
    if i == |s| then
      assert s[..i] == s;
      [s]
    else
      [s[..i]] + SplitOn(s[i + 1..], sep)
  }

  /** `sep.join(parts)`. */
  function Join(parts: seq<string>, sep: string): string
  {
    if |parts| == 0 then ""
    else if |parts| == 1 then parts[0]
    else parts[0] + sep + Join(parts[1..], sep)
  }

  /** Splitting and re-joining with the same separator gives the string back. */
  lemma {:induction false} JoinSplitOn(s: string, sep: char)
    ensures Join(SplitOn(s, sep), [sep]) == s
    decreases |s|
  {
    var i := IndexOf(s, sep);
    if i < |s| {
      var rest := SplitOn(s[i + 1..], sep);
      var parts := [s[..i]] + rest;
      assert SplitOn(s, sep) == parts;
      JoinSplitOn(s[i + 1..], sep);
      assert parts[1..] == rest;
      assert Join(parts, [sep]) == s[..i] + [sep] + Join(rest, [sep]);
      assert s == s[..i] + [sep] + s[i + 1..];
    } else {
      assert SplitOn(s, sep) == [s];
    }
  }

  lemma {:induction false} IndexOfAfterFree(a: string, sep: char, b: string)
    requires sep !in a
    ensures IndexOf(a + [sep] + b, sep) == |a|
    decreases |a|
  {
    if |a| > 0 {
      assert (a + [sep] + b)[1..] == a[1..] + [sep] + b;
      IndexOfAfterFree(a[1..], sep, b);
    }
  }

  lemma {:induction false} IndexOfFree(a: string, sep: char)
    requires sep !in a
    ensures IndexOf(a, sep) == |a|
    decreases |a|
  {
    if |a| > 0 {
      assert a[0] in a;
      assert sep !in a[1..] by { forall k | 0 <= k < |a| - 1 ensures a[1..][k] != sep { assert a[1..][k] == a[k + 1]; } }
      IndexOfFree(a[1..], sep);
    }
  }

  /** A separator-free piece after the last separator splits off as the last part. */
  lemma {:induction false} SplitOnSnoc(a: string, b: string, sep: char)
    requires sep !in b
    ensures SplitOn(a + [sep] + b, sep) == SplitOn(a, sep) + [b]
    decreases |a|
  {
    var s := a + [sep] + b;
    var i := IndexOf(a, sep);
    if i == |a| {
      assert a[..i] == a;
      IndexOfAfterFree(a, sep, b);
      assert s[..|a|] == a && s[|a| + 1..] == b;
      SplitOnFree(b, sep);
      assert SplitOn(s, sep) == [a] + SplitOn(b, sep);
      assert SplitOn(a, sep) == [a];
    } else {
      var rest := a[i + 1..] + [sep] + b;
      IndexOfExtend(a, [sep] + b, sep);
      assert s == a + ([sep] + b);
      assert IndexOf(s, sep) == i;
      assert s[..i] == a[..i];
      assert s[i + 1..] == rest;
      assert SplitOn(s, sep) == [a[..i]] + SplitOn(rest, sep);
      assert SplitOn(a, sep) == [a[..i]] + SplitOn(a[i + 1..], sep);
      SplitOnSnoc(a[i + 1..], b, sep);
    }
  }

  /** A separator already in `a` is found in `a` whatever follows. */
  lemma {:induction false} IndexOfExtend(a: string, c: string, sep: char)
    requires IndexOf(a, sep) < |a|
    ensures IndexOf(a + c, sep) == IndexOf(a, sep)
    decreases |a|
  {
    if a[0] != sep {
      assert (a + c)[1..] == a[1..] + c;
      IndexOfExtend(a[1..], c, sep);
    }
  }

  /** A separator-free string splits into itself alone. */
  lemma {:induction false} SplitOnFree(a: string, sep: char)
    requires sep !in a
    ensures SplitOn(a, sep) == [a]
  {
    IndexOfFree(a, sep);
    assert a[..|a|] == a;
  }

  lemma {:induction false} ConcatFree(a: string, b: string, c: char)
    requires c !in a && c !in b
    ensures c !in a + b
  {
    forall k | 0 <= k < |a + b| ensures (a + b)[k] != c {
      if k < |a| {
        assert (a + b)[k] == a[k];
      } else {
        assert (a + b)[k] == b[k - |a|];
      }
    }
  }

  /** Joining separator-free pieces and splitting again recovers the pieces. */
  lemma {:induction false} SplitOnJoin(parts: seq<string>, sep: char)
    requires |parts| >= 1
    requires forall i :: 0 <= i < |parts| ==> sep !in parts[i]
    ensures SplitOn(Join(parts, [sep]), sep) == parts
    decreases |parts|
  {
    if |parts| == 1 {
      IndexOfFree(parts[0], sep);
      assert parts[0][..|parts[0]|] == parts[0];
    } else {
      var tail := parts[1..];
      var rest := Join(tail, [sep]);
      var s := parts[0] + [sep] + rest;
      assert Join(parts, [sep]) == s;
      IndexOfAfterFree(parts[0], sep, rest);
      assert s[..|parts[0]|] == parts[0];
      assert s[|parts[0]| + 1..] == rest;
      assert forall i :: 0 <= i < |tail| ==> tail[i] == parts[i + 1];
      SplitOnJoin(tail, sep);
      assert SplitOn(s, sep) == [parts[0]] + tail;
      ConsTail(parts);
    }
  }

  lemma {:induction false} TrimLeftWhitespacePrefix(w: string, x: string)
    requires AllWhitespace(w)
    requires x == [] || !IsWhitespace(x[0])
    ensures TrimLeft(w + x) == x
    decreases |w|
  {
    if |w| > 0 {
      assert (w + x)[1..] == w[1..] + x;
      TrimLeftWhitespacePrefix(w[1..], x);
    }
  }

  lemma {:induction false} WordLenOfWord(a: string, b: string)
    requires NoWhitespace(a)
    requires b == [] || IsWhitespace(b[0])
    ensures WordLen(a + b) == |a|
    decreases |a|
  {
    if |a| > 0 {
      assert (a + b)[1..] == a[1..] + b;
      WordLenOfWord(a[1..], b);
    }
  }

  lemma {:induction false} SplitWhitespaceOfWord(w: string)
    requires IsWord(w)
    ensures SplitWhitespace(w) == [w]
  {
    TrimLeftWhitespacePrefix([], w);
    assert [] + w == w;
    WordLenOfWord(w, []);
    assert w + [] == w;
    assert w[..|w|] == w;
    assert w[|w|..] == [];
  }

  lemma {:induction false} SplitWhitespaceSkipsBlank(rest: string)
    requires rest == [] || !IsWhitespace(rest[0])
    ensures SplitWhitespace(" " + rest) == SplitWhitespace(rest)
  {
    TrimLeftWhitespacePrefix(" ", rest);
    TrimLeftWhitespacePrefix([], rest);
    assert [] + rest == rest;
  }

  lemma {:induction false} SplitWhitespaceOfWordThen(w: string, rest: string)
    requires IsWord(w)
    requires rest == [] || !IsWhitespace(rest[0])
    ensures SplitWhitespace(w + " " + rest) == [w] + SplitWhitespace(rest)
  {
    var s := w + " " + rest;
    var tail := " " + rest;
    assert s == w + tail;
    assert TrimLeft(s) == s by { TrimLeftWhitespacePrefix([], s); assert [] + s == s; }
    assert WordLen(s) == |w| by { WordLenOfWord(w, tail); }
    assert s[..|w|] == w;
    assert s[|w|..] == tail;
    assert SplitWhitespace(s) == [w] + SplitWhitespace(tail);
    SplitWhitespaceSkipsBlank(rest);
  }

  /** Joining non-empty, whitespace-free words with single spaces and splitting again recovers them. */
  lemma {:induction false} SplitWhitespaceJoin(parts: seq<string>)
    requires forall i :: 0 <= i < |parts| ==> IsWord(parts[i])
    ensures SplitWhitespace(Join(parts, " ")) == parts
    decreases |parts|
  {
    if |parts| == 0 {
    } else if |parts| == 1 {
      SplitWhitespaceOfWord(parts[0]);
    } else {
      var tail := parts[1..];
      var rest := Join(tail, " ");
      assert Join(parts, " ") == parts[0] + " " + rest;
      TailWords(parts);
      JoinOfWordsStarts(tail);
      SplitWhitespaceOfWordThen(parts[0], rest);
      SplitWhitespaceJoin(tail);
      ConsTail(parts);
    }
  }

  lemma {:induction false} TailWords(parts: seq<string>)
    requires |parts| > 0
    requires forall i :: 0 <= i < |parts| ==> IsWord(parts[i])
    ensures forall i :: 0 <= i < |parts[1..]| ==> IsWord(parts[1..][i])
  {
    forall i | 0 <= i < |parts[1..]| ensures IsWord(parts[1..][i]) { assert parts[1..][i] == parts[i + 1]; }
  }

  /** A join of words starts with a non-blank character. */
  lemma {:induction false} JoinOfWordsStarts(parts: seq<string>)
    requires |parts| > 0 && IsWord(parts[0])
    ensures Join(parts, " ") != [] && !IsWhitespace(Join(parts, " ")[0])
  {
    JoinHead(parts, " ");
    assert Join(parts, " ")[0] == parts[0][0];
  }

  lemma {:induction false} ConsTail<T>(s: seq<T>)
    requires |s| > 0
    ensures [s[0]] + s[1..] == s
  {
  }

  /** A join of non-empty parts starts with the first part. */
  lemma {:induction false} JoinHead(parts: seq<string>, sep: string)
    requires |parts| >= 1
    ensures StartsWith(Join(parts, sep), parts[0])
  {
  }

  /** Joining a concatenation: the two joins with one separator between them. */
  lemma {:induction false} JoinAppend(a: seq<string>, b: seq<string>, sep: string)
    requires |a| > 0 && |b| > 0
    ensures Join(a + b, sep) == Join(a, sep) + sep + Join(b, sep)
    decreases |a|
  {
    if |a| > 1 {
      var tail := a[1..];
      assert (a + b)[1..] == tail + b;
      JoinAppend(tail, b, sep);
    } else {
      assert (a + b)[1..] == b;
    }
  }

  /** Sequences that join to the same text still do after appending two that also agree. */
  lemma {:induction false} JoinCongruent(a: seq<string>, b: seq<string>, c: seq<string>, d: seq<string>, sep: string)
    requires |a| > 0 && |b| > 0 && |c| > 0 && |d| > 0
    requires Join(a, sep) == Join(c, sep) && Join(b, sep) == Join(d, sep)
    ensures Join(a + b, sep) == Join(c + d, sep)
  {
    JoinAppend(a, b, sep);
    JoinAppend(c, d, sep);
  }

  lemma {:induction false} JoinThree(a: string, b: string, c: string, sep: string)
    ensures Join([a, b, c], sep) == a + sep + (b + sep + c)
  {
    assert [a, b, c][1..] == [b, c];
    assert [b, c][1..] == [c];
    assert Join([c], sep) == c;
    assert Join([b, c], sep) == b + sep + c;
  }

  /** A word has no whitespace, so in particular no line break. */
  lemma {:induction false} WordHasNoNewline(w: string)
    requires IsWord(w)
    ensures '\n' !in w
  {
  }

  /** Each line followed by a line break: the text a loop of `text += line + "\n"` builds. */
  function Unlines(ls: seq<string>): string {
    if |ls| == 0 then "" else ls[0] + "\n" + Unlines(ls[1..])
  }

  lemma {:induction false} UnlinesJoin(ls: seq<string>)
    ensures Unlines(ls) == Join(ls + [""], "\n")
    decreases |ls|
  {
    if |ls| > 0 {
      UnlinesJoin(ls[1..]);
      assert (ls + [""])[1..] == ls[1..] + [""];
      assert (ls + [""])[0] == ls[0];
    }
  }

  /** Splitting the text at line breaks gives the lines back, and an empty piece after the last break. */
  lemma {:induction false} UnlinesSplit(ls: seq<string>)
    requires forall i :: 0 <= i < |ls| ==> '\n' !in ls[i]
    ensures SplitOn(Unlines(ls), '\n') == ls + [""]
  {
    UnlinesJoin(ls);
    assert "\n" == ['\n'];
    SplitOnJoin(ls + [""], '\n');
  }

  /** Writing two runs of lines one after the other. */
  lemma {:induction false} UnlinesAppend(a: seq<string>, b: seq<string>)
    ensures Unlines(a + b) == Unlines(a) + Unlines(b)
    decreases |a|
  {
    if |a| > 0 {
      assert (a + b)[1..] == a[1..] + b;
      UnlinesAppend(a[1..], b);
    } else {
      assert a + b == b;
    }
  }

  /** Writing a block of joined lines as one line is writing each of its lines. */
  lemma {:induction false} UnlinesJoined(ls: seq<string>)
    requires |ls| > 0
    ensures Unlines([Join(ls, "\n")]) == Unlines(ls)
  {
    UnlinesJoin(ls);
    JoinAppend(ls, [""], "\n");
    assert Unlines([Join(ls, "\n")]) == Join(ls, "\n") + "\n" + Unlines([]);
  }
}
