/** The Python `str` operations the core relies on, over `seq<char>`:
    `isspace`, `strip`, `split()` on whitespace, `split(sep)` on one
    character, `sep.join(parts)`, `in` / `find` for substrings, and
    `lower()` restricted to ASCII letters. */
module Text {

  /** Python's `str.isspace()` for a single character. */
  predicate IsSpace(c: char) {
    || c == ' '
    || ('\t' <= c <= '\r')
    || ('\U{1C}' <= c <= '\U{1F}')
    || c == '\U{85}' || c == '\U{A0}' || c == '\U{1680}'
    || ('\U{2000}' <= c <= '\U{200A}')
    || c == '\U{2028}' || c == '\U{2029}' || c == '\U{202F}'
    || c == '\U{205F}' || c == '\U{3000}'
  }

  /** A word as `str.split()` yields it: non-empty, no whitespace. */
  predicate IsWord(w: string) {
    w != [] && forall i :: 0 <= i < |w| ==> !IsSpace(w[i])
  }

  predicate AllSpace(s: string) {
    forall i :: 0 <= i < |s| ==> IsSpace(s[i])
  }

  /** Length of the longest prefix of `s` whose characters are all
      whitespace (`space`) or all non-whitespace (`!space`). */
  function LeadingRun(s: string, space: bool): (n: nat)
    ensures n <= |s|
    ensures forall i :: 0 <= i < n ==> IsSpace(s[i]) == space
    ensures n < |s| ==> IsSpace(s[n]) != space
  {
    if s == [] || IsSpace(s[0]) != space then 0 else 1 + LeadingRun(s[1..], space)
  }

  /** Length of the longest whitespace suffix of `s`. */
  function TrailingSpaces(s: string): (n: nat)
    ensures n <= |s|
    ensures forall i :: |s| - n <= i < |s| ==> IsSpace(s[i])
    ensures n < |s| ==> !IsSpace(s[|s| - 1 - n])
  {
    if s == [] || !IsSpace(s[|s| - 1]) then 0 else 1 + TrailingSpaces(s[..|s| - 1])
  }

  /** Python's `s.strip()`: what is left of `s` once all leading and
      trailing whitespace is removed. */
  function Strip(s: string): (r: string)
    ensures r == [] <==> AllSpace(s)
    ensures r != [] ==> !IsSpace(r[0]) && !IsSpace(r[|r| - 1])
  {
    var lead := LeadingRun(s, true);
    var t := s[lead..];
    t[..|t| - TrailingSpaces(t)]
  }

  /** What `strip()` keeps is a slice of `s`, and everything outside it
      is whitespace. */
  lemma StripSlice(s: string)
    ensures var r := Strip(s);
            var i := LeadingRun(s, true);
            && i + |r| <= |s| && r == s[i..i + |r|]
            && forall k :: 0 <= k < |s| && !(i <= k < i + |r|) ==> IsSpace(s[k])
  {
  }

  lemma StripUnchanged(s: string)
    requires s == [] || (!IsSpace(s[0]) && !IsSpace(s[|s| - 1]))
    ensures Strip(s) == s
  {
    StripSlice(s);
  }

  /** Trailing whitespace after an already trimmed string is removed. */
  lemma StripTrailing(w: string, sp: string)
    requires w != [] && !IsSpace(w[0]) && !IsSpace(w[|w| - 1]) && AllSpace(sp)
    ensures Strip(w + sp) == w
  {
    var s := w + sp;
    var r := Strip(s);
    StripSlice(s);
    assert LeadingRun(s, true) == 0 by { assert !IsSpace(s[0]); }
    assert r == s[..|r|];
    assert !IsSpace(s[|w| - 1]);
    assert forall k :: |w| <= k < |s| ==> IsSpace(s[k]) by {
      forall k | |w| <= k < |s| ensures IsSpace(s[k]) { assert s[k] == sp[k - |w|]; }
    }
    assert |r| == |w|;
  }

  /** Python's `s.split()` with no argument: the maximal runs of
      non-whitespace characters, in order. */
  function Words(s: string): (r: seq<string>)
    decreases |s|
    ensures r == [] <==> AllSpace(s)
  {
    var n := LeadingRun(s, true);
    if n == |s| then []
    else
      var t := s[n..];
      var w := LeadingRun(t, false);
      assert !AllSpace(s) by { assert !IsSpace(s[n]); }
      assert 0 < w by { assert t[0] == s[n]; }
      [t[..w]] + Words(t[w..])
  }

  /** Every element `split()` yields is a word. */
  lemma {:induction false} WordsAreWords(s: string)
    decreases |s|
    ensures forall k :: 0 <= k < |Words(s)| ==> IsWord(Words(s)[k])
  {
    var n := LeadingRun(s, true);
    if n < |s| {
      var t := s[n..];
      var w := LeadingRun(t, false);
      assert t[0] == s[n];
      assert IsWord(t[..w]) by {
        forall i | 0 <= i < w ensures !IsSpace(t[..w][i]) { assert t[..w][i] == t[i]; }
      }
      WordsAreWords(t[w..]);
      assert Words(s) == [t[..w]] + Words(t[w..]);
      ConsWords(t[..w], Words(t[w..]));
    }
  }

  lemma ConsWords(w: string, rest: seq<string>)
    requires IsWord(w) && forall k :: 0 <= k < |rest| ==> IsWord(rest[k])
    ensures forall k :: 0 <= k < |[w] + rest| ==> IsWord(([w] + rest)[k])
  {
  }

  /** A word followed by whitespace (or nothing) splits off as the first word. */
  lemma WordsCons(w: string, rest: string)
    requires IsWord(w) && (rest == [] || IsSpace(rest[0]))
    ensures Words(w + rest) == [w] + Words(rest)
  {
    var s := w + rest;
    assert LeadingRun(s, true) == 0 by { assert !IsSpace(s[0]); }
    var n := LeadingRun(s, false);
    assert forall k :: 0 <= k < |w| ==> !IsSpace(s[k]);
    assert |w| < |s| ==> IsSpace(s[|w|]);
    assert n == |w|;
    assert s[..|w|] == w && s[|w|..] == rest;
  }

  /** Leading whitespace does not change the words. */
  lemma WordsSkipSpace(c: char, s: string)
    requires IsSpace(c)
    ensures Words([c] + s) == Words(s)
  {
    var s' := [c] + s;
    assert s'[1..] == s;
    var n := LeadingRun(s, true);
    assert LeadingRun(s', true) == 1 + n;
    if n < |s| {
      assert s'[1 + n..] == s[n..];
    }
  }

  /** Words joined by single spaces split back into the same words. */
  lemma {:induction false} WordsOfJoin(words: seq<string>)
    requires forall k :: 0 <= k < |words| ==> IsWord(words[k])
    ensures Words(Join(" ", words)) == words
  {
    if |words| == 1 {
      WordsSingle(words[0]);
    } else if |words| > 1 {
      var tail := words[1..];
      assert forall k :: 0 <= k < |tail| ==> IsWord(tail[k]) by {
        forall k | 0 <= k < |tail| ensures IsWord(tail[k]) { assert tail[k] == words[k + 1]; }
      }
      WordsOfJoin(tail);
      WordsOfJoinStep(words[0], tail);
      ConsTail(words);
    }
  }

  lemma WordsSingle(w: string)
    requires IsWord(w)
    ensures Words(w) == [w]
  {
    WordsCons(w, []);
    assert w + [] == w;
  }

  lemma WordsOfJoinStep(w: string, tail: seq<string>)
    requires IsWord(w) && |tail| >= 1 && Words(Join(" ", tail)) == tail
    ensures Words(Join(" ", [w] + tail)) == [w] + tail
  {
    var rest := Join(" ", tail);
    JoinConsRight(" ", w, tail);
    WordsCons(w, " " + rest);
    WordsSkipSpace(' ', rest);
  }

  /** A single-space join of words starts and ends with a non-space. */
  lemma {:induction false} JoinWordsEnds(words: seq<string>)
    requires |words| >= 1 && forall k :: 0 <= k < |words| ==> IsWord(words[k])
    ensures var j := Join(" ", words);
            j != [] && !IsSpace(j[0]) && !IsSpace(j[|j| - 1])
  {
    var j := Join(" ", words);
    assert j[0] == words[0][0];
    if |words| > 1 {
      JoinWordsEnds(words[1..]);
      var rest := Join(" ", words[1..]);
      assert j == words[0] + " " + rest;
      assert j[|j| - 1] == rest[|rest| - 1];
    }
  }

  /** Words joined by single spaces and followed by one more space
      come back unchanged from `strip()`, `split()` and a last-four cut. */
  lemma WordsBeforeSpace(words: seq<string>)
    requires 1 <= |words| <= 4 && forall i :: 0 <= i < |words| ==> IsWord(words[i])
    ensures LastAtMost(Words(Strip(Join(" ", words) + " ")), 4) == words
  {
    StripJoinSpace(words);
    WordsOfJoin(words);
  }

  lemma StripJoinSpace(words: seq<string>)
    requires 1 <= |words| && forall i :: 0 <= i < |words| ==> IsWord(words[i])
    ensures Strip(Join(" ", words) + " ") == Join(" ", words)
  {
    JoinWordsEnds(words);
    StripTrailingBlank(Join(" ", words));
  }

  lemma StripTrailingBlank(w: string)
    requires w != [] && !IsSpace(w[0]) && !IsSpace(w[|w| - 1])
    ensures Strip(w + " ") == w
  {
    StripTrailing(w, " ");
  }

  /** Python's `xs[-n:]` for n >= 1: the last `n` elements, or all of
      them when there are fewer. */
  function LastAtMost<T>(xs: seq<T>, n: nat): seq<T> {
    if |xs| <= n then xs else xs[|xs| - n..]
  }

  /** Python's `sep.join(parts)`. */
  function Join(sep: string, parts: seq<string>): string {
    if |parts| == 0 then ""
    else if |parts| == 1 then parts[0]
    else parts[0] + sep + Join(sep, parts[1..])
  }

  lemma JoinCons(sep: string, p: string, rest: seq<string>)
    requires |rest| >= 1
    ensures Join(sep, [p] + rest) == p + sep + Join(sep, rest)
  {
    assert ([p] + rest)[1..] == rest;
  }

  lemma JoinConsRight(sep: string, p: string, rest: seq<string>)
    requires |rest| >= 1
    ensures Join(sep, [p] + rest) == p + (sep + Join(sep, rest))
  {
    JoinCons(sep, p, rest);
    assert p + sep + Join(sep, rest) == p + (sep + Join(sep, rest));
  }

  /** `k` occurs in `s` starting at index `i`. */
  predicate OccursAt(s: string, k: string, i: int) {
    0 <= i && i + |k| <= |s| && s[i..i + |k|] == k
  }

  /** Python's `s.find(k, from)`: the first index at or after `from`
      where `k` occurs, or -1. */
  function FindFrom(s: string, k: string, from: nat): (r: int)
    requires from <= |s|
    decreases |s| - from
    ensures r == -1 || (from <= r && OccursAt(s, k, r))
    ensures forall j :: from <= j && (r == -1 || j < r) ==> !OccursAt(s, k, j)
  {
    if from + |k| > |s| then -1
    else if s[from..from + |k|] == k then from
    else FindFrom(s, k, from + 1)
  }

  /** Python's `s.find(k)`. */
  function Find(s: string, k: string): (r: int)
    ensures r == -1 <==> forall j :: !OccursAt(s, k, j)
    ensures r != -1 ==> OccursAt(s, k, r) && forall j :: 0 <= j < r ==> !OccursAt(s, k, j)
  {
    FindFrom(s, k, 0)
  }

  /** Python's `k in s` for strings. */
  predicate Contains(s: string, k: string) {
    Find(s, k) >= 0
  }

  /** Python's `s.split(sep)` for a one-character separator. */
  function Split(s: string, sep: char): (parts: seq<string>)
    decreases |s|
    ensures |parts| >= 1
    ensures parts[0] <= s && sep !in parts[0]
    ensures |parts[0]| == |s| || s[|parts[0]|] == sep
  {
    var i := IndexOfChar(s, sep);
    if i < 0 then [s]
    else
      assert sep !in s[..i] by {
        forall j | 0 <= j < i ensures s[..i][j] != sep { assert s[..i][j] == s[j]; }
      }
      [s[..i]] + Split(s[i + 1..], sep)
  }

  /** The first index of `c` in `s`, or -1. */
  function IndexOfChar(s: string, c: char): (i: int)
    ensures -1 <= i < |s|
    ensures i == -1 ==> c !in s
    ensures i >= 0 ==> s[i] == c
    ensures forall j :: 0 <= j < i ==> s[j] != c
  {
    if s == [] then -1
    else if s[0] == c then 0
    else
      var j := IndexOfChar(s[1..], c);
      assert forall k :: 0 <= k < |s| - 1 ==> s[1..][k] == s[k + 1];
      if j < 0 then -1 else j + 1
  }

  lemma ConsTail<T>(xs: seq<T>)
    requires |xs| >= 1
    ensures [xs[0]] + xs[1..] == xs
  {
  }

  lemma Around<T>(s: seq<T>, i: int)
    requires 0 <= i < |s|
    ensures s == s[..i] + [s[i]] + s[i + 1..]
  {
  }

  /** No part holds the separator. */
  lemma {:induction false} SplitNoSeparator(s: string, sep: char)
    decreases |s|
    ensures forall k :: 0 <= k < |Split(s, sep)| ==> sep !in Split(s, sep)[k]
  {
    var i := IndexOfChar(s, sep);
    if i >= 0 {
      var rest := Split(s[i + 1..], sep);
      SplitNoSeparator(s[i + 1..], sep);
      assert Split(s, sep) == [s[..i]] + rest;
      ConsNoSeparator(s[..i], rest, sep);
    }
  }

  lemma ConsNoSeparator(p: string, rest: seq<string>, sep: char)
    requires sep !in p && forall k :: 0 <= k < |rest| ==> sep !in rest[k]
    ensures forall k :: 0 <= k < |[p] + rest| ==> sep !in ([p] + rest)[k]
  {
  }

  /** Joining the parts with the separator gives back the string. */
  lemma {:induction false} SplitJoin(s: string, sep: char)
    decreases |s|
    ensures Join([sep], Split(s, sep)) == s
  {
    var i := IndexOfChar(s, sep);
    if i >= 0 {
      var rest := Split(s[i + 1..], sep);
      SplitJoin(s[i + 1..], sep);
      assert Split(s, sep) == [s[..i]] + rest;
      RejoinAt(s, i, rest);
    }
  }

  lemma RejoinAt(s: string, i: int, rest: seq<string>)
    requires 0 <= i < |s| && |rest| >= 1 && Join([s[i]], rest) == s[i + 1..]
    ensures Join([s[i]], [s[..i]] + rest) == s
  {
    JoinCons([s[i]], s[..i], rest);
    Around(s, i);
  }

  /** The first separator in `p + [sep] + rest` is the one after `p`
      when `p` holds none. */
  lemma IndexOfSeparatorAfter(p: string, sep: char, rest: string)
    requires sep !in p
    ensures IndexOfChar(p + [sep] + rest, sep) == |p|
  {
    var s := p + [sep] + rest;
    var i := IndexOfChar(s, sep);
    assert s[|p|] == sep;
    forall k | 0 <= k < |p| ensures s[k] != sep { assert s[k] == p[k]; }
  }

  /** Splitting a join of separator-free parts gives back the parts. */
  lemma {:induction false} SplitOfJoin(parts: seq<string>, sep: char)
    requires |parts| >= 1 && forall k :: 0 <= k < |parts| ==> sep !in parts[k]
    ensures Split(Join([sep], parts), sep) == parts
  {
    var p := parts[0];
    if |parts| == 1 {
      assert Join([sep], parts) == p;
      assert IndexOfChar(p, sep) == -1;
    } else {
      var rest := parts[1..];
      assert forall k :: 0 <= k < |rest| ==> rest[k] == parts[k + 1];
      SplitOfJoin(rest, sep);
      var j := Join([sep], rest);
      ConsTail(parts);
      JoinCons([sep], p, rest);
      var s := p + [sep] + j;
      IndexOfSeparatorAfter(p, sep, j);
      assert s[..|p|] == p && s[|p| + 1..] == j;
    }
  }

  /** ASCII lower-casing of one character. */
  function LowerChar(c: char): char {
    if 'A' <= c <= 'Z' then (c as int + 32) as char else c
  }

  /** Python's `s.lower()` restricted to ASCII letters. */
  function Lower(s: string): (r: string)
    ensures |r| == |s|
    ensures forall i :: 0 <= i < |s| ==> r[i] == LowerChar(s[i])
    ensures forall i :: 0 <= i < |r| ==> !('A' <= r[i] <= 'Z')
  {
    if s == [] then [] else [LowerChar(s[0])] + Lower(s[1..])
  }
}
