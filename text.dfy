/** The few Python `str` builtins the extraction engine and the conversion
    driver rely on, stated with Python's semantics: `str.replace`,
    `str.split` on a one-character separator, `str.join`, `str.isspace`,
    `str.strip()` and `str.splitlines()`. Strings are sequences of code
    points, as in Python 3. */
module Text {

  // ---------------------------------------------------------------------
  // Character classes
  // ---------------------------------------------------------------------

  /** The characters for which Python's `str.isspace()` is true. */
  predicate IsSpace(c: char) {
    ('\U{0009}' <= c <= '\U{000D}') || ('\U{001C}' <= c <= '\U{001F}') || c == ' '
    || c == '\U{0085}' || c == '\U{00A0}' || c == '\U{1680}'
    || ('\U{2000}' <= c <= '\U{200A}') || c == '\U{2028}' || c == '\U{2029}'
    || c == '\U{202F}' || c == '\U{205F}' || c == '\U{3000}'
  }

  /** The line boundaries recognised by Python's `str.splitlines()`. */
  predicate IsLineBreak(c: char) {
    c == '\n' || c == '\r' || c == '\U{000B}' || c == '\U{000C}'
    || c == '\U{001C}' || c == '\U{001D}' || c == '\U{001E}'
    || c == '\U{0085}' || c == '\U{2028}' || c == '\U{2029}'
  }

  /** The characters of `s` that are not whitespace, in order. */
  function NonSpace(s: string): string {
    if s == [] then [] else (if IsSpace(s[0]) then [] else [s[0]]) + NonSpace(s[1..])
  }

  predicate NoLineBreak(s: string) {
    forall k :: 0 <= k < |s| ==> !IsLineBreak(s[k])
  }

  /** Concatenation is associative. */
  lemma ConcatAssoc<T>(a: seq<T>, b: seq<T>, c: seq<T>)
    ensures a + (b + c) == (a + b) + c
  {
  }

  lemma ConcatAssoc5<T>(a: seq<T>, b: seq<T>, c: seq<T>, d: seq<T>, e: seq<T>)
    ensures a + b + c + d + e == a + (b + (c + (d + e)))
  {
  }

  /** A sequence is the three slices around `i` and `j`. */
  lemma SliceAround<T>(s: seq<T>, i: nat, j: nat)
    requires i <= j <= |s|
    ensures s == s[..i] + (s[i..j] + s[j..])
  {
    assert s[i..] == s[i..j] + s[j..];
    assert s == s[..i] + s[i..];
  }

  // ---------------------------------------------------------------------
  // str.replace
  // ---------------------------------------------------------------------

  /** `s.replace(pat, rep)`: scan left to right and replace every
      non-overlapping occurrence of `pat`. */
  function Replace(s: string, pat: string, rep: string): string
    requires |pat| > 0
    decreases |s|
  {
    if |s| < |pat| then s
    else if s[..|pat|] == pat then rep + Replace(s[|pat|..], pat, rep)
    else [s[0]] + Replace(s[1..], pat, rep)
  }

  /** `pat` occurs in `s` at position `p`. */
  predicate OccursAt(s: string, pat: string, p: int) {
    0 <= p && p + |pat| <= |s| && s[p..p + |pat|] == pat
  }

  lemma ReplacePrefix(pat: string, rep: string, b: string)
    requires |pat| > 0
    ensures Replace(pat + b, pat, rep) == rep + Replace(b, pat, rep)
  {
    assert (pat + b)[..|pat|] == pat;
    assert (pat + b)[|pat|..] == b;
  }

  /** A prefix that holds no copy of the pattern's first character is
      copied through unchanged. */
  lemma {:induction false} ReplaceSkip(a: string, b: string, pat: string, rep: string)
    requires |pat| > 0 && pat[0] !in a
    ensures Replace(a + b, pat, rep) == a + Replace(b, pat, rep)
    decreases |a|
  {
    if a != [] {
      var s := a + b;
      if |s| < |pat| {
        assert |b| < |pat|;
      } else {
        assert s[0] == a[0];
        assert s[..|pat|] != pat;
        assert s[1..] == a[1..] + b;
        ReplaceSkip(a[1..], b, pat, rep);
        assert a == [a[0]] + a[1..];
      }
    } else {
      assert a + b == b;
    }
  }

  lemma ReplaceNoFirst(s: string, pat: string, rep: string)
    requires |pat| > 0 && pat[0] !in s
    ensures Replace(s, pat, rep) == s
  {
    ReplaceSkip(s, [], pat, rep);
    assert s + [] == s;
  }

  /** Text in which the pattern never occurs is left unchanged. */
  lemma {:induction false} ReplaceAbsent(s: string, pat: string, rep: string)
    requires |pat| > 0
    requires forall p :: !OccursAt(s, pat, p)
    ensures Replace(s, pat, rep) == s
    decreases |s|
  {
    if |s| >= |pat| {
      assert !OccursAt(s, pat, 0);
      forall p ensures !OccursAt(s[1..], pat, p) {
        if OccursAt(s[1..], pat, p) {
          assert s[1..][p..p + |pat|] == s[p + 1..p + 1 + |pat|];
          assert OccursAt(s, pat, p + 1);
        }
      }
      ReplaceAbsent(s[1..], pat, rep);
      assert s == [s[0]] + s[1..];
    }
  }

  /** Text that lacks one of the pattern's characters is left unchanged. */
  lemma ReplaceLacking(s: string, pat: string, rep: string, k: nat)
    requires 0 <= k < |pat| && pat[k] !in s
    ensures Replace(s, pat, rep) == s
  {
    forall p ensures !OccursAt(s, pat, p) {
      if 0 <= p && p + |pat| <= |s| {
        assert s[p..p + |pat|][k] == s[p + k];
      }
    }
    ReplaceAbsent(s, pat, rep);
  }

  /** The first character is copied when the pattern fails to match at
      position 0 because of the character at `k`. */
  lemma ReplaceMissAt(s: string, pat: string, rep: string, k: nat)
    requires |pat| > 0 && k < |pat| && k < |s| && s[k] != pat[k]
    ensures |s| > 0 && Replace(s, pat, rep) == [s[0]] + Replace(s[1..], pat, rep)
  {
    if |s| >= |pat| {
      assert s[..|pat|][k] != pat[k];
    } else {
      ReplaceShort(s[1..], pat, rep);
      assert s == [s[0]] + s[1..];
    }
  }

  lemma ReplaceShort(s: string, pat: string, rep: string)
    requires 0 < |pat| && |s| < |pat|
    ensures Replace(s, pat, rep) == s
  {
  }

  /** Every character that `Replace` produces comes from the text or from
      the replacement. */
  lemma {:induction false} ReplaceChars(s: string, pat: string, rep: string, c: char)
    requires |pat| > 0
    requires c in Replace(s, pat, rep)
    ensures c in s || c in rep
    decreases |s|
  {
    if |s| >= |pat| {
      if s[..|pat|] == pat {
        if c !in rep {
          ReplaceChars(s[|pat|..], pat, rep, c);
        }
      } else if c != s[0] {
        ReplaceChars(s[1..], pat, rep, c);
      }
    }
  }

  /** A pattern at the front, then text without its first character, then
      a tail the pattern leaves alone. */
  lemma ReplaceEnclosed(pat: string, rep: string, x: string, tail: string)
    requires |pat| > 0 && pat[0] !in x && Replace(tail, pat, rep) == tail
    ensures Replace(pat + x + tail, pat, rep) == rep + x + tail
  {
    assert pat + x + tail == pat + (x + tail);
    ReplacePrefix(pat, rep, x + tail);
    ReplaceSkip(x, tail, pat, rep);
  }

  /** Text without the pattern's first character, then the pattern. */
  lemma ReplaceTrailing(a: string, pat: string, rep: string)
    requires |pat| > 0 && pat[0] !in a
    ensures Replace(a + pat, pat, rep) == a + rep
  {
    ReplaceSkip(a, pat, pat, rep);
    assert pat == pat + [];
    ReplacePrefix(pat, rep, []);
  }

  /** Two copies of the pattern become two copies of the replacement. */
  lemma ReplaceTwice(pat: string, rep: string)
    requires |pat| > 0
    ensures Replace(pat + pat, pat, rep) == rep + rep
  {
    ReplacePrefix(pat, rep, pat);
    ReplaceTrailing([], pat, rep);
    assert [] + pat == pat;
  }

  // ---------------------------------------------------------------------
  // str.split on a one-character separator, and str.join
  // ---------------------------------------------------------------------

  /** Index of the first `c` in `s`, or `|s|` when there is none. */
  function IndexOf(s: string, c: char): (i: nat)
    ensures i <= |s| && c !in s[..i] && (i < |s| ==> s[i] == c)
  {
    if s == [] || s[0] == c then 0 else 1 + IndexOf(s[1..], c)
  }

  /** `s.split(c)`: the pieces between the separators; never empty. */
  function Split(s: string, c: char): (r: seq<string>)
    ensures |r| >= 1
    decreases |s|
  {
    var i := IndexOf(s, c);
    if i == |s| then [s] else [s[..i]] + Split(s[i + 1..], c)
  }

  /** `sep.join(parts)`. */
  function Join(parts: seq<string>, sep: string): string {
    if |parts| == 0 then ""
    else if |parts| == 1 then parts[0]
    else parts[0] + sep + Join(parts[1..], sep)
  }

  lemma JoinAppend(parts: seq<string>, p: string, sep: string)
    requires |parts| > 0
    ensures Join(parts + [p], sep) == Join(parts, sep) + sep + p
  {
    if |parts| > 1 {
      assert (parts + [p])[1..] == parts[1..] + [p];
      JoinAppend(parts[1..], p, sep);
    }
  }

  lemma SplitNoSep(s: string, c: char)
    requires c !in s
    ensures Split(s, c) == [s]
  {
    assert s[..|s|] == s;
  }

  /** Splitting at a separator whose tail holds no separator splits off
      that tail as the last piece. */
  lemma SplitLast(a: string, c: char, b: string)
    requires c !in b
    ensures Split(a + [c] + b, c) == Split(a, c) + [b]
  {
    ConcatAssoc(a, [c], b);
    SplitLastPiece(a, c, b);
  }

  lemma {:induction false} SplitLastPiece(a: string, c: char, b: string)
    requires c !in b
    ensures Split(a + ([c] + b), c) == Split(a, c) + [b]
    decreases |a|
  {
    var s := a + ([c] + b);
    var i := IndexOf(a, c);
    IndexOfAppend(a, [c] + b, c);
    if i == |a| {
      SplitAt(s, c, |a|);
      assert s[..|a|] == a && s[|a| + 1..] == b;
      SplitNoSep(b, c);
      assert a[..|a|] == a;
    } else {
      var head, rest := a[..i], a[i + 1..];
      SplitAt(s, c, i);
      SplitAt(a, c, i);
      assert s[..i] == head;
      assert s[i + 1..] == rest + ([c] + b);
      SplitLastPiece(rest, c, b);
      ConcatAssoc([head], Split(rest, c), [b]);
    }
  }

  /** The pieces of a text whose first separator is at `i`. */
  lemma SplitAt(s: string, c: char, i: nat)
    requires i == IndexOf(s, c) < |s|
    ensures Split(s, c) == [s[..i]] + Split(s[i + 1..], c)
  {
  }

  lemma {:induction false} IndexOfAppend(a: string, b: string, c: char)
    ensures IndexOf(a + b, c) == if IndexOf(a, c) < |a| then IndexOf(a, c) else |a| + IndexOf(b, c)
    decreases |a|
  {
    if a != [] {
      assert (a + b)[1..] == a[1..] + b;
      IndexOfAppend(a[1..], b, c);
    } else {
      assert a + b == b;
    }
  }

  /** Joining the pieces of a split with the separator gives back the text. */
  lemma {:induction false} JoinSplit(s: string, c: char)
    ensures Join(Split(s, c), [c]) == s
    decreases |s|
  {
    var i := IndexOf(s, c);
    if i < |s| {
      var rest := Split(s[i + 1..], c);
      JoinSplit(s[i + 1..], c);
      assert Split(s, c) == [s[..i]] + rest;
      assert (Split(s, c))[1..] == rest;
      assert s == s[..i] + [c] + s[i + 1..];
    } else {
      assert s[..i] == s;
    }
  }

  /** `s` with every `c` removed: the reference definition. */
  function Remove(s: string, c: char): (r: string)
    ensures c !in r
  {
    if s == [] then [] else (if s[0] == c then [] else [s[0]]) + Remove(s[1..], c)
  }

  lemma {:induction false} RemoveAppend(a: string, b: string, c: char)
    ensures Remove(a + b, c) == Remove(a, c) + Remove(b, c)
    decreases |a|
  {
    if a != [] {
      assert (a + b)[1..] == a[1..] + b;
      RemoveAppend(a[1..], b, c);
    } else {
      assert a + b == b;
    }
  }

  lemma {:induction false} RemoveNone(s: string, c: char)
    requires c !in s
    ensures Remove(s, c) == s
    decreases |s|
  {
    if s != [] {
      RemoveNone(s[1..], c);
      assert s == [s[0]] + s[1..];
    }
  }

  /** Every character left by `Remove` was in the text. */
  lemma {:induction false} RemoveChars(s: string, c: char, d: char)
    requires d in Remove(s, c)
    ensures d in s && d != c
    decreases |s|
  {
    if d != s[0] {
      RemoveChars(s[1..], c, d);
    }
  }

  /** Joining a piece in front of at least one more piece. */
  lemma JoinCons(p: string, rest: seq<string>, sep: string)
    requires |rest| >= 1
    ensures Join([p] + rest, sep) == p + sep + Join(rest, sep)
  {
    assert ([p] + rest)[1..] == rest;
  }

  /** Removing `c` from a text that starts with `c`. */
  lemma RemoveFirst(c: char, t: string)
    ensures Remove([c] + t, c) == Remove(t, c)
  {
    assert ([c] + t)[1..] == t;
  }

  /** Removing `c` from a text whose first `c` is at `i`. */
  lemma RemoveAt(s: string, c: char, i: nat)
    requires i < |s| && s[i] == c && c !in s[..i]
    ensures Remove(s, c) == s[..i] + Remove(s[i + 1..], c)
  {
    assert s == s[..i] + ([c] + s[i + 1..]);
    RemoveAppend(s[..i], [c] + s[i + 1..], c);
    RemoveFirst(c, s[i + 1..]);
    RemoveNone(s[..i], c);
  }

  /** Joining with nothing the pieces of a text whose first `c` is at `i`. */
  lemma JoinSplitAt(s: string, c: char, i: nat)
    requires i == IndexOf(s, c) < |s|
    ensures Join(Split(s, c), "") == s[..i] + Join(Split(s[i + 1..], c), "")
  {
    var head, rest := s[..i], Split(s[i + 1..], c);
    assert Split(s, c) == [head] + rest;
    JoinCons(head, rest, "");
    assert head + "" == head;
  }

  /** `"".join(s.split(c))` removes every `c` and keeps everything else. */
  lemma {:induction false} JoinSplitRemoves(s: string, c: char)
    ensures Join(Split(s, c), "") == Remove(s, c)
    decreases |s|
  {
    var i := IndexOf(s, c);
    if i < |s| {
      JoinSplitAt(s, c, i);
      JoinSplitRemoves(s[i + 1..], c);
      RemoveAt(s, c, i);
    } else {
      assert s[..i] == s;
      RemoveNone(s, c);
    }
  }

  // ---------------------------------------------------------------------
  // str.strip()
  // ---------------------------------------------------------------------

  function TrimLeft(s: string): string {
    if s != [] && IsSpace(s[0]) then TrimLeft(s[1..]) else s
  }

  function TrimRight(s: string): string {
    if s != [] && IsSpace(s[|s| - 1]) then TrimRight(s[..|s| - 1]) else s
  }

  /** `s.strip()`: leading and trailing whitespace removed. */
  function Strip(s: string): string {
    TrimRight(TrimLeft(s))
  }

  /** A stripped text is either empty or starts and ends with a
      non-whitespace character, and holds exactly the text's
      non-whitespace characters. */
  lemma StripShape(s: string)
    ensures var r := Strip(s); r == [] || (!IsSpace(r[0]) && !IsSpace(r[|r| - 1]))
    ensures NonSpace(Strip(s)) == NonSpace(s)
    ensures forall c :: c in Strip(s) ==> c in s
    ensures exists i, j :: 0 <= i <= j <= |s| && Strip(s) == s[i..j]
                           && forall k :: 0 <= k < |s| && (k < i || j <= k) ==> IsSpace(s[k])
  {
    TrimLeftShape(s);
    TrimRightShape(TrimLeft(s));
    var i := TrimLeftSlice(s);
    var n := TrimRightSlice(s[i..]);
    assert s[i..][..n] == s[i..i + n];
    assert forall k :: i + n <= k < |s| ==> s[k] == s[i..][k - i];
  }

  /** Trimming the left cuts a whitespace prefix off at `i`. */
  lemma {:induction false} TrimLeftSlice(s: string) returns (i: nat)
    ensures i <= |s| && TrimLeft(s) == s[i..]
    ensures forall k :: 0 <= k < i ==> IsSpace(s[k])
    decreases |s|
  {
    if s != [] && IsSpace(s[0]) {
      var rest := TrimLeftSlice(s[1..]);
      i := rest + 1;
      assert s[1..][rest..] == s[i..];
      assert forall k :: 1 <= k < i ==> s[k] == s[1..][k - 1];
    } else {
      i := 0;
    }
  }

  /** Trimming the right cuts a whitespace suffix off at `j`. */
  lemma {:induction false} TrimRightSlice(s: string) returns (j: nat)
    ensures j <= |s| && TrimRight(s) == s[..j]
    ensures forall k :: j <= k < |s| ==> IsSpace(s[k])
    decreases |s|
  {
    if s != [] && IsSpace(s[|s| - 1]) {
      var t := s[..|s| - 1];
      j := TrimRightSlice(t);
      assert t[..j] == s[..j];
      assert forall k :: j <= k < |t| ==> s[k] == t[k];
    } else {
      j := |s|;
      assert s[..j] == s;
    }
  }

  lemma {:induction false} TrimLeftShape(s: string)
    ensures var r := TrimLeft(s); r == [] || !IsSpace(r[0])
    ensures NonSpace(TrimLeft(s)) == NonSpace(s)
    ensures forall c :: c in TrimLeft(s) ==> c in s
    decreases |s|
  {
    if s != [] && IsSpace(s[0]) {
      TrimLeftShape(s[1..]);
    }
  }

  lemma {:induction false} TrimRightShape(s: string)
    ensures var r := TrimRight(s); r == [] || !IsSpace(r[|r| - 1])
    ensures var r := TrimRight(s); r == [] || r[0] == s[0]
    ensures NonSpace(TrimRight(s)) == NonSpace(s)
    ensures forall c :: c in TrimRight(s) ==> c in s
    decreases |s|
  {
    if s != [] && IsSpace(s[|s| - 1]) {
      var t := s[..|s| - 1];
      TrimRightShape(t);
      assert s == t + [s[|s| - 1]];
      NonSpaceAppend(t, [s[|s| - 1]]);
    }
  }

  /** Stripping a stripped text changes nothing. */
  lemma StripIdempotent(s: string)
    ensures Strip(Strip(s)) == Strip(s)
  {
    StripShape(s);
  }

  lemma {:induction false} NonSpaceAppend(a: string, b: string)
    ensures NonSpace(a + b) == NonSpace(a) + NonSpace(b)
    decreases |a|
  {
    if a != [] {
      assert (a + b)[1..] == a[1..] + b;
      NonSpaceAppend(a[1..], b);
    } else {
      assert a + b == b;
    }
  }

  lemma {:induction false} NonSpaceAllSpace(s: string)
    requires forall k :: 0 <= k < |s| ==> IsSpace(s[k])
    ensures NonSpace(s) == []
    decreases |s|
  {
    if s != [] {
      NonSpaceAllSpace(s[1..]);
    }
  }

  // ---------------------------------------------------------------------
  // str.splitlines()
  // ---------------------------------------------------------------------

  /** Index of the first line boundary in `s`, or `|s|`. */
  function LineEnd(s: string): (i: nat)
    ensures i <= |s| && NoLineBreak(s[..i]) && (i < |s| ==> IsLineBreak(s[i]))
  {
    if s == [] || IsLineBreak(s[0]) then 0 else 1 + LineEnd(s[1..])
  }

  /** Where the next line starts after the boundary at `i` (`"\r\n"` is one
      boundary). */
  function NextLine(s: string, i: nat): (j: nat)
    requires i < |s|
    ensures i < j <= |s|
  {
    if s[i] == '\r' && i + 1 < |s| && s[i + 1] == '\n' then i + 2 else i + 1
  }

  /** `s.splitlines()`: the lines of `s` without their boundaries; a final
      boundary does not start an extra empty line. */
  function Splitlines(s: string): seq<string>
    decreases |s|
  {
    if s == [] then []
    else
      var i := LineEnd(s);
      if i == |s| then [s] else [s[..i]] + Splitlines(s[NextLine(s, i)..])
  }

  lemma {:induction false} SplitlinesNoBreaks(s: string)
    ensures forall l :: l in Splitlines(s) ==> NoLineBreak(l)
    decreases |s|
  {
    if s != [] {
      var i := LineEnd(s);
      if i < |s| {
        SplitlinesNoBreaks(s[NextLine(s, i)..]);
      } else {
        assert s[..i] == s;
      }
    }
  }

  /** Concatenation of the non-whitespace parts of several lines. */
  function NonSpaceLines(ls: seq<string>): string {
    if ls == [] then [] else NonSpace(ls[0]) + NonSpaceLines(ls[1..])
  }

  /** Splitting into lines only drops whitespace: line boundaries are
      whitespace. */
  lemma {:induction false} SplitlinesNonSpace(s: string)
    ensures NonSpaceLines(Splitlines(s)) == NonSpace(s)
    decreases |s|
  {
    if s != [] {
      var i := LineEnd(s);
      if i == |s| {
        assert s[..i] == s;
        assert Splitlines(s) == [s];
        assert NonSpaceLines([s]) == NonSpace(s) + NonSpaceLines([]);
      } else {
        var j := NextLine(s, i);
        var ls := Splitlines(s[j..]);
        assert Splitlines(s) == [s[..i]] + ls;
        SplitlinesNonSpace(s[j..]);
        assert NonSpaceLines([s[..i]] + ls) == NonSpace(s[..i]) + NonSpaceLines(ls);
        BreakIsSpace(s, i, j);
        SplitAround(s, i, j);
      }
    }
  }

  lemma BreakIsSpace(s: string, i: nat, j: nat)
    requires i < |s| && IsLineBreak(s[i]) && j == NextLine(s, i)
    ensures NonSpace(s[i..j]) == []
  {
    NonSpaceAllSpace(s[i..j]);
  }

  lemma SplitAround(s: string, i: nat, j: nat)
    requires i <= j <= |s| && NonSpace(s[i..j]) == []
    ensures NonSpace(s) == NonSpace(s[..i]) + NonSpace(s[j..])
  {
    var a, m, b := s[..i], s[i..j], s[j..];
    SliceAround(s, i, j);
    NonSpaceAppend(a, m + b);
    NonSpaceAppend(m, b);
    assert [] + NonSpace(b) == NonSpace(b);
  }

  lemma {:induction false} NonSpaceJoin(ls: seq<string>, sep: string)
    requires NonSpace(sep) == []
    ensures NonSpace(Join(ls, sep)) == NonSpaceLines(ls)
    decreases |ls|
  {
    if |ls| == 1 {
      assert NonSpaceLines(ls) == NonSpace(ls[0]) + NonSpaceLines([]);
    } else if |ls| > 1 {
      NonSpaceJoin(ls[1..], sep);
      NonSpaceAppend(ls[0] + sep, Join(ls[1..], sep));
      NonSpaceAppend(ls[0], sep);
    }
  }

  /** Lines that are non-empty and hold no line boundary come back from
      `splitlines` exactly as they were joined. */
  lemma {:induction false} SplitlinesJoin(ls: seq<string>)
    requires forall k :: 0 <= k < |ls| ==> ls[k] != [] && NoLineBreak(ls[k])
    ensures Splitlines(Join(ls, "\n")) == ls
    decreases |ls|
  {
    if |ls| == 1 {
      var s := ls[0];
      assert LineEnd(s) == |s| by { LineEndNone(s); }
    } else if |ls| > 1 {
      var s := Join(ls, "\n");
      var rest := Join(ls[1..], "\n");
      assert s == ls[0] + ("\n" + rest);
      LineEndNone(ls[0]);
      LineEndAppend(ls[0], "\n" + rest);
      assert LineEnd(s) == |ls[0]|;
      assert s[..|ls[0]|] == ls[0];
      assert s[|ls[0]|] == '\n';
      assert NextLine(s, |ls[0]|) == |ls[0]| + 1;
      assert s[|ls[0]| + 1..] == rest;
      SplitlinesJoin(ls[1..]);
    }
  }

  /** When every line boundary of `s` is a single `'\n'` and `s` does not
      end with one, joining its lines with `"\n"` gives `s` back. */
  lemma {:induction false} JoinSplitlines(s: string)
    requires NewlinesOnly(s)
    requires s == [] || s[|s| - 1] != '\n'
    ensures Join(Splitlines(s), "\n") == s
    decreases |s|
  {
    if s != [] {
      var i := LineEnd(s);
      if i == |s| {
        assert s[..i] == s;
      } else {
        var rest := NewlineStep(s, i);
        JoinSplitlines(rest);
        JoinCons(s[..i], Splitlines(rest), "\n");
        SliceAround(s, i, i + 1);
        assert s[i..i + 1] == "\n";
        ConcatAssoc(s[..i], "\n", rest);
      }
    }
  }

  /** Every line boundary in `s` is a single `'\n'`. */
  predicate NewlinesOnly(s: string) {
    forall k :: 0 <= k < |s| && IsLineBreak(s[k]) ==> s[k] == '\n'
  }

  /** One step of `JoinSplitlines`: the first line ends at a single `'\n'`
      and the rest of `s` keeps both preconditions. */
  lemma NewlineStep(s: string, i: nat) returns (rest: string)
    requires NewlinesOnly(s) && s != [] && s[|s| - 1] != '\n'
    requires i == LineEnd(s) < |s|
    ensures s[i] == '\n' && rest == s[i + 1..]
    ensures Splitlines(s) == [s[..i]] + Splitlines(rest) && |Splitlines(rest)| >= 1
    ensures NewlinesOnly(rest) && rest != [] && rest[|rest| - 1] != '\n'
  {
    rest := s[i + 1..];
    assert NextLine(s, i) == i + 1;
    assert rest[|rest| - 1] == s[|s| - 1];
    forall k | 0 <= k < |rest| && IsLineBreak(rest[k])
      ensures rest[k] == '\n'
    {
      assert rest[k] == s[i + 1 + k];
    }
  }

  lemma {:induction false} LineEndNone(s: string)
    requires NoLineBreak(s)
    ensures LineEnd(s) == |s|
    decreases |s|
  {
    if s != [] {
      LineEndNone(s[1..]);
    }
  }

  lemma {:induction false} LineEndAppend(a: string, b: string)
    requires NoLineBreak(a)
    ensures LineEnd(a + b) == |a| + LineEnd(b)
    decreases |a|
  {
    if a != [] {
      assert (a + b)[1..] == a[1..] + b;
      LineEndAppend(a[1..], b);
    } else {
      assert a + b == b;
    }
  }

  lemma {:induction false} JoinChars(ls: seq<string>, sep: string, c: char)
    requires c in Join(ls, sep)
    ensures c in sep || exists k :: 0 <= k < |ls| && c in ls[k]
    decreases |ls|
  {
    if |ls| > 1 {
      if c !in ls[0] && c !in sep {
        JoinChars(ls[1..], sep, c);
        var k :| 0 <= k < |ls[1..]| && c in ls[1..][k];
        assert c in ls[k + 1];
      }
    }
  }
}
