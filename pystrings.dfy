/** The handful of Python `str` operations the lab generator relies on, with
    Python's semantics: `strip()`, `split(sep)`, `split()`, `sep.join(...)`,
    `sub in s`, `s.replace(old, new)` and decimal formatting of an index. */
module PyStrings {

  /** Python's `str.isspace()` for one character. */
  predicate IsSpace(c: char) {
    || ('\t' <= c <= '\r')
    || ('\U{1C}' <= c <= '\U{1F}')
    || c == ' ' || c == '\U{85}' || c == '\U{A0}' || c == '\U{1680}'
    || ('\U{2000}' <= c <= '\U{200A}')
    || c == '\U{2028}' || c == '\U{2029}' || c == '\U{202F}' || c == '\U{205F}' || c == '\U{3000}'
  }

  function TrimLeft(s: string): (r: string)
    ensures |r| <= |s| && r == s[|s| - |r|..]
    ensures r == [] || !IsSpace(r[0])
    ensures forall k :: 0 <= k < |s| - |r| ==> IsSpace(s[k])
  {
    if s != [] && IsSpace(s[0]) then TrimLeft(s[1..]) else s
  }

  function TrimRight(s: string): (r: string)
    ensures |r| <= |s| && r == s[..|r|]
    ensures r == [] || !IsSpace(r[|r| - 1])
    ensures forall k :: |r| <= k < |s| ==> IsSpace(s[k])
  {
    if s != [] && IsSpace(s[|s| - 1]) then TrimRight(s[..|s| - 1]) else s
  }

  /** `s.strip()`: the longest infix without whitespace at either end. */
  function Strip(s: string): (r: string)
    ensures |r| <= |s|
    ensures r == [] || (!IsSpace(r[0]) && !IsSpace(r[|r| - 1]))
  {
    TrimRight(TrimLeft(s))
  }

  /** `s.strip()` is `s` with its leading and trailing whitespace cut off and
      nothing else: an infix of `s` with only whitespace before and after it. */
  lemma StripExactly(s: string)
    ensures exists i, j :: 0 <= i <= j <= |s| && TrimmedTo(s, i, j, Strip(s))
  {
    var l := TrimLeft(s);
    var r := TrimRight(l);
    var i := |s| - |l|;
    var j := i + |r|;
    SliceOfSlice(s, i, j - i);
    forall k | j <= k < |s|
      ensures IsSpace(s[k])
    {
      assert s[k] == l[k - i];
    }
    assert Strip(s) == r && TrimmedTo(s, i, j, r);
  }

  /** `r` is `s[i..j]`, and `s` holds only whitespace outside `i..j`. */
  predicate TrimmedTo(s: string, i: nat, j: nat, r: string)
    requires i <= j <= |s|
  {
    && r == s[i..j]
    && (forall k :: 0 <= k < i ==> IsSpace(s[k]))
    && (forall k :: j <= k < |s| ==> IsSpace(s[k]))
  }

  /** Number of occurrences of character `c` in `s`. */
  function Count(s: string, c: char): nat {
    if s == [] then 0 else (if s[0] == c then 1 else 0) + Count(s[1..], c)
  }

  /** `s.split(c)` for a one-character separator: the maximal runs between
      separators, always at least one (possibly empty) part. */
  function Split(s: string, c: char): (parts: seq<string>)
    ensures |parts| == Count(s, c) + 1
    ensures forall k :: 0 <= k < |parts| ==> c !in parts[k]
  {
    if s == [] then [""]
    else
      var rest := Split(s[1..], c);
      if s[0] == c then [""] + rest
      else [[s[0]] + rest[0]] + rest[1..]
  }

  /** Index of the first whitespace character of `s`, or `|s|` when there is none. */
  function SpaceIndex(s: string): (k: nat)
    ensures k <= |s|
    ensures k < |s| ==> IsSpace(s[k])
    ensures forall j :: 0 <= j < k ==> !IsSpace(s[j])
  {
    if s == [] || IsSpace(s[0]) then 0 else 1 + SpaceIndex(s[1..])
  }

  /** A non-empty run of non-whitespace characters. */
  predicate IsWord(w: string) {
    w != [] && forall j :: 0 <= j < |w| ==> !IsSpace(w[j])
  }

  /** `s.split()` with no argument: the maximal runs of non-whitespace characters. */
  function SplitWhitespace(s: string): seq<string>
    decreases |s|
  {
    var t := TrimLeft(s);
    if t == [] then []
    else
      var k := SpaceIndex(t);
      [t[..k]] + SplitWhitespace(t[k..])
  }

  /** Every part produced by `s.split()` is a word. */
  lemma {:induction false} SplitWhitespaceWords(s: string)
    ensures forall k :: 0 <= k < |SplitWhitespace(s)| ==> IsWord(SplitWhitespace(s)[k])
    decreases |s|
  {
    var t := TrimLeft(s);
    if t != [] {
      var k := SpaceIndex(t);
      assert IsWord(t[..k]);
      SplitWhitespaceWords(t[k..]);
    }
  }

  /** `s` starts with whitespace, then the word `w` at index `i`, ending at
      whitespace or at the end of `s`. */
  predicate WordAt(s: string, i: nat, w: string)
    requires i + |w| <= |s|
  {
    && IsWord(w)
    && (forall k :: 0 <= k < i ==> IsSpace(s[k]))
    && s[i..i + |w|] == w
    && (i + |w| == |s| || IsSpace(s[i + |w|]))
  }

  /** `parts` are the words of `s` in order: the maximal runs of
      non-whitespace characters, separated in `s` by whitespace. */
  ghost predicate Tokens(s: string, parts: seq<string>)
    decreases |parts|
  {
    if parts == [] then forall k :: 0 <= k < |s| ==> IsSpace(s[k])
    else exists i: nat :: i + |parts[0]| <= |s| && WordAt(s, i, parts[0]) && Tokens(s[i + |parts[0]|..], parts[1..])
  }

  /** `s.split()` yields the words of `s`, in order. */
  lemma {:induction false} SplitWhitespaceTokens(s: string)
    ensures Tokens(s, SplitWhitespace(s))
    decreases |s|
  {
    if TrimLeft(s) != [] {
      var i, w, rest := FirstWordAt(s);
      assert SplitWhitespace(s) == [w] + SplitWhitespace(rest);
      SplitWhitespaceTokens(rest);
      TokensCons(s, i, w, SplitWhitespace(rest));
    }
  }

  /** A word, then the words of the rest of the text. */
  lemma TokensCons(s: string, i: nat, w: string, parts: seq<string>)
    requires i + |w| <= |s| && WordAt(s, i, w) && Tokens(s[i + |w|..], parts)
    ensures Tokens(s, [w] + parts)
  {
    var p := [w] + parts;
    assert p[0] == w && p[1..] == parts;
  }

  /** The first part of `s.split()` is the first word of `s`, and the other
      parts are those of the text after it. */
  lemma FirstWordAt(s: string) returns (i: nat, w: string, rest: string)
    requires TrimLeft(s) != []
    ensures i + |w| <= |s| && WordAt(s, i, w) && s[i + |w|..] == rest
    ensures var t := TrimLeft(s); w == t[..SpaceIndex(t)] && rest == t[SpaceIndex(t)..]
  {
    var t := TrimLeft(s);
    i := LeadingSpace(s, t);
    var k := WordLength(t);
    w := t[..k];
    rest := t[k..];
    assert |w| == k;
    WordAtSlice(s, t, i, k);
  }

  /** `TrimLeft(s)` is what follows the run of leading whitespace. */
  lemma LeadingSpace(s: string, t: string) returns (i: nat)
    requires t == TrimLeft(s)
    ensures i + |t| == |s| && t == s[i..]
    ensures forall j :: 0 <= j < i ==> IsSpace(s[j])
  {
    i := |s| - |t|;
  }

  /** A text without leading whitespace starts with a word of `SpaceIndex` characters. */
  lemma WordLength(t: string) returns (k: nat)
    requires t != [] && !IsSpace(t[0])
    ensures k == SpaceIndex(t) && 0 < k <= |t|
    ensures forall j :: 0 <= j < k ==> !IsSpace(t[j])
    ensures k < |t| ==> IsSpace(t[k])
  {
    k := SpaceIndex(t);
  }

  lemma WordAtSlice(s: string, t: string, i: nat, k: nat)
    requires i + |t| == |s| && t == s[i..]
    requires forall j :: 0 <= j < i ==> IsSpace(s[j])
    requires 0 < k <= |t|
    requires forall j :: 0 <= j < k ==> !IsSpace(t[j])
    requires k < |t| ==> IsSpace(t[k])
    ensures WordAt(s, i, t[..k]) && s[i + k..] == t[k..]
  {
    SliceOfSlice(s, i, k);
    SliceDrop(s, i, k);
    assert i + k == |s| || s[i + k] == t[k];
  }

  lemma SliceOfSlice<T>(s: seq<T>, i: nat, n: nat)
    requires i + n <= |s|
    ensures s[i..][..n] == s[i..i + n]
  {
  }

  lemma SliceDrop<T>(s: seq<T>, i: nat, n: nat)
    requires i + n <= |s|
    ensures s[i..][n..] == s[i + n..]
  {
  }

  /** A text has one tokenisation only, so `Tokens` pins `s.split()` down. */
  lemma {:induction false} TokensUnique(s: string, p: seq<string>, q: seq<string>)
    requires Tokens(s, p) && Tokens(s, q)
    ensures p == q
    decreases |p|
  {
    if p != [] && q != [] {
      var i := TokensHead(s, p);
      var i' := TokensHead(s, q);
      FirstWordUnique(s, i, p[0], i', q[0]);
      TokensUnique(s[i + |p[0]|..], p[1..], q[1..]);
    } else {
      if p != [] {
        TokensHaveWord(s, p);
      }
      if q != [] {
        TokensHaveWord(s, q);
      }
    }
  }

  /** A text with a word is not all whitespace. */
  lemma TokensHaveWord(s: string, p: seq<string>)
    requires Tokens(s, p) && p != []
    ensures exists k :: 0 <= k < |s| && !IsSpace(s[k])
  {
    var i := TokensHead(s, p);
    assert s[i] == p[0][0];
  }

  /** Where the first word of a tokenisation starts. */
  lemma TokensHead(s: string, p: seq<string>) returns (i: nat)
    requires Tokens(s, p) && p != []
    ensures i + |p[0]| <= |s| && WordAt(s, i, p[0]) && Tokens(s[i + |p[0]|..], p[1..])
  {
    i :| i + |p[0]| <= |s| && WordAt(s, i, p[0]) && Tokens(s[i + |p[0]|..], p[1..]);
  }

  /** The first word of a text, and where it starts, are determined by the text. */
  lemma FirstWordUnique(s: string, i: nat, w: string, i': nat, w': string)
    requires i + |w| <= |s| && WordAt(s, i, w)
    requires i' + |w'| <= |s| && WordAt(s, i', w')
    ensures i == i' && w == w'
  {
    assert s[i] == w[0] && s[i'] == w'[0];
    assert !IsSpace(s[i]) && !IsSpace(s[i']);
    assert i == i';
    forall j | i <= j < i + |w| ensures !IsSpace(s[j]) {
      assert s[j] == w[j - i];
    }
    forall j | i <= j < i + |w'| ensures !IsSpace(s[j]) {
      assert s[j] == w'[j - i];
    }
    assert |w| == |w'|;
    assert w == s[i..i + |w|];
  }

  /** `sep.join(parts)`. */
  function Join(parts: seq<string>, sep: string): string {
    if |parts| == 0 then ""
    else if |parts| == 1 then parts[0]
    else parts[0] + sep + Join(parts[1..], sep)
  }

  /** The text of a file whose lines are `lines`, each terminated by a newline. */
  function Unlines(lines: seq<string>): string {
    if lines == [] then "" else lines[0] + "\n" + Unlines(lines[1..])
  }

  lemma {:induction false} JoinSplit(s: string, c: char)
    ensures Join(Split(s, c), [c]) == s
  {
    if s != [] {
      JoinSplit(s[1..], c);
      var rest := Split(s[1..], c);
      if s[0] != c && |rest| > 1 {
        assert ([[s[0]] + rest[0]] + rest[1..])[1..] == rest[1..];
      }
    }
  }

  lemma {:induction false} SplitJoin(parts: seq<string>, c: char)
    requires |parts| >= 1
    requires forall k :: 0 <= k < |parts| ==> c !in parts[k]
    ensures Split(Join(parts, [c]), c) == parts
  {
    if |parts| == 1 {
      assert c !in parts[0];
      SplitNoSeparator(parts[0], c);
      assert parts == [parts[0]];
    } else {
      SplitJoin(parts[1..], c);
      SplitPrefix(parts[0], Join(parts[1..], [c]), c);
    }
  }

  lemma {:induction false} SplitNoSeparator(s: string, c: char)
    requires c !in s
    ensures Split(s, c) == [s]
  {
    if s != [] {
      SplitNoSeparator(s[1..], c);
      assert [s[0]] + s[1..] == s;
    }
  }

  /** Splitting `a + c + b`, where `a` holds no separator, yields `a` followed by the parts of `b`. */
  lemma {:induction false} SplitPrefix(a: string, b: string, c: char)
    requires c !in a
    ensures Split(a + [c] + b, c) == [a] + Split(b, c)
  {
    if a == [] {
      assert (a + [c] + b)[1..] == b;
    } else {
      var s := a + [c] + b;
      assert s[1..] == a[1..] + [c] + b;
      assert s[0] == a[0] && a[0] != c;
      SplitPrefix(a[1..], b, c);
      var rest := Split(s[1..], c);
      assert rest[0] == a[1..] && rest[1..] == Split(b, c);
      assert [a[0]] + a[1..] == a;
    }
  }

  /** `sub` occurs in `s` starting at index `k`. */
  predicate MatchAt(s: string, sub: string, k: nat) {
    k + |sub| <= |s| && s[k..k + |sub|] == sub
  }

  /** `sub in s`. */
  predicate Contains(s: string, sub: string) {
    exists k: nat :: k <= |s| && MatchAt(s, sub, k)
  }

  /** `s.replace(pat, rep)`: every non-overlapping occurrence of `pat`, found
      scanning left to right, is replaced; the replacement text is not rescanned. */
  function ReplaceAll(s: string, pat: string, rep: string): string
    requires pat != []
  {
    if |s| < |pat| then s
    else if s[..|pat|] == pat then rep + ReplaceAll(s[|pat|..], pat, rep)
    else [s[0]] + ReplaceAll(s[1..], pat, rep)
  }

  /** Text with no occurrence of the pattern is left as it is. */
  lemma {:induction false} ReplaceAllAbsent(s: string, pat: string, rep: string)
    requires pat != [] && !Contains(s, pat)
    ensures ReplaceAll(s, pat, rep) == s
  {
    if |s| >= |pat| {
      assert s[0..0 + |pat|] == s[..|pat|];
      assert !MatchAt(s, pat, 0);
      assert !Contains(s[1..], pat) by {
        forall k: nat | k <= |s[1..]|
          ensures !MatchAt(s[1..], pat, k)
        {
          assert !MatchAt(s, pat, k + 1);
          if k + |pat| <= |s[1..]| {
            assert s[1..][k..k + |pat|] == s[k + 1..k + 1 + |pat|];
          }
        }
      }
      ReplaceAllAbsent(s[1..], pat, rep);
    }
  }

  /** A pattern with a character the text lacks never occurs in it. */
  lemma AbsentChar(s: string, pat: string, c: char)
    requires c in pat && c !in s
    ensures !Contains(s, pat)
  {
    forall k: nat | k <= |s|
      ensures !MatchAt(s, pat, k)
    {
      if k + |pat| <= |s| {
        var j :| 0 <= j < |pat| && pat[j] == c;
        assert s[k..k + |pat|][j] == s[k + j];
      }
    }
  }

  lemma ReplaceAllAtStart(s: string, pat: string, rep: string)
    requires pat != []
    ensures ReplaceAll(pat + s, pat, rep) == rep + ReplaceAll(s, pat, rep)
  {
    assert (pat + s)[..|pat|] == pat;
    assert (pat + s)[|pat|..] == s;
  }

  /** Replacing in a text cut just after a newline is replacing in each part,
      when the pattern spans no newline. */
  lemma {:induction false} ReplaceAllSplitsAtNewline(a: string, b: string, pat: string, rep: string)
    requires pat != [] && '\n' !in pat
    requires a != [] && a[|a| - 1] == '\n'
    ensures ReplaceAll(a + b, pat, rep) == ReplaceAll(a, pat, rep) + ReplaceAll(b, pat, rep)
    decreases |a|, 1
  {
    if |a| >= |pat| && a[..|pat|] == pat {
      SplitsAfterMatch(a, b, pat, rep);
    } else {
      SplitsAfterMiss(a, b, pat, rep);
    }
  }

  /** The step of `ReplaceAllSplitsAtNewline` when `a` starts with the pattern. */
  lemma {:induction false} SplitsAfterMatch(a: string, b: string, pat: string, rep: string)
    requires pat != [] && '\n' !in pat
    requires a != [] && a[|a| - 1] == '\n'
    requires |a| >= |pat| && a[..|pat|] == pat
    ensures ReplaceAll(a + b, pat, rep) == ReplaceAll(a, pat, rep) + ReplaceAll(b, pat, rep)
    decreases |a|, 0
  {
    var s := a + b;
    assert s[..|pat|] == pat;
    assert s[|pat|..] == a[|pat|..] + b;
    assert a[|pat| - 1] == pat[|pat| - 1];
    assert pat[|pat| - 1] in pat;
    ReplaceAllSplitsAtNewline(a[|pat|..], b, pat, rep);
    AppendAssoc(rep, ReplaceAll(a[|pat|..], pat, rep), ReplaceAll(b, pat, rep));
  }

  /** The step of `ReplaceAllSplitsAtNewline` when `a` does not start with the pattern. */
  lemma {:induction false} SplitsAfterMiss(a: string, b: string, pat: string, rep: string)
    requires pat != [] && '\n' !in pat
    requires a != [] && a[|a| - 1] == '\n'
    requires !(|a| >= |pat| && a[..|pat|] == pat)
    ensures ReplaceAll(a + b, pat, rep) == ReplaceAll(a, pat, rep) + ReplaceAll(b, pat, rep)
    decreases |a|, 0
  {
    var s := a + b;
    if |s| >= |pat| {
      if |a| < |pat| {
        // The window of |pat| characters at the front covers the newline ending a.
        assert s[..|pat|][|a| - 1] == '\n';
      } else {
        assert s[..|pat|] == a[..|pat|];
      }
    }
    assert s[1..] == a[1..] + b;
    assert ReplaceAll(s, pat, rep) == [a[0]] + ReplaceAll(a[1..] + b, pat, rep);
    if |a| == 1 {
      assert a == [a[0]];
    } else {
      ReplaceAllSplitsAtNewline(a[1..], b, pat, rep);
      assert ReplaceAll(a, pat, rep) == [a[0]] + ReplaceAll(a[1..], pat, rep);
      AppendAssoc([a[0]], ReplaceAll(a[1..], pat, rep), ReplaceAll(b, pat, rep));
    }
  }

  /** Concatenation is associative (stated once, for small proof contexts). */
  lemma AppendAssoc<T>(x: seq<T>, y: seq<T>, z: seq<T>)
    ensures x + y + z == x + (y + z)
  {
  }

  /** Concatenation of a sequence of strings. */
  function Concat(pieces: seq<string>): string {
    if pieces == [] then "" else pieces[0] + Concat(pieces[1..])
  }

  /** Each piece with `pat` replaced in it. */
  function ReplaceEach(pieces: seq<string>, pat: string, rep: string): (r: seq<string>)
    requires pat != []
    ensures |r| == |pieces|
    ensures forall k :: 0 <= k < |r| ==> r[k] == ReplaceAll(pieces[k], pat, rep)
  {
    seq(|pieces|, k requires 0 <= k < |pieces| => ReplaceAll(pieces[k], pat, rep))
  }

  /** Replacing in a text made of newline-terminated pieces is replacing in each piece. */
  lemma {:induction false} ReplaceAllPieces(pieces: seq<string>, pat: string, rep: string)
    requires pat != [] && '\n' !in pat
    requires forall k :: 0 <= k < |pieces| ==> pieces[k] != [] && pieces[k][|pieces[k]| - 1] == '\n'
    ensures ReplaceAll(Concat(pieces), pat, rep) == Concat(ReplaceEach(pieces, pat, rep))
  {
    if pieces != [] {
      ReplaceAllSplitsAtNewline(pieces[0], Concat(pieces[1..]), pat, rep);
      ReplaceAllPieces(pieces[1..], pat, rep);
      assert ReplaceEach(pieces, pat, rep)[1..] == ReplaceEach(pieces[1..], pat, rep);
    }
  }

  /** A character missing from every part is missing from their join. */
  lemma {:induction false} JoinLacks(parts: seq<string>, sep: string, c: char)
    requires c !in sep
    requires forall k :: 0 <= k < |parts| ==> c !in parts[k]
    ensures c !in Join(parts, sep)
  {
    if |parts| > 1 {
      JoinLacks(parts[1..], sep, c);
    }
  }

  lemma {:induction false} UnlinesLacks(lines: seq<string>, c: char)
    requires c != '\n'
    requires forall k :: 0 <= k < |lines| ==> c !in lines[k]
    ensures c !in Unlines(lines)
  {
    if lines != [] {
      UnlinesLacks(lines[1..], c);
    }
  }

  /** Python's `"\n".join(lines) + "\n"` is the same text as writing each line with its newline. */
  lemma {:induction false} JoinThenNewline(lines: seq<string>)
    requires lines != []
    ensures Join(lines, "\n") + "\n" == Unlines(lines)
  {
    if |lines| > 1 {
      JoinThenNewline(lines[1..]);
    }
  }

  /** Unlines as newline-terminated pieces. */
  function Terminated(lines: seq<string>): (r: seq<string>)
    ensures |r| == |lines|
    ensures forall k :: 0 <= k < |r| ==> r[k] == lines[k] + "\n"
  {
    seq(|lines|, k requires 0 <= k < |lines| => lines[k] + "\n")
  }

  lemma {:induction false} UnlinesIsConcat(lines: seq<string>)
    ensures Unlines(lines) == Concat(Terminated(lines))
  {
    if lines != [] {
      UnlinesIsConcat(lines[1..]);
      assert Terminated(lines)[1..] == Terminated(lines[1..]);
    }
  }

  /** Lines that each miss one of two characters of the pattern are not changed by the replacement. */
  lemma ReplaceAllKeepsLines(lines: seq<string>, pat: string, rep: string, c1: char, c2: char)
    requires pat != [] && '\n' !in pat && c1 in pat && c2 in pat
    requires forall k :: 0 <= k < |lines| ==> c1 !in lines[k] || c2 !in lines[k]
    ensures ReplaceAll(Unlines(lines), pat, rep) == Unlines(lines)
  {
    UnlinesIsConcat(lines);
    var pieces := Terminated(lines);
    ReplaceAllPieces(pieces, pat, rep);
    assert ReplaceEach(pieces, pat, rep) == pieces by {
      forall k | 0 <= k < |pieces|
        ensures ReplaceAll(pieces[k], pat, rep) == pieces[k]
      {
        if c1 !in lines[k] {
          assert c1 !in pieces[k];
          AbsentChar(pieces[k], pat, c1);
        } else {
          assert c2 !in pieces[k];
          AbsentChar(pieces[k], pat, c2);
        }
        ReplaceAllAbsent(pieces[k], pat, rep);
      }
    }
  }

  /** A trailing newline is never part of a match when the pattern has none. */
  lemma {:induction false} ReplaceAllBeforeNewline(s: string, pat: string, rep: string)
    requires pat != [] && '\n' !in pat
    ensures ReplaceAll(s + "\n", pat, rep) == ReplaceAll(s, pat, rep) + "\n"
  {
    var t := s + "\n";
    if |t| < |pat| {
    } else if t[..|pat|] == pat {
      assert t[|pat| - 1] == pat[|pat| - 1];
      assert pat[|pat| - 1] in pat;
      assert |pat| <= |s|;
      assert s[..|pat|] == pat;
      assert t[|pat|..] == s[|pat|..] + "\n";
      ReplaceAllBeforeNewline(s[|pat|..], pat, rep);
    } else if s == [] {
      assert t[1..] == [];
    } else {
      assert t[1..] == s[1..] + "\n";
      ReplaceAllBeforeNewline(s[1..], pat, rep);
      if |s| >= |pat| {
        assert s[..|pat|] == t[..|pat|];
      }
    }
  }

  /** Replacing in a file is replacing in each of its lines, when the pattern
      spans no newline. */
  lemma ReplaceAllLines(lines: seq<string>, pat: string, rep: string)
    requires pat != [] && '\n' !in pat
    ensures ReplaceAll(Unlines(lines), pat, rep) == Unlines(ReplaceEach(lines, pat, rep))
  {
    UnlinesIsConcat(lines);
    UnlinesIsConcat(ReplaceEach(lines, pat, rep));
    ReplaceAllPieces(Terminated(lines), pat, rep);
    forall k | 0 <= k < |lines|
      ensures ReplaceEach(Terminated(lines), pat, rep)[k] == Terminated(ReplaceEach(lines, pat, rep))[k]
    {
      ReplaceAllBeforeNewline(lines[k], pat, rep);
    }
    assert ReplaceEach(Terminated(lines), pat, rep) == Terminated(ReplaceEach(lines, pat, rep));
  }

  /** A line missing one of two characters of the pattern is left as it is. */
  lemma ReplaceAllKeepsLine(line: string, pat: string, rep: string, c1: char, c2: char)
    requires pat != [] && c1 in pat && c2 in pat
    requires c1 !in line || c2 !in line
    ensures ReplaceAll(line, pat, rep) == line
  {
    if c1 !in line {
      AbsentChar(line, pat, c1);
    } else {
      AbsentChar(line, pat, c2);
    }
    ReplaceAllAbsent(line, pat, rep);
  }

  lemma {:induction false} UnlinesAppend(a: seq<string>, b: seq<string>)
    ensures Unlines(a + b) == Unlines(a) + Unlines(b)
  {
    if a != [] {
      assert (a + b)[1..] == a[1..] + b;
      UnlinesAppend(a[1..], b);
    } else {
      assert a + b == b;
    }
  }

  function Digit(d: nat): char
    requires d < 10
  {
    "0123456789"[d]
  }

  /** Python's `str(n)` for a non-negative integer: its decimal digits. */
  function NatToString(n: nat): (r: string)
    ensures r != []
    ensures forall k :: 0 <= k < |r| ==> '0' <= r[k] <= '9'
  {
    if n < 10 then [Digit(n)] else NatToString(n / 10) + [Digit(n % 10)]
  }
}
