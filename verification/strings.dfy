/** Python string primitives the backend relies on: `str.isspace`, `str.strip`,
    `str.split(sep)`, `str.split()`, `startswith`, `endswith` and `in`.
    Strings are sequences of characters; no encoding is involved. */
module Strings {

  /** Python's `str.isspace()` for one character (the set CPython treats as
      whitespace in `strip`, `split()` and the regex class `\s`). */
  predicate IsSpace(c: char) {
    || c == ' '
    || ('\t' <= c <= '\r')
    || ('\U{1C}' <= c <= '\U{1F}')
    || c == '\U{85}' || c == '\U{A0}' || c == '\U{1680}'
    || ('\U{2000}' <= c <= '\U{200A}')
    || c == '\U{2028}' || c == '\U{2029}' || c == '\U{202F}' || c == '\U{205F}' || c == '\U{3000}'
  }

  predicate AllSpace(s: string) {
    forall i :: 0 <= i < |s| ==> IsSpace(s[i])
  }

  predicate NoSpace(s: string) {
    forall i :: 0 <= i < |s| ==> !IsSpace(s[i])
  }

  predicate IsDigit(c: char) {
    '0' <= c <= '9'
  }

  predicate StartsWith(s: string, prefix: string) {
    |prefix| <= |s| && s[..|prefix|] == prefix
  }

  predicate EndsWith(s: string, suffix: string) {
    |suffix| <= |s| && s[|s| - |suffix|..] == suffix
  }

  /** Python's `sub in s`. */
  predicate Contains(s: string, sub: string) {
    exists i | 0 <= i <= |s| - |sub| :: OccursAt(s, sub, i)
  }

  predicate OccursAt(s: string, sub: string, i: int) {
    0 <= i <= |s| - |sub| && s[i..i + |sub|] == sub
  }

  /** Number of leading whitespace characters. */
  function LeadingSpaces(s: string): (k: nat)
    ensures k <= |s|
    ensures AllSpace(s[..k])
    ensures k == |s| || !IsSpace(s[k])
  {
    if |s| > 0 && IsSpace(s[0]) then 1 + LeadingSpaces(s[1..]) else 0
  }

  /** Index where the trailing whitespace of `s` begins. */
  function TrailingStart(s: string): (j: nat)
    ensures j <= |s|
    ensures AllSpace(s[j..])
    ensures j == 0 || !IsSpace(s[j - 1])
  {
    if |s| > 0 && IsSpace(s[|s| - 1]) then TrailingStart(s[..|s| - 1]) else |s|
  }

  /** Python's `s.strip()`: the text between the leading and trailing whitespace. */
  function Strip(s: string): (r: string)
    ensures r == [] || (!IsSpace(r[0]) && !IsSpace(r[|r| - 1]))
    ensures r == [] <==> AllSpace(s)
  {
    var i := LeadingSpaces(s);
    var t := s[i..];
    var j := TrailingStart(t);
    assert j == 0 ==> AllSpace(s) by {
      if j == 0 {
        assert t[j..] == t;
        AllSpaceConcat(s, i);
      }
    }
    t[..j]
  }

  /** A string is all whitespace when both sides of a cut are. */
  lemma AllSpaceConcat(s: string, i: nat)
    requires i <= |s| && AllSpace(s[..i]) && AllSpace(s[i..])
    ensures AllSpace(s)
  {
    assert forall k :: 0 <= k < |s| ==> s[k] == (if k < i then s[..i][k] else s[i..][k - i]);
  }

  lemma {:induction false} LeadingSpacesOf(a: string, rest: string)
    requires AllSpace(a)
    requires rest == [] || !IsSpace(rest[0])
    ensures LeadingSpaces(a + rest) == |a|
    decreases |a|
  {
    if a == [] {
      assert a + rest == rest;
    } else {
      assert (a + rest)[1..] == a[1..] + rest;
      LeadingSpacesOf(a[1..], rest);
    }
  }

  lemma {:induction false} TrailingStartOf(m: string, b: string)
    requires AllSpace(b)
    requires m == [] || !IsSpace(m[|m| - 1])
    ensures TrailingStart(m + b) == |m|
    decreases |b|
  {
    if b == [] {
      assert m + b == m;
    } else {
      assert (m + b)[..|m + b| - 1] == m + b[..|b| - 1];
      TrailingStartOf(m, b[..|b| - 1]);
    }
  }

  /** Any string with whitespace-only margins around a core that neither starts
      nor ends with whitespace strips to that core. */
  lemma StripUnique(a: string, m: string, b: string)
    requires AllSpace(a) && AllSpace(b)
    requires m == [] || (!IsSpace(m[0]) && !IsSpace(m[|m| - 1]))
    ensures Strip(a + m + b) == m
  {
    var s := a + m + b;
    if m == [] {
      assert AllSpace(s) by {
        assert forall k :: 0 <= k < |s| ==> s[k] == (if k < |a| then a[k] else b[k - |a|]);
      }
    } else {
      assert s == a + (m + b);
      LeadingSpacesOf(a, m + b);
      assert s[|a|..] == m + b;
      TrailingStartOf(m, b);
      assert (m + b)[..|m|] == m;
    }
  }

  /** Stripping is idempotent. */
  lemma StripIdempotent(s: string)
    ensures Strip(Strip(s)) == Strip(s)
  {
    StripUnique([], Strip(s), []);
    assert [] + Strip(s) + [] == Strip(s);
  }

  /** Stripping keeps a slice of the input with only whitespace cut away. */
  lemma StripSlice(s: string) returns (i: nat, j: nat)
    ensures i <= j <= |s| && Strip(s) == s[i..j] && AllSpace(s[..i]) && AllSpace(s[j..])
  {
    i := LeadingSpaces(s);
    var n := TrailingStart(s[i..]);
    j := i + n;
    assert s[i..][..n] == s[i..j];
    assert s[j..] == s[i..][n..];
  }

  /** Stripping introduces no character that was not there. */
  lemma StripNoChar(s: string, c: char)
    requires c !in s
    ensures c !in Strip(s)
  {
    var i, j := StripSlice(s);
    assert forall k :: 0 <= k < j - i ==> Strip(s)[k] == s[i + k];
  }

  /** Index of the first occurrence of `c`. */
  function IndexOf(s: string, c: char): (i: nat)
    requires c in s
    ensures i < |s| && s[i] == c && c !in s[..i]
  {
    if s[0] == c then 0 else 1 + IndexOf(s[1..], c)
  }

  /** Inverse of `Split`: the pieces glued back together with `sep`. */
  function Join(parts: seq<string>, sep: char): string
    requires |parts| >= 1
  {
    if |parts| == 1 then parts[0] else parts[0] + [sep] + Join(parts[1..], sep)
  }

  /** Python's `s.split(sep)` for a one-character separator. */
  function Split(s: string, sep: char): (r: seq<string>)
    ensures |r| >= 1
    ensures forall k :: 0 <= k < |r| ==> sep !in r[k]
    ensures Join(r, sep) == s
    decreases |s|
  {
    if sep !in s then [s]
    else
      var i := IndexOf(s, sep);
      var rest := Split(s[i + 1..], sep);
      assert s == s[..i] + [sep] + s[i + 1..];
      [s[..i]] + rest
  }

  /** Splitting what `Join` produced gives back the pieces. */
  lemma {:induction false} SplitJoin(parts: seq<string>, sep: char)
    requires |parts| >= 1
    requires forall k :: 0 <= k < |parts| ==> sep !in parts[k]
    ensures Split(Join(parts, sep), sep) == parts
    decreases |parts|
  {
    if |parts| > 1 {
      SplitStep(parts[0], sep, Join(parts[1..], sep));
      SplitJoin(parts[1..], sep);
      assert parts == [parts[0]] + parts[1..];
    }
  }

  /** The first separator ends the first piece. */
  lemma SplitStep(p: string, sep: char, rest: string)
    requires sep !in p
    ensures Split(p + [sep] + rest, sep) == [p] + Split(rest, sep)
  {
    var s := p + [sep] + rest;
    assert s[|p|] == sep;
    assert s[..|p|] == p;
    var i := IndexOf(s, sep);
    assert i == |p|;
    assert s[i + 1..] == rest;
  }

  /** The last `sep`-separated piece: Python's `s.split(sep)[-1]`. */
  function LastPiece(s: string, sep: char): (r: string)
    ensures sep !in r
    ensures EndsWith(s, r)
    ensures |r| == |s| || s[|s| - |r| - 1] == sep
  {
    var parts := Split(s, sep);
    LastPieceOfJoin(parts, sep);
    parts[|parts| - 1]
  }

  lemma {:induction false} LastPieceOfJoin(parts: seq<string>, sep: char)
    requires |parts| >= 1
    ensures var s := Join(parts, sep); var r := parts[|parts| - 1];
            EndsWith(s, r) && (|r| == |s| || s[|s| - |r| - 1] == sep)
    decreases |parts|
  {
    if |parts| > 1 {
      LastPieceOfJoin(parts[1..], sep);
      var s := Join(parts, sep);
      var t := Join(parts[1..], sep);
      assert s == (parts[0] + [sep]) + t;
      assert parts[1..][|parts[1..]| - 1] == parts[|parts| - 1];
      var r := parts[|parts| - 1];
      assert s[|s| - |r|..] == t[|t| - |r|..];
      if |r| == |t| {
        assert s[|s| - |r| - 1] == sep;
      } else {
        assert s[|s| - |r| - 1] == t[|t| - |r| - 1];
      }
    }
  }

  /** A piece that follows the last separator (or starts the string) and holds
      no separator is what `LastPiece` returns. */
  lemma LastPieceUnique(prefix: string, seg: string, sep: char)
    requires prefix == [] || prefix[|prefix| - 1] == sep
    requires sep !in seg
    ensures LastPiece(prefix + seg, sep) == seg
  {
    var s := prefix + seg;
    var r := LastPiece(s, sep);
    assert s[|s| - |seg|..] == seg;
  }

  /** Length of the initial run of non-whitespace characters. */
  function TokenEnd(s: string): (e: nat)
    ensures e <= |s|
    ensures NoSpace(s[..e])
    ensures e == |s| || IsSpace(s[e])
  {
    if |s| > 0 && !IsSpace(s[0]) then 1 + TokenEnd(s[1..]) else 0
  }

  /** Python's `s.split()` with no argument: the maximal whitespace-free runs. */
  function Tokens(s: string): (r: seq<string>)
    ensures forall k :: 0 <= k < |r| ==> |r[k]| > 0 && NoSpace(r[k])
    ensures r == [] <==> AllSpace(s)
    decreases |s|
  {
    var k := LeadingSpaces(s);
    if k == |s| then []
    else
      var t := s[k..];
      var e := TokenEnd(t);
      [t[..e]] + Tokens(t[e..])
  }

  lemma {:induction false} TokenEndOf(w: string, rest: string)
    requires NoSpace(w)
    requires rest == [] || IsSpace(rest[0])
    ensures TokenEnd(w + rest) == |w|
    decreases |w|
  {
    if w == [] {
      assert w + rest == rest;
    } else {
      assert (w + rest)[1..] == w[1..] + rest;
      TokenEndOf(w[1..], rest);
    }
  }

  /** Tokens of text that starts with a whitespace-free word `w` followed by
      whitespace or nothing. */
  lemma TokensCons(w: string, rest: string)
    requires |w| > 0 && NoSpace(w)
    requires rest == [] || IsSpace(rest[0])
    ensures Tokens(w + rest) == [w] + Tokens(rest)
  {
    var s := w + rest;
    LeadingSpacesOf([], s);
    assert [] + s == s;
    assert s[0..] == s;
    TokenEndOf(w, rest);
    assert s[..|w|] == w;
    assert s[|w|..] == rest;
  }

  /** Tokens are unaffected by leading whitespace. */
  lemma TokensSkipSpace(c: char, rest: string)
    requires IsSpace(c)
    ensures Tokens([c] + rest) == Tokens(rest)
  {
    var s := [c] + rest;
    assert s[1..] == rest;
    var k := LeadingSpaces(s);
    assert k == 1 + LeadingSpaces(rest);
    if k < |s| {
      assert s[k..] == rest[k - 1..];
    }
  }

  /** A single word is its own only token. */
  lemma TokensOne(w: string)
    requires |w| > 0 && NoSpace(w)
    ensures Tokens(w) == [w]
  {
    TokensCons(w, []);
    assert w + [] == w;
    assert Tokens([]) == [];
  }

  /** One more word in front of a space-joined string. */
  lemma TokensJoinStep(w: string, rest: string)
    requires |w| > 0 && NoSpace(w)
    ensures Tokens(w + [' '] + rest) == [w] + Tokens(rest)
  {
    var spaced := [' '] + rest;
    assert w + [' '] + rest == w + spaced;
    assert IsSpace(spaced[0]);
    TokensCons(w, spaced);
    TokensSkipSpace(' ', rest);
  }

  lemma TokensJoinCons(words: seq<string>)
    requires |words| >= 2 && |words[0]| > 0 && NoSpace(words[0])
    ensures Tokens(Join(words, ' ')) == [words[0]] + Tokens(Join(words[1..], ' '))
  {
    TokensJoinStep(words[0], Join(words[1..], ' '));
  }

  /** Splitting words joined by single spaces recovers the words. */
  lemma {:induction false} TokensJoin(words: seq<string>)
    requires |words| >= 1
    requires forall k :: 0 <= k < |words| ==> |words[k]| > 0 && NoSpace(words[k])
    ensures Tokens(Join(words, ' ')) == words
    decreases |words|
  {
    if |words| == 1 {
      TokensOne(words[0]);
    } else {
      TokensJoinCons(words);
      TokensJoin(words[1..]);
    }
  }

  /** A joined string starts with the first piece's first character. */
  lemma JoinFirst(parts: seq<string>, sep: char)
    requires |parts| >= 1 && |parts[0]| > 0
    ensures |Join(parts, sep)| > 0 && Join(parts, sep)[0] == parts[0][0]
  {
  }

  /** A joined string ends with the last piece's last character. */
  lemma LastCharOfJoin(parts: seq<string>, sep: char)
    requires |parts| >= 1 && |parts[|parts| - 1]| > 0
    ensures var s := Join(parts, sep); var r := parts[|parts| - 1];
            |s| > 0 && s[|s| - 1] == r[|r| - 1]
  {
    LastPieceOfJoin(parts, sep);
    var s := Join(parts, sep);
    var r := parts[|parts| - 1];
    assert s[|s| - |r|..][|r| - 1] == r[|r| - 1];
  }

  /** A non-empty line without surrounding whitespace or a line break. */
  predicate TrimmedLine(l: string)
  {
    |l| > 0 && !IsSpace(l[0]) && !IsSpace(l[|l| - 1]) && '\n' !in l
  }

  /** Stripping trimmed lines joined by newlines and followed by whitespace
      removes only that whitespace. */
  lemma StripJoinedLines(lines: seq<string>, tail: string)
    requires |lines| >= 1 && forall k :: 0 <= k < |lines| ==> TrimmedLine(lines[k])
    requires AllSpace(tail)
    ensures Strip(Join(lines, '\n') + tail) == Join(lines, '\n')
  {
    var body := Join(lines, '\n');
    assert TrimmedLine(lines[0]) && TrimmedLine(lines[|lines| - 1]);
    JoinFirst(lines, '\n');
    LastCharOfJoin(lines, '\n');
    assert !IsSpace(body[0]) && !IsSpace(body[|body| - 1]);
    StripUnique([], body, tail);
    assert [] + body + tail == body + tail;
  }

  /** ... and splitting the result at the newlines gives back the lines. */
  lemma SplitJoinedLines(lines: seq<string>, tail: string)
    requires |lines| >= 1 && forall k :: 0 <= k < |lines| ==> TrimmedLine(lines[k])
    requires AllSpace(tail)
    ensures Split(Strip(Join(lines, '\n') + tail), '\n') == lines
  {
    StripJoinedLines(lines, tail);
    SplitJoin(lines, '\n');
  }

  /** A character that is neither the separator nor in any piece is not in
      the joined string. */
  lemma {:induction false} JoinAvoids(parts: seq<string>, sep: char, c: char)
    requires |parts| >= 1 && c != sep
    requires forall k :: 0 <= k < |parts| ==> c !in parts[k]
    ensures c !in Join(parts, sep)
    decreases |parts|
  {
    if |parts| > 1 {
      JoinAvoids(parts[1..], sep, c);
    }
  }

  /** An occurrence inside the first part of a concatenation. */
  lemma OccursInPrefix(a: string, b: string, sub: string, i: int)
    requires OccursAt(a + b, sub, i) && i + |sub| <= |a|
    ensures OccursAt(a, sub, i)
  {
    assert (a + b)[i..i + |sub|] == a[i..i + |sub|];
  }

  /** An occurrence inside the second part of a concatenation. */
  lemma OccursInSuffix(a: string, b: string, sub: string, i: int)
    requires OccursAt(a + b, sub, i) && i >= |a|
    ensures OccursAt(b, sub, i - |a|)
  {
    assert (a + b)[i..i + |sub|] == b[i - |a|..i - |a| + |sub|];
  }

  /** An occurrence of `sub` in `a + b` that cannot straddle the boundary,
      because `sub` avoids the last character of `a`, lies in `a` or in `b`. */
  lemma ContainsAppend(a: string, b: string, sub: string)
    requires Contains(a + b, sub)
    requires |a| > 0 && a[|a| - 1] !in sub
    ensures Contains(a, sub) || Contains(b, sub)
  {
    var s := a + b;
    var i :| 0 <= i <= |s| - |sub| && OccursAt(s, sub, i);
    assert forall k :: i <= k < i + |sub| ==> s[k] == sub[k - i];
    assert s[|a| - 1] == a[|a| - 1];
    if i + |sub| <= |a| {
      OccursInPrefix(a, b, sub, i);
    } else {
      OccursInSuffix(a, b, sub, i);
    }
  }

  /** An occurrence of `sub` in `a + [c]`, where `c` is not in `sub`, lies in `a`. */
  lemma ContainsDropLast(a: string, c: char, sub: string)
    requires Contains(a + [c], sub) && c !in sub
    ensures Contains(a, sub)
  {
    var s := a + [c];
    var i :| 0 <= i <= |s| - |sub| && OccursAt(s, sub, i);
    assert forall k :: i <= k < i + |sub| ==> s[k] == sub[k - i];
    assert s[|a|] == c;
    if |sub| == 0 {
      assert OccursAt(a, sub, 0);
    } else {
      OccursInPrefix(a, [c], sub, i);
    }
  }

  /** An occurrence of `sub` in `a + [c] + b`, where `c` is not in `sub`,
      lies in `a` or in `b`. */
  lemma ContainsAround(a: string, c: char, b: string, sub: string)
    requires Contains(a + [c] + b, sub) && c !in sub
    ensures Contains(a, sub) || Contains(b, sub)
  {
    ContainsAppend(a + [c], b, sub);
    if Contains(a + [c], sub) {
      ContainsDropLast(a, c, sub);
    }
  }

  /** A substring without the separator lies within one of the joined pieces. */
  lemma {:induction false} ContainsJoin(parts: seq<string>, sep: char, sub: string)
    requires |parts| >= 1 && sep !in sub
    requires Contains(Join(parts, sep), sub)
    ensures exists k :: 0 <= k < |parts| && Contains(parts[k], sub)
    decreases |parts|
  {
    if |parts| > 1 {
      ContainsAround(parts[0], sep, Join(parts[1..], sep), sub);
      if !Contains(parts[0], sub) {
        ContainsJoin(parts[1..], sep, sub);
        var k :| 0 <= k < |parts[1..]| && Contains(parts[1..][k], sub);
        assert parts[1..][k] == parts[k + 1];
      }
    }
  }

  /** Decimal rendering of a natural number, as Python's `str(n)`. */
  function NatToString(n: nat): (r: string)
    ensures |r| >= 1
    ensures forall k :: 0 <= k < |r| ==> IsDigit(r[k])
  {
    var d := [(('0' as int) + n % 10) as char];
    if n < 10 then d else NatToString(n / 10) + d
  }
}
