/** The fragment of Python's `re` that the USB parsers use: literals, greedy
    one-or-more repetitions of a character class, fixed-count repetitions,
    anchored matching (`re.match`) and leftmost searching (`re.search`).
    A match records the text consumed by every item of the pattern, so the
    capture groups are picked out by position. */
module Regex {

  import opened Options
  import opened Strings

  /** `\s`, `[^\S\n]`, `\d` (ASCII digits only), `[0-9a-f]` and `.`. */
  datatype CharClass = Space | HorizontalSpace | Digit | LowerHex | NotNewline

  predicate InClass(c: char, cls: CharClass)
  {
    match cls
    case Space => IsSpace(c)
    case HorizontalSpace => IsSpace(c) && c != '\n'
    case Digit => IsDigit(c)
    case LowerHex => IsDigit(c) || 'a' <= c <= 'f'
    case NotNewline => c != '\n'
  }

  predicate AllIn(t: string, cls: CharClass)
  {
    forall j :: 0 <= j < |t| ==> InClass(t[j], cls)
  }

  /** One pattern item: a literal, `C+` (greedy) or `C{n}`. */
  datatype Item = Lit(text: string) | Plus(cls: CharClass) | Exactly(cls: CharClass, count: nat)

  /** End of the longest run of class characters starting at `i`. */
  function RunEnd(s: string, i: nat, cls: CharClass): (e: nat)
    requires i <= |s|
    ensures i <= e <= |s|
    ensures AllIn(s[i..e], cls)
    ensures e == |s| || !InClass(s[e], cls)
    decreases |s| - i
  {
    if i < |s| && InClass(s[i], cls) then
      var e := RunEnd(s, i + 1, cls);
      assert forall j :: 0 < j < e - i ==> s[i..e][j] == s[i + 1..e][j - 1];
      e
    else i
  }

  function Prepend(t: string, r: Option<seq<string>>): Option<seq<string>>
  {
    match r
    case None => None
    case Some(ts) => Some([t] + ts)
  }

  /** The backtracking matcher: the texts consumed by the items, for the
      first way of matching `items` at `i` in the order the regex engine
      tries them (longest repetition first). */
  function Run(s: string, i: nat, items: seq<Item>): (r: Option<seq<string>>)
    requires i <= |s|
    ensures r.Some? ==> |r.value| == |items|
    decreases |items|, 1, 0
  {
    if items == [] then Some([])
    else
      match items[0]
      case Lit(t) =>
        if OccursAt(s, t, i) then Prepend(t, Run(s, i + |t|, items[1..])) else None
      case Exactly(cls, n) =>
        if i + n <= |s| && AllIn(s[i..i + n], cls) then Prepend(s[i..i + n], Run(s, i + n, items[1..])) else None
      case Plus(cls) =>
        TryPlus(s, i, RunEnd(s, i, cls) - i, cls, items[1..])
  }

  /** A greedy `C+` at `i`: try `k` characters, then fewer, down to one. */
  function TryPlus(s: string, i: nat, k: nat, cls: CharClass, rest: seq<Item>): (r: Option<seq<string>>)
    requires i + k <= |s|
    ensures r.Some? ==> |r.value| == |rest| + 1
    ensures r.Some? ==> 0 < |r.value[0]| <= k && r.value[0] == s[i..i + |r.value[0]|]
    decreases |rest| + 1, 0, k
  {
    if k == 0 then None
    else
      match Run(s, i + k, rest)
      case Some(ts) => Some([s[i..i + k]] + ts)
      case None => TryPlus(s, i, k - 1, cls, rest)
  }

  /** A successful search: where the match starts and what each item consumed. */
  datatype Found = Found(start: nat, texts: seq<string>)

  /** `re.search`: the match at the leftmost start position from `p` on. */
  function SearchFrom(s: string, p: nat, items: seq<Item>): (r: Option<Found>)
    requires p <= |s|
    ensures r.Some? ==> p <= r.value.start <= |s| && Run(s, r.value.start, items) == Some(r.value.texts)
    ensures r.Some? ==> forall q :: p <= q < r.value.start ==> Run(s, q, items).None?
    ensures r.None? <==> forall q :: p <= q <= |s| ==> Run(s, q, items).None?
    decreases |s| - p
  {
    match Run(s, p, items)
    case Some(ts) => Some(Found(p, ts))
    case None =>
      if p == |s| then None
      else
        SearchFrom(s, p + 1, items)
  }

  /** `re.search`: the leftmost match in the whole text, if any. */
  function Search(s: string, items: seq<Item>): (r: Option<Found>)
    ensures r.Some? ==> r.value.start <= |s| && Run(s, r.value.start, items) == Some(r.value.texts)
    ensures r.Some? ==> forall q :: 0 <= q < r.value.start ==> Run(s, q, items).None?
    ensures r.None? <==> forall q :: 0 <= q <= |s| ==> Run(s, q, items).None?
  {
    SearchFrom(s, 0, items)
  }

  /** The search finds the first position where the pattern matches. */
  lemma SearchAt(s: string, items: seq<Item>, i: nat, ts: seq<string>)
    requires i <= |s| && Run(s, i, items) == Some(ts)
    requires forall q :: 0 <= q < i ==> Run(s, q, items).None?
    ensures Search(s, items) == Some(Found(i, ts))
  {
    var r := Search(s, items);
    assert r.Some?;
    assert !(r.value.start < i);
    assert !(i < r.value.start);
  }

  // ---------------------------------------------------------------------
  // Soundness: what a match consumed fits the pattern

  function Concat(ts: seq<string>): string
  {
    if ts == [] then [] else ts[0] + Concat(ts[1..])
  }

  lemma ConcatFive(a: string, b: string, c: string, d: string, e: string)
    ensures Concat([a, b, c, d, e]) == a + b + c + d + e
  {
    var ts := [a, b, c, d, e];
    assert ts[1..][1..][1..][1..][1..] == [];
    assert Concat(ts[1..][1..][1..][1..]) == e;
    assert Concat(ts[1..][1..][1..]) == d + e;
    assert Concat(ts[1..][1..]) == c + (d + e);
    assert Concat(ts[1..]) == b + (c + (d + e));
  }

  lemma {:induction false} ConcatAppend(xs: seq<string>, ys: seq<string>)
    ensures Concat(xs + ys) == Concat(xs) + Concat(ys)
    decreases |xs|
  {
    if xs == [] {
      assert xs + ys == ys;
    } else {
      assert (xs + ys)[1..] == xs[1..] + ys;
      ConcatAppend(xs[1..], ys);
    }
  }

  /** The text an item consumed is of the item's shape. */
  predicate Fits(item: Item, t: string)
  {
    match item
    case Lit(x) => t == x
    case Plus(cls) => |t| >= 1 && AllIn(t, cls)
    case Exactly(cls, n) => |t| == n && AllIn(t, cls)
  }

  predicate FitsAll(items: seq<Item>, ts: seq<string>)
  {
    |ts| == |items| && forall k :: 0 <= k < |items| ==> Fits(items[k], ts[k])
  }

  lemma StartsWithCons(s: string, i: nat, t: string, rest: string)
    requires i + |t| <= |s| && s[i..i + |t|] == t
    requires StartsWith(s[i + |t|..], rest)
    ensures StartsWith(s[i..], t + rest)
  {
    var u := t + rest;
    assert forall j :: 0 <= j < |u| ==> s[i..][j] == u[j] by {
      forall j | 0 <= j < |u|
        ensures s[i..][j] == u[j]
      {
        if j >= |t| {
          assert s[i + |t|..][j - |t|] == rest[j - |t|];
        }
      }
    }
  }

  /** A match consumes a prefix of the remaining input, item by item, each
      piece of the item's shape. */
  lemma {:induction false} RunSound(s: string, i: nat, items: seq<Item>)
    requires i <= |s| && Run(s, i, items).Some?
    ensures FitsAll(items, Run(s, i, items).value)
    ensures StartsWith(s[i..], Concat(Run(s, i, items).value))
    decreases |items|, 1, 0
  {
    if items != [] {
      var ts := Run(s, i, items).value;
      if items[0].Plus? {
        var cls := items[0].cls;
        TryPlusSound(s, i, RunEnd(s, i, cls) - i, cls, items[1..]);
        assert items == [Plus(cls)] + items[1..];
      } else {
        RunSoundHead(s, i, items, ts);
        RunSound(s, i + |ts[0]|, items[1..]);
        SoundCons(s, i, items, ts);
      }
    }
  }

  /** A literal or a `C{n}` consumes the first piece of a match. */
  lemma RunSoundHead(s: string, i: nat, items: seq<Item>, ts: seq<string>)
    requires i <= |s| && |items| >= 1 && !items[0].Plus? && Run(s, i, items) == Some(ts)
    ensures |ts| >= 1 && i + |ts[0]| <= |s| && s[i..i + |ts[0]|] == ts[0] && Fits(items[0], ts[0])
    ensures Run(s, i + |ts[0]|, items[1..]) == Some(ts[1..])
  {
  }

  /** A piece of the first item's shape followed by a sound match of the
      rest is a sound match of the whole. */
  lemma SoundCons(s: string, i: nat, items: seq<Item>, ts: seq<string>)
    requires |items| >= 1 && |ts| >= 1 && i + |ts[0]| <= |s| && s[i..i + |ts[0]|] == ts[0]
    requires Fits(items[0], ts[0]) && FitsAll(items[1..], ts[1..])
    requires StartsWith(s[i + |ts[0]|..], Concat(ts[1..]))
    ensures FitsAll(items, ts) && StartsWith(s[i..], Concat(ts))
  {
    StartsWithCons(s, i, ts[0], Concat(ts[1..]));
    assert forall k :: 1 <= k < |items| ==> items[1..][k - 1] == items[k] && ts[1..][k - 1] == ts[k];
  }

  /** A search result is a match at its start position. */
  lemma SearchSound(s: string, items: seq<Item>, f: Found)
    requires Search(s, items) == Some(f)
    ensures f.start <= |s| && FitsAll(items, f.texts)
    ensures StartsWith(s[f.start..], Concat(f.texts))
  {
    RunSound(s, f.start, items);
  }

  lemma {:induction false} TryPlusSound(s: string, i: nat, k: nat, cls: CharClass, rest: seq<Item>)
    requires i + k <= |s| && AllIn(s[i..i + k], cls)
    requires TryPlus(s, i, k, cls, rest).Some?
    ensures FitsAll([Plus(cls)] + rest, TryPlus(s, i, k, cls, rest).value)
    ensures StartsWith(s[i..], Concat(TryPlus(s, i, k, cls, rest).value))
    decreases |rest| + 1, 0, k
  {
    var ts := TryPlus(s, i, k, cls, rest).value;
    match Run(s, i + k, rest)
    case Some(us) =>
      RunSound(s, i + k, rest);
      assert ts == [s[i..i + k]] + us;
      StartsWithCons(s, i, s[i..i + k], Concat(us));
      assert forall j :: 0 <= j < |rest| ==> ([Plus(cls)] + rest)[j + 1] == rest[j];
    case None =>
      AllInShorter(s, i, k, k - 1, cls);
      TryPlusSound(s, i, k - 1, cls, rest);
  }

  lemma AllInShorter(s: string, i: nat, k: nat, n: nat, cls: CharClass)
    requires n <= k && i + k <= |s| && AllIn(s[i..i + k], cls)
    ensures AllIn(s[i..i + n], cls)
  {
    var t, u := s[i..i + k], s[i..i + n];
    assert forall j :: 0 <= j < n ==> u[j] == t[j];
  }

  lemma ConcatNoChar(ts: seq<string>, c: char)
    requires forall k :: 0 <= k < |ts| ==> c !in ts[k]
    ensures c !in Concat(ts)
  {
    if ts != [] {
      assert forall k :: 0 <= k < |ts[1..]| ==> ts[1..][k] == ts[k + 1];
      ConcatNoChar(ts[1..], c);
    }
  }

  // ---------------------------------------------------------------------
  // Computing matches on inputs of known shape

  /** The run of class characters that starts at `i` ends at `i + m`. */
  lemma RunEndOf(s: string, i: nat, cls: CharClass, m: nat)
    requires i + m <= |s| && AllIn(s[i..i + m], cls)
    requires i + m == |s| || !InClass(s[i + m], cls)
    ensures RunEnd(s, i, cls) == i + m
  {
    var e := RunEnd(s, i, cls);
    forall j | i <= j < i + m
      ensures InClass(s[j], cls)
    {
      assert s[i..i + m][j - i] == s[j];
    }
    forall j | i <= j < e
      ensures InClass(s[j], cls)
    {
      assert s[i..e][j - i] == s[j];
    }
  }

  /** `C+` cannot start on a character outside the class. */
  lemma PlusFails(s: string, j: nat, cls: CharClass, rest: seq<Item>)
    requires j <= |s| && (j == |s| || !InClass(s[j], cls))
    ensures Run(s, j, [Plus(cls)] + rest).None?
  {
    RunEndOf(s, j, cls, 0);
  }

  /** A greedy repetition whose continuation cannot start inside the run
      takes the whole run. */
  lemma {:induction false} TryPlusMaximal(s: string, i: nat, k: nat, cls: CharClass, rest: seq<Item>)
    requires i + k <= |s|
    requires forall j :: i < j < i + k ==> Run(s, j, rest).None?
    ensures TryPlus(s, i, k, cls, rest) == (if k == 0 then None else Prepend(s[i..i + k], Run(s, i + k, rest)))
    decreases k
  {
    if k > 0 && Run(s, i + k, rest).None? {
      TryPlusMaximal(s, i, k - 1, cls, rest);
    }
  }

  /** `C+` on a run of exactly `m >= 1` class characters, followed by a
      continuation that cannot start inside the run. */
  lemma PlusStep(s: string, i: nat, cls: CharClass, m: nat, rest: seq<Item>)
    requires 1 <= m && i + m <= |s| && AllIn(s[i..i + m], cls)
    requires i + m == |s| || !InClass(s[i + m], cls)
    requires forall j :: i < j < i + m ==> Run(s, j, rest).None?
    ensures Run(s, i, [Plus(cls)] + rest) == Prepend(s[i..i + m], Run(s, i + m, rest))
  {
    RunEndOf(s, i, cls, m);
    assert ([Plus(cls)] + rest)[1..] == rest;
    TryPlusMaximal(s, i, m, cls, rest);
  }

  /** A class whose characters are all outside `other`. */
  predicate Disjoint(cls: CharClass, other: CharClass)
  {
    forall c: char :: InClass(c, cls) ==> !InClass(c, other)
  }

  /** `C+ D+ …` with disjoint classes: `C+` takes its whole run. */
  lemma PlusBeforeDisjoint(s: string, i: nat, cls: CharClass, m: nat, other: CharClass, rest: seq<Item>)
    requires 1 <= m && i + m <= |s| && AllIn(s[i..i + m], cls)
    requires i + m == |s| || !InClass(s[i + m], cls)
    requires Disjoint(cls, other)
    ensures Run(s, i, [Plus(cls)] + ([Plus(other)] + rest)) == Prepend(s[i..i + m], Run(s, i + m, [Plus(other)] + rest))
  {
    forall j | i < j < i + m
      ensures Run(s, j, [Plus(other)] + rest).None?
    {
      assert s[i..i + m][j - i] == s[j];
      PlusFails(s, j, other, rest);
    }
    PlusStep(s, i, cls, m, [Plus(other)] + rest);
  }

  /** A final `C+` matches the whole run when it is non-empty. */
  lemma PlusLast(s: string, j: nat, cls: CharClass)
    requires j < |s| && InClass(s[j], cls)
    ensures Run(s, j, [Plus(cls)]) == Some([s[j..RunEnd(s, j, cls)]])
  {
    var e := RunEnd(s, j, cls);
    assert [Plus(cls)][1..] == [];
    assert TryPlus(s, j, e - j, cls, []) == Some([s[j..e]] + []);
    assert [s[j..e]] + [] == [s[j..e]];
  }

  /** A literal followed by more items. */
  lemma LitStep(s: string, i: nat, t: string, rest: seq<Item>)
    requires i <= |s| && OccursAt(s, t, i)
    ensures Run(s, i, [Lit(t)] + rest) == Prepend(t, Run(s, i + |t|, rest))
  {
    assert ([Lit(t)] + rest)[1..] == rest;
  }

  lemma LitFails(s: string, i: nat, t: string, rest: seq<Item>)
    requires i <= |s| && !OccursAt(s, t, i)
    ensures Run(s, i, [Lit(t)] + rest).None?
  {
  }

  /** `C{n}` followed by more items. */
  lemma ExactlyStep(s: string, i: nat, cls: CharClass, n: nat, rest: seq<Item>)
    requires i + n <= |s| && AllIn(s[i..i + n], cls)
    ensures Run(s, i, [Exactly(cls, n)] + rest) == Prepend(s[i..i + n], Run(s, i + n, rest))
  {
    assert ([Exactly(cls, n)] + rest)[1..] == rest;
  }

  // ---------------------------------------------------------------------
  // Completeness: an input cut into pieces of the items' shapes matches

  /** The pieces an input is cut into: each of its item's shape, non-empty,
      spelling a prefix of the input from `i`, and every `C+` piece followed
      by a character outside its class (or by the end of the input). */
  predicate Shaped(s: string, i: nat, items: seq<Item>, pieces: seq<string>)
    requires i <= |s|
  {
    && FitsAll(items, pieces)
    && (forall k :: 0 <= k < |pieces| ==> |pieces[k]| >= 1)
    && StartsWith(s[i..], Concat(pieces))
    && (forall k :: 0 <= k < |items| - 1 && items[k].Plus? ==> !InClass(pieces[k + 1][0], items[k].cls))
    && (|items| >= 1 && items[|items| - 1].Plus? ==>
          var e := i + |Concat(pieces)|;
          e == |s| || !InClass(s[e], items[|items| - 1].cls))
  }

  lemma StartsWithSplit(s: string, i: nat, a: string, b: string)
    requires i <= |s| && StartsWith(s[i..], a + b)
    ensures i + |a| <= |s| && s[i..i + |a|] == a
    ensures StartsWith(s[i + |a|..], b)
  {
    assert s[i..][..|a|] == a;
    assert s[i..i + |a|] == s[i..][..|a|];
    assert s[i + |a|..][..|b|] == s[i..][..|a| + |b|][|a|..];
  }

  lemma ShapedTail(s: string, i: nat, items: seq<Item>, pieces: seq<string>)
    requires i <= |s| && |items| >= 1 && Shaped(s, i, items, pieces)
    ensures i + |pieces[0]| <= |s| && s[i..i + |pieces[0]|] == pieces[0]
    ensures Shaped(s, i + |pieces[0]|, items[1..], pieces[1..])
  {
    assert Concat(pieces) == pieces[0] + Concat(pieces[1..]);
    StartsWithSplit(s, i, pieces[0], Concat(pieces[1..]));
    assert forall k :: 0 <= k < |items| - 1 ==> items[1..][k] == items[k + 1] && pieces[1..][k] == pieces[k + 1];
  }

  /** A `C+` piece of a shaped input stops where the class does. */
  lemma ShapedPlusStops(s: string, i: nat, items: seq<Item>, pieces: seq<string>)
    requires i <= |s| && |items| >= 1 && items[0].Plus? && Shaped(s, i, items, pieces)
    ensures var j := i + |pieces[0]|;
            j <= |s| && (j == |s| || !InClass(s[j], items[0].cls))
  {
    ShapedTail(s, i, items, pieces);
    var j := i + |pieces[0]|;
    if |items| > 1 {
      assert Concat(pieces[1..]) == pieces[1] + Concat(pieces[2..]);
      StartsWithSplit(s, i, pieces[0], Concat(pieces[1..]));
      assert s[j..][0] == pieces[1][0];
    } else {
      assert Concat(pieces) == pieces[0] + Concat(pieces[1..]);
    }
  }

  /** One item of a shaped input: the item takes its piece, the rest
      matches as before. */
  lemma RunExactStep(s: string, i: nat, item: Item, rest: seq<Item>, p0: string, ts: seq<string>)
    requires i + |p0| <= |s| && s[i..i + |p0|] == p0 && Fits(item, p0)
    requires Run(s, i + |p0|, rest) == Some(ts)
    requires item.Plus? ==> i + |p0| == |s| || !InClass(s[i + |p0|], item.cls)
    ensures Run(s, i, [item] + rest) == Some([p0] + ts)
  {
    match item
    case Lit(t) =>
      LitStep(s, i, t, rest);
    case Exactly(cls, n) =>
      ExactlyStep(s, i, cls, n, rest);
    case Plus(cls) =>
      PlusTakesPiece(s, i, cls, rest, p0, ts);
  }

  /** A `C+` whose piece ends where the class does takes the whole piece. */
  lemma PlusTakesPiece(s: string, i: nat, cls: CharClass, rest: seq<Item>, p0: string, ts: seq<string>)
    requires i + |p0| <= |s| && s[i..i + |p0|] == p0 && |p0| >= 1 && AllIn(p0, cls)
    requires Run(s, i + |p0|, rest) == Some(ts)
    requires i + |p0| == |s| || !InClass(s[i + |p0|], cls)
    ensures Run(s, i, [Plus(cls)] + rest) == Some([p0] + ts)
  {
    assert ([Plus(cls)] + rest)[1..] == rest;
    RunEndOf(s, i, cls, |p0|);
    assert TryPlus(s, i, |p0|, cls, rest) == Some([p0] + ts);
  }

  /** The first item of a shaped input takes the first piece. */
  lemma RunExactHead(s: string, i: nat, items: seq<Item>, pieces: seq<string>)
    requires |items| >= 1 && |pieces| >= 1 && Fits(items[0], pieces[0])
    requires i + |pieces[0]| <= |s| && s[i..i + |pieces[0]|] == pieces[0]
    requires Run(s, i + |pieces[0]|, items[1..]) == Some(pieces[1..])
    requires items[0].Plus? ==> i + |pieces[0]| == |s| || !InClass(s[i + |pieces[0]|], items[0].cls)
    ensures Run(s, i, items) == Some(pieces)
  {
    RunExactStep(s, i, items[0], items[1..], pieces[0], pieces[1..]);
    assert items == [items[0]] + items[1..];
    assert pieces == [pieces[0]] + pieces[1..];
  }

  /** Greedy matching takes each piece whole: an input cut into shaped pieces
      matches with exactly those pieces. */
  lemma {:induction false} RunExact(s: string, i: nat, items: seq<Item>, pieces: seq<string>)
    requires i <= |s| && Shaped(s, i, items, pieces)
    ensures Run(s, i, items) == Some(pieces)
    decreases |items|
  {
    if items == [] {
      assert pieces == [];
    } else {
      ShapedTail(s, i, items, pieces);
      RunExact(s, i + |pieces[0]|, items[1..], pieces[1..]);
      if items[0].Plus? {
        ShapedPlusStops(s, i, items, pieces);
      }
      assert Fits(items[0], pieces[0]);
      RunExactHead(s, i, items, pieces);
    }
  }
}
