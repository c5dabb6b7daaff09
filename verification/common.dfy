/** Optional values, used where the source returns `None` or omits a key. */
module Options {

  datatype Option<+T> = None | Some(value: T)
}

/** Outcome of awaiting one `asyncio.create_subprocess_exec` call: the exit
    status with the decoded output streams, or the exception raised while
    launching the program or decoding its output. */
module Process {

  datatype Outcome = Exited(code: int, stdout: string, stderr: string) | Raised(message: string) {

    /** The command ran and reported exit status 0. */
    predicate Succeeded() {
      Exited? && code == 0
    }
  }
}

/** Filter-then-map over sequences: the shape of every "for line in lines: if
    match: append(record)" loop in the backend. */
module Seqs {

  import opened Options

  function FilterMap<A, B>(f: A -> Option<B>, s: seq<A>): (r: seq<B>)
    ensures |r| <= |s|
    decreases |s|
  {
    if s == [] then []
    else (match f(s[0]) case Some(y) => [y] case None => []) + FilterMap(f, s[1..])
  }

  /** Every output element is the image of some input element. */
  lemma {:induction false} FilterMapSound<A, B>(f: A -> Option<B>, s: seq<A>, y: B)
    requires y in FilterMap(f, s)
    ensures exists i :: 0 <= i < |s| && f(s[i]) == Some(y)
    decreases |s|
  {
    if f(s[0]) != Some(y) {
      FilterMapSound(f, s[1..], y);
      var i :| 0 <= i < |s[1..]| && f(s[1..][i]) == Some(y);
      assert s[1..][i] == s[i + 1];
    }
  }

  /** The output keeps input order: filtering a concatenation concatenates
      the filtered parts. */
  lemma {:induction false} FilterMapAppend<A, B>(f: A -> Option<B>, a: seq<A>, b: seq<A>)
    ensures FilterMap(f, a + b) == FilterMap(f, a) + FilterMap(f, b)
    decreases |a|
  {
    if a == [] {
      assert a + b == b;
    } else {
      assert (a + b)[1..] == a[1..] + b;
      FilterMapAppend(f, a[1..], b);
    }
  }

  /** Nothing accepted, nothing produced. */
  lemma {:induction false} FilterMapNone<A, B>(f: A -> Option<B>, s: seq<A>)
    requires forall x :: x in s ==> f(x).None?
    ensures FilterMap(f, s) == []
    decreases |s|
  {
    if s != [] {
      assert s[0] in s;
      assert forall x :: x in s[1..] ==> x in s;
      FilterMapNone(f, s[1..]);
    }
  }

  lemma FilterMapSingle<A, B>(f: A -> Option<B>, a: A)
    ensures FilterMap(f, [a]) == (if f(a).Some? then [f(a).value] else [])
  {
    assert [a][1..] == [];
  }

  lemma FilterMapAppend3<A, B>(f: A -> Option<B>, a: seq<A>, b: seq<A>, c: seq<A>)
    ensures FilterMap(f, a + b + c) == FilterMap(f, a) + FilterMap(f, b) + FilterMap(f, c)
  {
    FilterMapAppend(f, a, b);
    FilterMapAppend(f, a + b, c);
  }

  lemma FilterMapAppend4<A, B>(f: A -> Option<B>, a: seq<A>, b: seq<A>, c: seq<A>, d: seq<A>)
    ensures FilterMap(f, a + b + c + d) == FilterMap(f, a) + FilterMap(f, b) + FilterMap(f, c) + FilterMap(f, d)
  {
    FilterMapAppend3(f, a, b, c);
    FilterMapAppend(f, a + b + c, d);
  }

  /** A function that accepts every element, element by element, maps the
      sequence onto the sequence of its values. */
  lemma {:induction false} FilterMapAll<A, B>(f: A -> Option<B>, xs: seq<A>, ys: seq<B>)
    requires |xs| == |ys|
    requires forall k :: 0 <= k < |xs| ==> f(xs[k]) == Some(ys[k])
    ensures FilterMap(f, xs) == ys
    decreases |xs|
  {
    if xs != [] {
      assert forall k :: 0 <= k < |xs| - 1 ==> xs[1..][k] == xs[k + 1] && ys[1..][k] == ys[k + 1];
      FilterMapAll(f, xs[1..], ys[1..]);
      assert ys == [ys[0]] + ys[1..];
    }
  }

  /** Every element the function accepts reaches the output. */
  lemma {:induction false} FilterMapComplete<A, B>(f: A -> Option<B>, s: seq<A>, i: nat)
    requires i < |s| && f(s[i]).Some?
    ensures f(s[i]).value in FilterMap(f, s)
    decreases |s|
  {
    if i > 0 {
      assert s[1..][i - 1] == s[i];
      FilterMapComplete(f, s[1..], i - 1);
    }
  }

  // Solver hints. The identities below hold without proof; the flash-run
  // proofs call them so that each step names the one regrouping it needs,
  // which keeps those proofs cheap and stable.

  lemma AppendAssoc<T>(a: seq<T>, b: seq<T>, c: seq<T>)
    ensures a + (b + c) == (a + b) + c
  {
  }

  lemma Regroup<T>(a: seq<T>, b: seq<T>, c: seq<T>, d: seq<T>, e: seq<T>, f: seq<T>)
    ensures a + (b + c) + d + e + f == (a + b) + c + (d + e + f)
  {
  }

  lemma Displays<T>(a: T, b: T, c: T, d: T, e: T, f: T, g: T)
    ensures [a] + [b, c] == [a, b, c]
    ensures [a, b] + [c, d, e, f] + [g] == [a, b, c, d, e, f, g]
  {
  }

  // Concatenations of three pieces with known short values, stated over
  // plain variables so that callers need no sequence reasoning of their own
  // (solver hints too).

  lemma Join3Empty<T>(a: seq<T>, b: seq<T>, c: seq<T>)
    requires a == [] && b == [] && c == []
    ensures a + b + c == []
  {
  }

  lemma Join3Pair<T>(a: seq<T>, b: seq<T>, c: seq<T>, x: T, y: T)
    requires a == [] && b == [x] && c == [y]
    ensures a + b + c == [x, y]
  {
  }

  lemma Join3Single<T>(a: seq<T>, b: seq<T>, c: seq<T>, x: T)
    requires a == [] && b == [x] && c == []
    ensures a + b + c == [x]
  {
  }

  lemma Join4Triple<T>(a: seq<T>, b: seq<T>, c: seq<T>, d: seq<T>, x: T, y: T, z: T)
    requires a == [x] && b == [y] + [z] && c == [] && d == []
    ensures a + b + c + d == [x, y, z]
  {
  }

  lemma Join4Last<T>(a: seq<T>, b: seq<T>, c: seq<T>, d: seq<T>)
    requires a == [] && b == [] && c == []
    ensures a + b + c + d == d
  {
  }

  lemma Join3Lead<T>(a: seq<T>, b: seq<T>, c: seq<T>, x: T, y: T, t: seq<T>)
    requires a == [x] && b == [y] + t && c == []
    ensures a + b + c == [x, y] + t
  {
  }

  lemma AppendEmpty<T>(a: seq<T>)
    ensures a + [] == a
  {
  }
}

/** Floor division on naturals by repeated subtraction, with the facts the
    progress computation needs. Kept recursive so that the solver unfolds it
    only on demand. */
module Arith {

  function Div(n: nat, d: nat): nat
    requires d > 0
    decreases n
  {
    if n < d then 0 else 1 + Div(n - d, d)
  }

  /** `Div` is Dafny's (and Python's) floor division on naturals. */
  lemma {:induction false} DivIsFloor(n: nat, d: nat)
    requires d > 0
    ensures Div(n, d) == n / d
    decreases n
  {
    if n >= d {
      DivIsFloor(n - d, d);
      var q := (n - d) / d;
      assert n - d == d * q + (n - d) % d;
      assert n == d * (q + 1) + (n - d) % d;
      DivUnique(n, d, q + 1, (n - d) % d);
    } else {
      DivUnique(n, d, 0, n);
    }
  }

  lemma DivUnique(n: nat, d: nat, q: int, r: int)
    requires d > 0 && 0 <= r < d && n == d * q + r
    ensures n / d == q
  {
    var q', r' := n / d, n % d;
    assert d * q + r == d * q' + r';
    assert d * (q - q') == r' - r;
    MulBetween(d, q - q');
  }

  lemma MulBetween(d: int, k: int)
    requires d > 0 && -d < d * k < d
    ensures k == 0
  {
    if k >= 1 {
      assert d * k == d * (k - 1) + d;
      MulNonneg(d, k - 1);
    }
  }

  /** A solver hint for the step in `MulBetween`. */
  lemma MulNonneg(d: int, k: int)
    requires d > 0 && k >= 0
    ensures d * k >= 0
  {
  }

  lemma {:induction false} DivMonotone(x: nat, y: nat, d: nat)
    requires d > 0 && x <= y
    ensures Div(x, d) <= Div(y, d)
    decreases x
  {
    if x >= d {
      DivMonotone(x - d, y - d, d);
    }
  }

  lemma {:induction false} DivAtMost(x: nat, d: nat, c: nat)
    requires d > 0 && x <= c * d
    ensures Div(x, d) <= c
    decreases x
  {
    if x >= d {
      DivAtMost(x - d, d, c - 1);
    }
  }

  /** Dividing an exact multiple gives back the factor. */
  lemma {:induction false} DivExact(c: nat, d: nat)
    requires d > 0
    ensures Div(c * d, d) == c
    decreases c
  {
    if c > 0 {
      assert c * d - d == (c - 1) * d;
      DivExact(c - 1, d);
    }
  }
}
