/**
 * What the Python string built-ins of `PyStrings` guarantee: joining the
 * pieces of a split with the separator gives back the input, the pieces hold
 * no separator, a split yields several
 * pieces exactly when the separator occurs, and the facts about joins and
 * concatenations the renderers rely on.
 */
module PyStringFacts {
  import opened PyStrings

  lemma {:induction false} ConcatAppend<T>(a: seq<seq<T>>, b: seq<seq<T>>)
    ensures Concat(a + b) == Concat(a) + Concat(b)
  {
    if |a| == 0 {
      assert a + b == b;
    } else {
      assert (a + b)[1..] == a[1..] + b;
      ConcatAppend(a[1..], b);
    }
  }

  /** Concatenating a non-empty list ends with its last element. */
  lemma ConcatLast<T>(xs: seq<seq<T>>)
    requires |xs| > 0
    ensures Concat(xs) == Concat(xs[..|xs| - 1]) + xs[|xs| - 1]
  {
    var init, last := xs[..|xs| - 1], xs[|xs| - 1];
    assert xs == init + [last];
    ConcatAppend(init, [last]);
    assert Concat([last]) == last + Concat<T>([]);
  }

  /** Joining a non-empty list behind one more separator puts `sep` before every element. */
  lemma {:induction false} JoinAsPrefixed(sep: string, xs: seq<string>)
    requires |xs| > 0
    ensures sep + Join(sep, xs) == ConcatPrefixed(sep, xs)
  {
    if |xs| > 1 {
      JoinAsPrefixed(sep, xs[1..]);
    }
  }

  /** Prefixing every element with `sep` adds `|sep|` characters per element. */
  lemma {:induction false} ConcatPrefixedLength(sep: string, xs: seq<string>)
    ensures |ConcatPrefixed(sep, xs)| == |Concat(xs)| + |xs| * |sep|
  {
    if |xs| > 0 {
      ConcatPrefixedLength(sep, xs[1..]);
    }
  }

  /** Joining two elements puts one separator between them. */
  lemma JoinTwo(sep: string, x: string, y: string)
    ensures Join(sep, [x, y]) == x + sep + y
  {
    assert [x, y][1..] == [y];
  }

  /** Putting one character in front of the first element puts it in front of the join. */
  lemma JoinConsFirst(sep: string, c: char, xs: seq<string>)
    requires |xs| > 0
    ensures Join(sep, [[c] + xs[0]] + xs[1..]) == [c] + Join(sep, xs)
  {
    var ys := [[c] + xs[0]] + xs[1..];
    if |xs| > 1 {
      assert ys[1..] == xs[1..];
    }
  }

  /** Split and join are inverse: `d.join(s.split(d)) == s`. */
  lemma {:induction false} SplitJoin(s: string, d: string)
    requires |d| > 0
    ensures Join(d, Split(s, d)) == s
    decreases |s|
  {
    if |s| < |d| {
    } else if s[..|d|] == d {
      SplitJoin(s[|d|..], d);
      SplitJoinAtSeparator(s, d);
    } else {
      SplitJoin(s[1..], d);
      SplitJoinAtChar(s, d);
    }
  }

  /** The step of SplitJoin when `s` starts with the separator. */
  lemma SplitJoinAtSeparator(s: string, d: string)
    requires 0 < |d| <= |s| && s[..|d|] == d
    requires Join(d, Split(s[|d|..], d)) == s[|d|..]
    ensures Join(d, Split(s, d)) == s
  {
    var t := s[|d|..];
    SplitAtLeadingSeparator(s, d);
    JoinLeadingEmpty(d, Split(t, d), t);
    PrefixAndRest(s, |d|);
  }

  /** A string is its first `n` characters followed by the rest. */
  lemma PrefixAndRest(s: string, n: nat)
    requires n <= |s|
    ensures s[..n] + s[n..] == s
  {
  }

  /** A leading separator gives an empty first piece. */
  lemma SplitAtLeadingSeparator(s: string, d: string)
    requires 0 < |d| <= |s| && s[..|d|] == d
    ensures Split(s, d) == [""] + Split(s[|d|..], d)
  {
  }

  /** An empty first element leaves just the separator in front of the join of the rest. */
  lemma JoinLeadingEmpty(sep: string, xs: seq<string>, t: string)
    requires |xs| > 0 && Join(sep, xs) == t
    ensures Join(sep, [""] + xs) == sep + t
  {
    JoinCons(sep, "", xs);
    EmptyFirst(sep);
  }

  /** Joining `x` in front of a non-empty list adds `x` and one separator. */
  lemma JoinCons(sep: string, x: string, xs: seq<string>)
    requires |xs| > 0
    ensures Join(sep, [x] + xs) == x + sep + Join(sep, xs)
  {
    assert ([x] + xs)[1..] == xs;
  }

  /** The empty string is a left unit of concatenation. */
  lemma EmptyFirst(s: string)
    ensures "" + s == s
  {
  }

  /** The step of SplitJoin when `s` does not start with the separator. */
  lemma SplitJoinAtChar(s: string, d: string)
    requires 0 < |d| <= |s| && s[..|d|] != d
    requires Join(d, Split(s[1..], d)) == s[1..]
    ensures Join(d, Split(s, d)) == s
  {
    var rest := Split(s[1..], d);
    assert Split(s, d) == [[s[0]] + rest[0]] + rest[1..];
    JoinConsFirst(d, s[0], rest);
    assert s == [s[0]] + s[1..];
  }

  /** The pieces, concatenated, are `s` with every separator deleted. */
  lemma {:induction false} SplitConcat(s: string, d: string)
    requires |d| > 0
    ensures Concat(Split(s, d)) == RemoveAll(s, d)
    decreases |s|
  {
    if |s| < |d| {
    } else if s[..|d|] == d {
      var rest := Split(s[|d|..], d);
      SplitConcat(s[|d|..], d);
      assert ([""] + rest)[1..] == rest;
    } else {
      var rest := Split(s[1..], d);
      SplitConcat(s[1..], d);
      var r := [[s[0]] + rest[0]] + rest[1..];
      assert r[1..] == rest[1..];
      assert Concat(rest) == rest[0] + Concat(rest[1..]);
    }
  }

  /** The first piece is a prefix of the input. */
  lemma {:induction false} SplitFirstIsPrefix(s: string, d: string)
    requires |d| > 0
    ensures Split(s, d)[0] <= s
    decreases |s|
  {
    if |s| >= |d| && s[..|d|] != d {
      SplitFirstIsPrefix(s[1..], d);
      assert s == [s[0]] + s[1..];
    }
  }

  /** No piece contains the separator: every occurrence was cut out. */
  lemma {:induction false} SplitPiecesFree(s: string, d: string)
    requires |d| > 0
    ensures forall k :: 0 <= k < |Split(s, d)| ==> !Contains(Split(s, d)[k], d)
    decreases |s|
  {
    var r := Split(s, d);
    if |s| < |d| {
      assert r == [s];
    } else if s[..|d|] == d {
      var rest := Split(s[|d|..], d);
      SplitPiecesFree(s[|d|..], d);
      SplitAtLeadingSeparator(s, d);
      forall k | 0 <= k < |r| ensures !Contains(r[k], d) {
        if k > 0 {
          assert r[k] == rest[k - 1];
        }
      }
    } else {
      var rest := Split(s[1..], d);
      SplitPiecesFree(s[1..], d);
      SplitFirstIsPrefix(s[1..], d);
      FirstPieceFree(s, d, rest[0]);
      var first := [s[0]] + rest[0];
      assert r == [first] + rest[1..];
      forall k | 0 <= k < |r| ensures !Contains(r[k], d) {
        if k > 0 {
          assert r[k] == rest[k];
        }
      }
    }
  }

  /**
   * When `s` does not start with `d`, its first character followed by a
   * separator-free prefix `p` of `s[1..]` is still separator-free.
   */
  lemma FirstPieceFree(s: string, d: string, p: string)
    requires 0 < |d| <= |s| && s[..|d|] != d
    requires p <= s[1..] && !Contains(p, d)
    ensures !Contains([s[0]] + p, d)
  {
    var first := [s[0]] + p;
    assert first <= s;
    forall i | 0 <= i <= |first| - |d| ensures !Occurs(d, first, i) {
      if i == 0 {
        assert first[..|d|] == s[..|d|];
      } else {
        assert first[i..i + |d|] == p[i - 1..i - 1 + |d|];
        assert !Occurs(d, p, i - 1);
      }
    }
  }

  /** The split yields more than one piece exactly when the separator occurs. */
  lemma {:induction false} SplitSeveralIffContains(s: string, d: string)
    requires |d| > 0
    ensures |Split(s, d)| > 1 <==> Contains(s, d)
    decreases |s|
  {
    if |s| < |d| {
    } else if s[..|d|] == d {
      SplitAtLeadingSeparator(s, d);
      assert Occurs(d, s, 0);
    } else {
      SplitSeveralIffContains(s[1..], d);
      ContainsPastFirst(s, d);
    }
  }

  /** When `s` does not start with `d`, `d` occurs in `s` exactly when it occurs in `s[1..]`. */
  lemma ContainsPastFirst(s: string, d: string)
    requires 0 < |d| <= |s| && s[..|d|] != d
    ensures Contains(s, d) <==> Contains(s[1..], d)
  {
    if Contains(s[1..], d) {
      var i :| 0 <= i <= |s[1..]| - |d| && Occurs(d, s[1..], i);
      TailSlice(s, i + 1, |d|);
      assert Occurs(d, s, i + 1);
    }
    if Contains(s, d) {
      var i :| 0 <= i <= |s| - |d| && Occurs(d, s, i);
      assert i != 0;
      TailSlice(s, i, |d|);
      assert Occurs(d, s[1..], i - 1);
    }
  }

  /** A slice of `s[1..]` is the slice of `s` one position further on. */
  lemma TailSlice(s: string, i: nat, n: nat)
    requires 1 <= i && i + n <= |s|
    ensures s[1..][i - 1..i - 1 + n] == s[i..i + n]
  {
  }

  /** The joined string is the elements plus one separator between each neighbouring pair. */
  lemma {:induction false} JoinLength(sep: string, xs: seq<string>)
    requires |xs| > 0
    ensures |Join(sep, xs)| == |Concat(xs)| + (|xs| - 1) * |sep|
  {
    if |xs| > 1 {
      JoinLength(sep, xs[1..]);
    }
  }

  /**
   * Splitting at the first occurrence: when `d` does not start anywhere
   * inside `a`, `(a + d + b).split(d)` is `a` followed by `b.split(d)`.
   */
  lemma {:induction false} SplitAtFirst(a: string, d: string, b: string)
    requires |d| > 0
    requires forall i :: 0 <= i < |a| ==> !Occurs(d, a + d + b, i)
    ensures Split(a + d + b, d) == [a] + Split(b, d)
    decreases |a|
  {
    var s := a + d + b;
    if |a| == 0 {
      assert s == d + b;
      assert s[..|d|] == d;
      assert s[|d|..] == b;
    } else {
      assert !Occurs(d, s, 0);
      assert s[..|d|] != d;
      assert s[1..] == a[1..] + d + b;
      forall i | 0 <= i < |a[1..]| ensures !Occurs(d, a[1..] + d + b, i) {
        assert !Occurs(d, s, i + 1);
        assert s[i + 1..i + 1 + |d|] == s[1..][i..i + |d|];
      }
      SplitAtFirst(a[1..], d, b);
      assert [s[0]] + a[1..] == a;
    }
  }

  /** A string in which `d` does not occur is its own single piece. */
  lemma SplitAbsent(s: string, d: string)
    requires |d| > 0 && !Contains(s, d)
    ensures Split(s, d) == [s]
  {
    SplitSeveralIffContains(s, d);
    SplitJoin(s, d);
  }

  /** `SplitAtFirst` for a one-character separator that does not occur in `a`. */
  lemma SplitAtFirstChar(a: string, d: string, b: string)
    requires |d| == 1 && d[0] !in a
    ensures Split(a + d + b, d) == [a] + Split(b, d)
  {
    forall i | 0 <= i < |a| ensures !Occurs(d, a + d + b, i) {
      assert (a + d + b)[i..i + 1] == [a[i]];
    }
    SplitAtFirst(a, d, b);
  }

  /** Two occurrences of a one-character separator cut a string into three pieces. */
  lemma SplitTwice(a: string, b: string, c: string, d: string)
    requires |d| == 1 && d[0] !in a && d[0] !in b && d[0] !in c
    ensures Split(a + d + b + d + c, d) == [a, b, c]
  {
    assert a + d + b + d + c == a + d + (b + d + c);
    SplitAtFirstChar(a, d, b + d + c);
    SplitAtFirstChar(b, d, c);
    SplitAbsent(c, d);
  }

  /** An occurrence stays an occurrence, shifted, when text is added around it. */
  lemma OccursInContext(s: string, t: string, k: int, p: string, q: string)
    requires Occurs(s, t, k)
    ensures Occurs(s, p + t + q, |p| + k)
  {
    assert (p + t + q)[|p| + k..|p| + k + |s|] == t[k..k + |s|];
  }

  /** Each element appears in the concatenation, after the elements before it. */
  lemma {:induction false} ConcatAt(xs: seq<string>, i: nat)
    requires i < |xs|
    ensures Occurs(xs[i], Concat(xs), |Concat(xs[..i])|)
  {
    if i == 0 {
      assert Concat(xs) == xs[0] + Concat(xs[1..]);
      assert Concat(xs)[..|xs[0]|] == xs[0];
    } else {
      ConcatAt(xs[1..], i - 1);
      OccursInContext(xs[i], Concat(xs[1..]), |Concat(xs[1..][..i - 1])|, xs[0], "");
      assert xs[0] + Concat(xs[1..]) + "" == Concat(xs);
      assert xs[..i][1..] == xs[1..][..i - 1];
      assert Concat(xs[..i]) == xs[0] + Concat(xs[1..][..i - 1]);
    }
  }
}
