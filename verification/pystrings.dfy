/**
 * The Python string built-ins the core relies on: `str.join`, `str.split` with a
 * non-empty separator, and the text an f-string produces for a `str | None` value.
 * Strings are sequences of characters; nothing is escaped or normalised.
 */
module PyStrings {
  import opened Wrappers

  /** The text that `str(o)` (and so an f-string) gives for a string or `None`. */
  function Format(o: Option<string>): string
  {
    match o
    case None => "None"
    case Some(s) => s
  }

  /** `s` occurs in `t` starting at index `i`. */
  predicate Occurs(s: string, t: string, i: int)
  {
    0 <= i && i + |s| <= |t| && t[i..i + |s|] == s
  }

  /** Python's `s in t` for strings. */
  predicate Contains(t: string, s: string)
  {
    exists i | 0 <= i <= |t| - |s| :: Occurs(s, t, i)
  }

  /** `"".join(xs)`, and more generally the concatenation of a list of sequences in order. */
  function Concat<T>(xs: seq<seq<T>>): seq<T>
  {
    if |xs| == 0 then [] else xs[0] + Concat(xs[1..])
  }

  /** `sep.join(xs)`: the elements in order with `sep` between neighbours. */
  function Join(sep: string, xs: seq<string>): string
  {
    if |xs| == 0 then ""
    else if |xs| == 1 then xs[0]
    else xs[0] + sep + Join(sep, xs[1..])
  }

  /** Every element preceded by `sep`, concatenated in order. */
  function ConcatPrefixed(sep: string, xs: seq<string>): string
  {
    if |xs| == 0 then "" else sep + xs[0] + ConcatPrefixed(sep, xs[1..])
  }

  /**
   * `s.split(d)` for a non-empty separator `d`: the pieces between the
   * non-overlapping occurrences of `d`, found left to right.
   */
  function Split(s: string, d: string): (r: seq<string>)
    requires |d| > 0
    ensures |r| >= 1
    decreases |s|
  {
    if |s| < |d| then [s]
    else if s[..|d|] == d then [""] + Split(s[|d|..], d)
    else
      var rest := Split(s[1..], d);
      [[s[0]] + rest[0]] + rest[1..]
  }

  /** `s` with every occurrence of `d`, found left to right, deleted. */
  function RemoveAll(s: string, d: string): string
    requires |d| > 0
    decreases |s|
  {
    if |s| < |d| then s
    else if s[..|d|] == d then RemoveAll(s[|d|..], d)
    else [s[0]] + RemoveAll(s[1..], d)
  }
}
