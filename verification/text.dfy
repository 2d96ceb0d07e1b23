/** Small string helpers with Python's semantics: `s[:n]` slicing,
    `startswith`, "first n characters plus an ellipsis" truncation and
    splitting on a delimiter.  Python's `len` counts code points, which is
    what a Dafny `char` is, so lengths agree with the source. */
module Text {

  function Min(a: int, b: int): int {
    if a <= b then a else b
  }

  function Max(a: int, b: int): int {
    if a <= b then b else a
  }

  predicate StartsWith(s: string, prefix: string) {
    |prefix| <= |s| && s[..|prefix|] == prefix
  }

  const Ellipsis: string := "..."

  /** Python's `s[:n]` for a non-negative `n`: the first `n` characters, or
      all of `s` when it is shorter. */
  function Clip(s: string, n: nat): (r: string)
    ensures |r| == Min(n, |s|)
    ensures StartsWith(s, r)
    ensures |s| <= n ==> r == s
  {
    if |s| <= n then s else s[..n]
  }

  /** `s[:keep] + "..." if len(s) > limit else s`. */
  function Abbreviate(s: string, limit: nat, keep: nat): (r: string)
    requires keep <= limit
    ensures |s| <= limit ==> r == s
    ensures |s| > limit ==> |r| == keep + 3 && StartsWith(s, r[..keep]) && r[keep..] == Ellipsis
    ensures |r| <= Max(limit, keep + 3)
  {
    if |s| > limit then s[..keep] + Ellipsis else s
  }

  /** Abbreviating an abbreviated string changes nothing. */
  lemma AbbreviateIdempotent(s: string, limit: nat, keep: nat)
    requires keep <= limit
    ensures Abbreviate(Abbreviate(s, limit, keep), limit, keep) == Abbreviate(s, limit, keep)
  {
  }

  /** Splits `s` at every occurrence of `d` (Python's `s.split(d)`): the
      result always has one more piece than `s` has delimiters. */
  function Split(s: string, d: char): (pieces: seq<string>)
    ensures |pieces| >= 1
    ensures forall k :: 0 <= k < |pieces| ==> d !in pieces[k]
    decreases |s|
  {
    if s == [] then [[]]
    else
      var rest := Split(s[1..], d);
      if s[0] == d then [[]] + rest else [[s[0]] + rest[0]] + rest[1..]
  }

  /** Joining pieces with `d` and splitting again gives back the pieces, so
      long as no piece contains the delimiter. */
  lemma {:induction false} SplitPrefix(a: string, d: char, rest: string)
    requires d !in a
    ensures Split(a + [d] + rest, d) == [a] + Split(rest, d)
    decreases |a|
  {
    if a == [] {
      assert a + [d] + rest == [d] + rest;
      assert ([d] + rest)[1..] == rest;
    } else {
      var s := a + [d] + rest;
      assert s[0] == a[0];
      assert s[1..] == a[1..] + [d] + rest;
      SplitPrefix(a[1..], d, rest);
      assert [a[0]] + a[1..] == a;
    }
  }

  lemma {:induction false} SplitNoDelimiter(a: string, d: char)
    requires d !in a
    ensures Split(a, d) == [a]
    decreases |a|
  {
    if a != [] {
      SplitNoDelimiter(a[1..], d);
      assert [a[0]] + a[1..] == a;
    }
  }

  /** `a + s == b + s` forces `a == b`. */
  lemma CancelSuffix(a: string, b: string, s: string)
    requires a + s == b + s
    ensures a == b
  {
    assert |a| == |b|;
    assert a == (a + s)[..|a|];
    assert b == (b + s)[..|b|];
  }

  /** `p + a == p + b` forces `a == b`. */
  lemma CancelPrefix(p: string, a: string, b: string)
    requires p + a == p + b
    ensures a == b
  {
    assert a == (p + a)[|p|..];
    assert b == (p + b)[|p|..];
  }
}
