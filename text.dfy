/**
  The string primitives of the PHP runtime that the template engine is built
  on: `strpos(...) !== false`, `str_replace` with a single search string,
  `explode` and `implode`, and `in_array`-guarded appends.
*/
module Text {

  /** No element occurs twice. */
  predicate NoDup<T(==)>(xs: seq<T>) {
    forall i, j :: 0 <= i < j < |xs| ==> xs[i] != xs[j]
  }

  /** `p` occurs in `s` starting at index `i`. */
  predicate OccursAt(s: string, i: nat, p: string) {
    i + |p| <= |s| && s[i..i + |p|] == p
  }

  /** `strpos(s, p) !== false`: `p` occurs somewhere in `s`. */
  predicate Contains(s: string, p: string)
    decreases |s|
  {
    OccursAt(s, 0, p) || (|s| > 0 && Contains(s[1..], p))
  }

  /**
    `str_replace(p, r, s)`: scans `s` left to right and replaces every
    non-overlapping occurrence of `p` by `r`; replaced text is not rescanned.
    PHP skips an empty search string.
  */
  function ReplaceAll(s: string, p: string, r: string): string
    decreases |s|
  {
    if |p| == 0 || |s| == 0 then s
    else if OccursAt(s, 0, p) then r + ReplaceAll(s[|p|..], p, r)
    else [s[0]] + ReplaceAll(s[1..], p, r)
  }

  /** `explode(sep, s)`: the pieces of `s` between occurrences of `sep`. */
  function Split(s: string, sep: string): (parts: seq<string>)
    requires |sep| > 0
    ensures |parts| >= 1
    decreases |s|
  {
    if |s| == 0 then [""]
    else if OccursAt(s, 0, sep) then [""] + Split(s[|sep|..], sep)
    else
      var rest := Split(s[1..], sep);
      [[s[0]] + rest[0]] + rest[1..]
  }

  /** `implode(sep, parts)`. */
  function Join(parts: seq<string>, sep: string): string {
    if |parts| == 0 then ""
    else if |parts| == 1 then parts[0]
    else parts[0] + sep + Join(parts[1..], sep)
  }

  /** `if (!in_array(x, xs)) xs[] = x;` */
  function AddIfAbsent(xs: seq<string>, x: string): (r: seq<string>)
    ensures x in r
    ensures NoDup(xs) ==> NoDup(r)
    ensures |xs| <= |r| && r[..|xs|] == xs
    ensures forall y :: y in r <==> y in xs || y == x
    ensures x in xs ==> r == xs
  {
    if x in xs then xs else xs + [x]
  }

  /** Replacing key by key is the same as exploding on the key and imploding with the replacement. */
  lemma {:induction false} ReplaceAllIsImplodeExplode(s: string, p: string, r: string)
    requires |p| > 0
    ensures ReplaceAll(s, p, r) == Join(Split(s, p), r)
    decreases |s|
  {
    if |s| == 0 {
    } else if OccursAt(s, 0, p) {
      ReplaceAllIsImplodeExplode(s[|p|..], p, r);
    } else {
      var rest := Split(s[1..], p);
      ReplaceAllIsImplodeExplode(s[1..], p, r);
      if |rest| > 1 {
        var parts := [[s[0]] + rest[0]] + rest[1..];
        assert parts[1..] == rest[1..];
        calc {
          Join(parts, r);
          ([s[0]] + rest[0]) + r + Join(rest[1..], r);
          [s[0]] + (rest[0] + r + Join(rest[1..], r));
          [s[0]] + Join(rest, r);
        }
      }
    }
  }

  /** Replacing a string by itself is the identity. */
  lemma {:induction false} ReplaceWithItself(s: string, p: string)
    ensures ReplaceAll(s, p, p) == s
    decreases |s|
  {
    if |p| == 0 || |s| == 0 {
    } else if OccursAt(s, 0, p) {
      ReplaceWithItself(s[|p|..], p);
      assert s == s[..|p|] + s[|p|..];
    } else {
      ReplaceWithItself(s[1..], p);
      assert s == [s[0]] + s[1..];
    }
  }

  /** `implode(sep, explode(sep, s)) == s`. */
  lemma ExplodeImplodeRoundTrip(s: string, sep: string)
    requires |sep| > 0
    ensures Join(Split(s, sep), sep) == s
  {
    ReplaceAllIsImplodeExplode(s, sep, sep);
    ReplaceWithItself(s, sep);
  }

  /** `explode` yields a single piece exactly when the separator does not occur. */
  lemma {:induction false} SplitSingleIffAbsent(s: string, sep: string)
    requires |sep| > 0
    ensures |Split(s, sep)| == 1 <==> !Contains(s, sep)
    decreases |s|
  {
    if |s| == 0 {
      assert !OccursAt(s, 0, sep);
    } else if OccursAt(s, 0, sep) {
    } else {
      SplitSingleIffAbsent(s[1..], sep);
    }
  }

  /** Replacing a string that does not occur leaves the subject unchanged. */
  lemma {:induction false} ReplaceAbsent(s: string, p: string, r: string)
    requires !Contains(s, p)
    ensures ReplaceAll(s, p, r) == s
    decreases |s|
  {
    if |p| == 0 || |s| == 0 {
    } else {
      ReplaceAbsent(s[1..], p, r);
      assert s == [s[0]] + s[1..];
    }
  }

  /** A string containing `q` contains every prefix of `q`. */
  lemma {:induction false} ContainsPrefix(s: string, q: string, k: nat)
    requires k <= |q|
    requires Contains(s, q)
    ensures Contains(s, q[..k])
    decreases |s|
  {
    if OccursAt(s, 0, q) {
      assert s[..k] == q[..k];
    } else {
      ContainsPrefix(s[1..], q, k);
    }
  }

  /** An occurrence at any index makes `strpos` succeed. */
  lemma {:induction false} OccursAtContains(s: string, i: nat, p: string)
    requires OccursAt(s, i, p)
    ensures Contains(s, p)
    decreases i
  {
    if i > 0 {
      assert s[1..][i - 1..i - 1 + |p|] == s[i..i + |p|];
      OccursAtContains(s[1..], i - 1, p);
    }
  }
}
