/**
  The modifier chain of a reference `{{name|f:a1:a2|g}}`: each segment after
  the first names a function and its extra arguments, and the functions are
  applied left to right, each output feeding the next.
*/
module Modifiers {
  import opened Text

  /**
    The functions a template may name, looked up by name and called with the
    current value followed by the extra arguments.
  */
  type Registry = (string, string, seq<string>) -> string

  /** One segment `f:a1:a2`: call `f(value, a1, a2)`. */
  function ApplyOne(reg: Registry, value: string, segment: string): string {
    var parts := Split(segment, ":");
    reg(parts[0], value, parts[1..])
  }

  /** The segments applied left to right. */
  function ApplyChain(reg: Registry, value: string, segments: seq<string>): string
    decreases |segments|
  {
    if segments == [] then value else ApplyChain(reg, ApplyOne(reg, value, segments[0]), segments[1..])
  }

  /** The segments of an expression that name functions: all but the first. */
  function Segments(expr: string): seq<string> {
    Split(expr, "|")[1..]
  }

  /** `applyModifiers` */
  function ApplyModifiers(reg: Registry, value: string, expr: string): string {
    ApplyChain(reg, value, Segments(expr))
  }

  /** Applying two runs of segments is applying the first, then the second to its output. */
  lemma {:induction false} ChainConcat(reg: Registry, value: string, s1: seq<string>, s2: seq<string>)
    ensures ApplyChain(reg, value, s1 + s2) == ApplyChain(reg, ApplyChain(reg, value, s1), s2)
    decreases |s1|
  {
    if s1 == [] {
      assert s1 + s2 == s2;
    } else {
      assert (s1 + s2)[1..] == s1[1..] + s2;
      ChainConcat(reg, ApplyOne(reg, value, s1[0]), s1[1..], s2);
    }
  }

  /** The chain extended by one segment applies that segment to the chain's output. */
  lemma ChainSnoc(reg: Registry, value: string, segments: seq<string>, s: string)
    ensures ApplyChain(reg, value, segments + [s]) == ApplyOne(reg, ApplyChain(reg, value, segments), s)
  {
    ChainConcat(reg, value, segments, [s]);
    assert [s][1..] == [];
  }

  /** An expression without `|` names no function: the value comes back unchanged. */
  lemma NoModifiersIdentity(reg: Registry, value: string, expr: string)
    requires !Contains(expr, "|")
    ensures ApplyModifiers(reg, value, expr) == value
  {
    SplitSingleIffAbsent(expr, "|");
  }

  /**
    An expression with modifiers, written as the variable name and the
    segments joined by `|`, applies exactly those segments, whatever they are.
  */
  lemma {:induction false} ModifiersOfJoin(reg: Registry, value: string, name: string, segments: seq<string>)
    requires !Contains(name, "|") && forall s :: s in segments ==> !Contains(s, "|")
    ensures ApplyModifiers(reg, value, Join([name] + segments, "|")) == ApplyChain(reg, value, segments)
  {
    SplitJoin([name] + segments, "|");
    assert ([name] + segments)[1..] == segments;
  }

  /** `explode` undoes `implode` when no piece holds the one-character separator. */
  lemma {:induction false} SplitJoin(parts: seq<string>, sep: string)
    requires |sep| == 1 && |parts| >= 1
    requires forall s :: s in parts ==> !Contains(s, sep)
    ensures Split(Join(parts, sep), sep) == parts
    decreases |parts|
  {
    if |parts| == 1 {
      SplitSingleIffAbsent(parts[0], sep);
      ExplodeImplodeRoundTrip(parts[0], sep);
    } else {
      SplitJoin(parts[1..], sep);
      SplitAppend(parts[0], sep, Join(parts[1..], sep));
    }
  }

  /** Splitting `a + sep + b` when `a` has no separator: `a`, then the pieces of `b`. */
  lemma {:induction false} SplitAppend(a: string, sep: string, b: string)
    requires |sep| == 1 && !Contains(a, sep)
    ensures Split(a + sep + b, sep) == [a] + Split(b, sep)
    decreases |a|
  {
    var s := a + sep + b;
    if |a| == 0 {
      assert s == sep + b;
      assert OccursAt(s, 0, sep);
      assert s[|sep|..] == b;
    } else {
      assert s[..1] == a[..1];
      assert !OccursAt(a, 0, sep);
      assert s[1..] == a[1..] + sep + b;
      SplitAppend(a[1..], sep, b);
      var rest := Split(s[1..], sep);
      assert rest[0] == a[1..] && rest[1..] == Split(b, sep);
      assert [s[0]] + rest[0] == a;
    }
  }
}
