/**
  The render protocol. `block(b)` renders one more copy of block `b` into its
  accumulator `b_value`; `parse()` renders the parents of rendered blocks
  that were not rendered themselves, fills the FINALLY text of blocks never
  rendered, substitutes the root text and removes leftover references.
*/
module Render {
  import opened Wrappers
  import opened Text
  import opened PhpArray
  import opened Syntax
  import opened Store
  import opened Modifiers
  import opened Substitution

  /** The children recorded for a block. */
  function ChildrenOf(d: Doc, b: string): seq<string> {
    d.parentBlocks.GetOr(b, [])
  }

  /**
    `setParent`: `b` is appended to the children recorded for `parent` (a
    parent without a list gets one, placed last); every other parent keeps
    its children.
  */
  function SetParent(d: Doc, parent: string, b: string): (r: Doc)
    ensures d.Valid() ==> r.Valid()
    ensures ChildrenOf(r, parent) == ChildrenOf(d, parent) + [b]
    ensures forall q :: q != parent ==> ChildrenOf(r, q) == ChildrenOf(d, q)
    ensures parent in d.parentBlocks.vals ==> r.parentBlocks.keys == d.parentBlocks.keys
    ensures parent !in d.parentBlocks.vals ==> r.parentBlocks.keys == d.parentBlocks.keys + [parent]
    ensures r == d.(parentBlocks := r.parentBlocks)
  {
    d.(parentBlocks := d.parentBlocks.Put(parent, ChildrenOf(d, parent) + [b]))
  }

  /** Every key the first document stores, the second stores too. */
  predicate KeepsKeys(d: Doc, r: Doc) {
    forall k :: k in d.values.vals ==> k in r.values.vals
  }

  /**
    The loop of `processChildFinallyBlocks` over the children `cs` of `b`: a
    child with FINALLY text that is not yet parsed gets its accumulator set
    to the substituted FINALLY text, and `b` (not the child) is recorded as
    parsed.
  */
  function ChildFinally(d: Doc, reg: Registry, b: string, cs: seq<string>): (r: Doc)
    requires d.Valid()
    ensures r.Valid() && KeepsKeys(d, r)
    ensures r == d.(values := r.values, parsedBlocks := r.parsedBlocks)
    decreases |cs|
  {
    if cs == [] then d else ChildFinally(ChildStep(d, reg, b, cs[0]), reg, b, cs[1..])
  }

  /** The guard of that loop: the child has FINALLY text and is not parsed. */
  predicate ChildDue(d: Doc, c: string) {
    c in d.finallyBlocks.vals && c !in d.parsedBlocks
  }

  /** One iteration of that loop, for child `c`. */
  function ChildStep(d: Doc, reg: Registry, b: string, c: string): (r: Doc)
    requires d.Valid()
    ensures r.Valid() && KeepsKeys(d, r)
    ensures r == d.(values := r.values, parsedBlocks := r.parsedBlocks)
    ensures r.parsedBlocks == d.parsedBlocks || r.parsedBlocks == d.parsedBlocks + [b]
    ensures !ChildDue(d, c) ==> r == d
    ensures ChildDue(d, c) ==>
      && r.parsedBlocks == d.parsedBlocks + [b]
      && Key(ValueVar(c)) in r.values.vals
      && GetVar(r, ValueVar(c)) == Substitute(d, reg, d.finallyBlocks.vals[c])
  {
    if ChildDue(d, c) then
      SetValue(d, ValueVar(c), Substitute(d, reg, d.finallyBlocks.vals[c])).(parsedBlocks := d.parsedBlocks + [b])
    else d
  }

  /** `processChildFinallyBlocks` */
  function ProcessChildFinally(d: Doc, reg: Registry, b: string): (r: Doc)
    requires d.Valid()
    ensures r.Valid() && KeepsKeys(d, r)
    ensures r == d.(values := r.values, parsedBlocks := r.parsedBlocks)
  {
    ChildFinally(d, reg, b, ChildrenOf(d, b))
  }

  /** `markBlockAsParsed` */
  function MarkParsed(d: Doc, b: string): (r: Doc)
    ensures b in r.parsedBlocks
    ensures NoDup(d.parsedBlocks) ==> NoDup(r.parsedBlocks)
    ensures |d.parsedBlocks| <= |r.parsedBlocks| && r.parsedBlocks[..|d.parsedBlocks|] == d.parsedBlocks
    ensures forall x :: x in r.parsedBlocks <==> x in d.parsedBlocks || x == b
    ensures r == d.(parsedBlocks := r.parsedBlocks)
  {
    d.(parsedBlocks := AddIfAbsent(d.parsedBlocks, b))
  }

  /** The loop of `clearChildBlocks`: every listed child's accumulator is emptied. */
  function ClearAll(d: Doc, cs: seq<string>): (r: Doc)
    ensures d.Valid() ==> r.Valid()
    ensures KeepsKeys(d, r)
    ensures r == d.(values := r.values)
    ensures forall k :: k in d.values.vals ==> r.values.vals[k] == d.values.vals[k] || r.values.vals[k] == ""
    ensures forall c :: c in cs ==> Key(ValueVar(c)) in r.values.vals && GetVar(r, ValueVar(c)) == ""
    decreases |cs|
  {
    if cs == [] then d else ClearAll(Clear(d, ValueVar(cs[0])), cs[1..])
  }

  /** `clearChildBlocks` */
  function ClearChildren(d: Doc, b: string): (r: Doc)
    ensures d.Valid() ==> r.Valid()
    ensures KeepsKeys(d, r)
    ensures r == d.(values := r.values)
    ensures forall c :: c in ChildrenOf(d, b) ==> Key(ValueVar(c)) in r.values.vals && GetVar(r, ValueVar(c)) == ""
  {
    ClearAll(d, ChildrenOf(d, b))
  }

  /** The message `block` echoes for an unknown block. */
  function NoSuchBlock(b: string): string {
    "block " + b + " does not exist"
  }

  /** What `block` reads: the block's stored body, and its accumulator when appending. */
  predicate CanRender(d: Doc, b: string, append: bool) {
    b in d.blocks ==> Key(b) in d.values.vals && (append ==> Key(ValueVar(b)) in d.values.vals)
  }

  /** `block(b, append)` up to the point where the block is marked parsed. */
  function Rendered(d: Doc, reg: Registry, b: string, append: bool): (r: Doc)
    requires d.Valid() && b in d.blocks && CanRender(d, b, append)
    ensures r.Valid() && KeepsKeys(d, r)
    ensures r.parentBlocks == d.parentBlocks && r.blocks == d.blocks && r.finallyBlocks == d.finallyBlocks
  {
    var d1 := ProcessChildFinally(d, reg, b);
    var d2 :=
      if append then SetValue(d1, ValueVar(b), GetVar(d1, ValueVar(b)) + Substitute(d1, reg, GetVar(d1, b)))
      else d1;
    MarkParsed(d2, b)
  }

  /** `block(b, append)`; an unknown block changes nothing and is reported. */
  function Block(d: Doc, reg: Registry, b: string, append: bool): (r: (Doc, Option<string>))
    requires d.Valid() && CanRender(d, b, append)
    ensures r.0.Valid() && KeepsKeys(d, r.0)
    ensures b !in d.blocks ==> r == (d, Some(NoSuchBlock(b)))
    ensures b in d.blocks ==> r.1 == None && b in r.0.parsedBlocks
    ensures r.0.parentBlocks == d.parentBlocks && r.0.blocks == d.blocks && r.0.finallyBlocks == d.finallyBlocks
    ensures b in d.blocks ==> forall c :: c in ChildrenOf(d, b) ==> Key(ValueVar(c)) in r.0.values.vals && GetVar(r.0, ValueVar(c)) == ""
  {
    if b !in d.blocks then (d, Some(NoSuchBlock(b)))
    else (ClearChildren(Rendered(d, reg, b, append), b), None)
  }

  // ---------------------------------------------------------------------
  // Properties of `block`

  /** `r` is `a` followed by nothing but copies of `b`. */
  predicate OnlyAppends(a: seq<string>, r: seq<string>, b: string) {
    |a| <= |r| && r[..|a|] == a && forall i :: |a| <= i < |r| ==> r[i] == b
  }

  lemma OnlyAppendsStep(a: seq<string>, a': seq<string>, r: seq<string>, b: string)
    requires a' == a || a' == a + [b]
    requires OnlyAppends(a', r, b)
    ensures OnlyAppends(a, r, b)
  {
    assert r[..|a'|][..|a|] == r[..|a|];
  }

  /**
    `processChildFinallyBlocks` only ever records `b`: whatever it appends to
    the parsed list is the block itself, never one of its children.
  */
  lemma {:induction false} ChildFinallyRecordsParent(d: Doc, reg: Registry, b: string, cs: seq<string>)
    requires d.Valid()
    ensures OnlyAppends(d.parsedBlocks, ChildFinally(d, reg, b, cs).parsedBlocks, b)
    decreases |cs|
  {
    if cs != [] {
      var d' := ChildStep(d, reg, b, cs[0]);
      ChildFinallyRecordsParent(d', reg, b, cs[1..]);
      OnlyAppendsStep(d.parsedBlocks, d'.parsedBlocks, ChildFinally(d', reg, b, cs[1..]).parsedBlocks, b);
    }
  }

  /** The loop of `processChildFinallyBlocks` from child `i` on: one step, then the children after it. */
  lemma ChildFinallyFront(d: Doc, reg: Registry, b: string, cs: seq<string>, i: nat)
    requires d.Valid() && i < |cs|
    ensures ChildFinally(d, reg, b, cs[i..]) == ChildFinally(ChildStep(d, reg, b, cs[i]), reg, b, cs[i + 1..])
  {
    assert cs[i..][1..] == cs[i + 1..];
  }

  /** `processChildFinallyBlocks` writes only the accumulators of the children it is given. */
  lemma {:induction false} ChildFinallyOther(d: Doc, reg: Registry, b: string, cs: seq<string>, x: string)
    requires d.Valid() && Key(x) in d.values.vals
    requires forall c :: c in cs ==> ValueVar(c) != x
    ensures GetVar(ChildFinally(d, reg, b, cs), x) == GetVar(d, x)
    decreases |cs|
  {
    if cs != [] {
      KeyInjective(x, ValueVar(cs[0]));
      ChildFinallyOther(ChildStep(d, reg, b, cs[0]), reg, b, cs[1..], x);
    }
  }

  /** A name other than `b` that was not in the list is not in it after only copies of `b` were appended. */
  lemma OnlyAppendsAbsent(a: seq<string>, r: seq<string>, b: string, x: string)
    requires OnlyAppends(a, r, b) && x != b && x !in a
    ensures x !in r
  {
    forall j | 0 <= j < |r| ensures r[j] != x {
      if j < |a| {
        assert r[j] == r[..|a|][j];
      }
    }
  }

  /** The loop of `processChildFinallyBlocks` over `cs` is its run over a prefix, then over the rest. */
  lemma {:induction false} ChildFinallySplit(d: Doc, reg: Registry, b: string, cs: seq<string>, i: nat)
    requires d.Valid() && i <= |cs|
    ensures ChildFinally(d, reg, b, cs) == ChildFinally(ChildFinally(d, reg, b, cs[..i]), reg, b, cs[i..])
    decreases i
  {
    if i > 0 {
      assert cs[..i][0] == cs[0] && cs[..i][1..] == cs[1..][..i - 1];
      assert cs[i..] == cs[1..][i - 1..];
      ChildFinallySplit(ChildStep(d, reg, b, cs[0]), reg, b, cs[1..], i - 1);
    }
  }

  /**
    What `processChildFinallyBlocks` writes: the `i`-th child, when it has
    FINALLY text, is not parsed and is not listed again later, shows that text
    substituted in the document as the loop had left it just before.
  */
  lemma ChildFinallyAt(d: Doc, reg: Registry, b: string, cs: seq<string>, i: nat)
    requires d.Valid() && i < |cs| && cs[i] != b && cs[i] !in cs[i + 1..]
    requires ChildDue(d, cs[i])
    ensures Key(ValueVar(cs[i])) in ChildFinally(d, reg, b, cs).values.vals
    ensures GetVar(ChildFinally(d, reg, b, cs), ValueVar(cs[i])) ==
      Substitute(ChildFinally(d, reg, b, cs[..i]), reg, d.finallyBlocks.vals[cs[i]])
  {
    var c := cs[i];
    ChildFinallySplit(d, reg, b, cs, i);
    var m := ChildFinally(d, reg, b, cs[..i]);
    ChildFinallyRecordsParent(d, reg, b, cs[..i]);
    OnlyAppendsAbsent(d.parsedBlocks, m.parsedBlocks, b, c);
    ChildFinallyFront(m, reg, b, cs, i);
    var m' := ChildStep(m, reg, b, c);
    forall x | x in cs[i + 1..] ensures ValueVar(x) != ValueVar(c) {
      ValueVarInjective(x, c);
    }
    ChildFinallyOther(m', reg, b, cs[i + 1..], ValueVar(c));
  }

  /** `clearChildBlocks` leaves every variable other than the children's accumulators alone. */
  lemma {:induction false} ClearAllOther(d: Doc, cs: seq<string>, x: string)
    requires Key(x) in d.values.vals
    requires forall c :: c in cs ==> ValueVar(c) != x
    ensures GetVar(ClearAll(d, cs), x) == GetVar(d, x)
    decreases |cs|
  {
    if cs != [] {
      KeyInjective(x, ValueVar(cs[0]));
      ClearAllOther(Clear(d, ValueVar(cs[0])), cs[1..], x);
    }
  }

  /** A block that is not its own child is not touched by its children's accumulators. */
  predicate NotOwnChild(d: Doc, b: string) {
    b !in ChildrenOf(d, b) && forall c :: c in ChildrenOf(d, b) ==> ValueVar(c) != b
  }

  lemma NotOwnChildValueVar(d: Doc, b: string)
    requires NotOwnChild(d, b)
    ensures forall c :: c in ChildrenOf(d, b) ==> ValueVar(c) != ValueVar(b)
  {
    forall c | c in ChildrenOf(d, b) ensures ValueVar(c) != ValueVar(b) {
      ValueVarInjective(c, b);
    }
  }

  /**
    `block(b, true)` appends one substituted copy of the body to what the
    accumulator held before; the substitution sees the values as the
    children's FINALLY processing left them.
  */
  lemma BlockAppends(d: Doc, reg: Registry, b: string)
    requires d.Valid() && b in d.blocks && CanRender(d, b, true) && NotOwnChild(d, b)
    ensures GetVar(Block(d, reg, b, true).0, ValueVar(b))
            == GetVar(d, ValueVar(b)) + Substitute(ProcessChildFinally(d, reg, b), reg, GetVar(d, b))
  {
    var cs := ChildrenOf(d, b);
    NotOwnChildValueVar(d, b);
    var d1 := ProcessChildFinally(d, reg, b);
    ChildFinallyOther(d, reg, b, cs, ValueVar(b));
    ChildFinallyOther(d, reg, b, cs, b);
    var r := Rendered(d, reg, b, true);
    assert GetVar(r, ValueVar(b)) == GetVar(d, ValueVar(b)) + Substitute(d1, reg, GetVar(d, b));
    ClearAllOther(r, ChildrenOf(r, b), ValueVar(b));
  }

  /** `block(b, false)` leaves the accumulator as it was. */
  lemma BlockWithoutAppend(d: Doc, reg: Registry, b: string)
    requires d.Valid() && b in d.blocks && CanRender(d, b, false) && NotOwnChild(d, b)
    requires Key(ValueVar(b)) in d.values.vals
    ensures GetVar(Block(d, reg, b, false).0, ValueVar(b)) == GetVar(d, ValueVar(b))
  {
    var cs := ChildrenOf(d, b);
    NotOwnChildValueVar(d, b);
    ChildFinallyOther(d, reg, b, cs, ValueVar(b));
    var r := Rendered(d, reg, b, false);
    ClearAllOther(r, ChildrenOf(r, b), ValueVar(b));
  }

  /**
    A child that was not parsed before `block(b)` is still not parsed after
    it, even when its FINALLY text was rendered: only `b` is recorded.
  */
  lemma BlockLeavesChildUnparsed(d: Doc, reg: Registry, b: string, append: bool, c: string)
    requires d.Valid() && b in d.blocks && CanRender(d, b, append)
    requires c != b && c !in d.parsedBlocks
    ensures c !in Block(d, reg, b, append).0.parsedBlocks
  {
    var d1 := ProcessChildFinally(d, reg, b);
    ChildFinallyRecordsParent(d, reg, b, ChildrenOf(d, b));
    forall i | 0 <= i < |d1.parsedBlocks| ensures d1.parsedBlocks[i] != c {
      if i < |d.parsedBlocks| {
        assert d1.parsedBlocks[i] == d.parsedBlocks[i];
      }
    }
  }

  // ---------------------------------------------------------------------
  // parse

  /**
    What `parseParentBlocks` can read without failing: the text of every
    parent that is a registered block. It is enough, not needed: a parent
    is read only when one of its children is parsed and it is not.
  */
  predicate ParentsReadable(d: Doc) {
    forall p :: p in d.parentBlocks.vals && p in d.blocks ==> Key(p) in d.values.vals
  }

  /** `array_reverse` of a key list. */
  function Reverse(xs: seq<string>): (r: seq<string>)
    ensures |r| == |xs| && forall i :: 0 <= i < |xs| ==> r[i] == xs[|xs| - 1 - i]
  {
    if xs == [] then [] else Reverse(xs[1..]) + [xs[0]]
  }

  /** The guard of `parseParentBlocks`' inner loop. */
  predicate ParentDue(d: Doc, p: string, c: string) {
    p in d.blocks && c in d.parsedBlocks && p !in d.parsedBlocks
  }

  /**
    One iteration of `parseParentBlocks`' inner loop: a registered parent
    that is not parsed yet, with this child parsed, gets its accumulator
    overwritten by its substituted text and is recorded as parsed. `None`
    when the parent has no stored text: `getVar` then returns null from a
    `string` function, a fatal type error that ends the script.
  */
  function ParentStep(d: Doc, reg: Registry, p: string, c: string): (r: Option<Doc>)
    requires d.Valid()
    ensures r.Some? ==> r.value.Valid() && KeepsKeys(d, r.value)
    ensures r.Some? ==> r.value == d.(values := r.value.values, parsedBlocks := r.value.parsedBlocks)
    ensures !ParentDue(d, p, c) ==> r == Some(d)
    ensures ParentDue(d, p, c) ==> (r.None? <==> Key(p) !in d.values.vals)
    ensures ParentDue(d, p, c) && Key(p) in d.values.vals ==>
      && r.Some?
      && r.value.parsedBlocks == d.parsedBlocks + [p]
      && Key(ValueVar(p)) in r.value.values.vals
      && GetVar(r.value, ValueVar(p)) == Substitute(d, reg, GetVar(d, p))
  {
    if ParentDue(d, p, c) then
      if Key(p) !in d.values.vals then None
      else Some(SetValue(d, ValueVar(p), Substitute(d, reg, GetVar(d, p))).(parsedBlocks := d.parsedBlocks + [p]))
    else Some(d)
  }

  /** The inner loop over one parent's children; the first fatal read ends it. */
  function ParentChildren(d: Doc, reg: Registry, p: string, cs: seq<string>): (r: Option<Doc>)
    requires d.Valid()
    ensures r.Some? ==> r.value.Valid() && KeepsKeys(d, r.value)
    ensures r.Some? ==> r.value == d.(values := r.value.values, parsedBlocks := r.value.parsedBlocks)
    decreases |cs|
  {
    if cs == [] then Some(d)
    else
      match ParentStep(d, reg, p, cs[0])
      case None => None
      case Some(d1) => ParentChildren(d1, reg, p, cs[1..])
  }

  /** The inner loop from child `j` on: one step, then the children after it. */
  lemma ParentChildrenFront(d: Doc, reg: Registry, p: string, cs: seq<string>, j: nat)
    requires d.Valid() && j < |cs|
    ensures ParentChildren(d, reg, p, cs[j..]) ==
      match ParentStep(d, reg, p, cs[j])
      case None => None
      case Some(d1) => ParentChildren(d1, reg, p, cs[j + 1..])
  {
    assert cs[j..][1..] == cs[j + 1..];
  }

  /** The outer loop over the parents `ps`. */
  function ParentsFold(d: Doc, reg: Registry, ps: seq<string>): (r: Option<Doc>)
    requires d.Valid() && forall p :: p in ps ==> p in d.parentBlocks.vals
    ensures r.Some? ==> r.value.Valid() && KeepsKeys(d, r.value)
    ensures r.Some? ==> r.value == d.(values := r.value.values, parsedBlocks := r.value.parsedBlocks)
    decreases |ps|
  {
    if ps == [] then Some(d)
    else
      match ParentChildren(d, reg, ps[0], d.parentBlocks.vals[ps[0]])
      case None => None
      case Some(d1) => ParentsFold(d1, reg, ps[1..])
  }

  /** The outer loop from parent `i` on: that parent's children, then the parents after it. */
  lemma ParentsFoldFront(d: Doc, reg: Registry, ps: seq<string>, i: nat)
    requires d.Valid() && i < |ps|
    requires forall p :: p in ps[i..] ==> p in d.parentBlocks.vals
    ensures ps[i] in d.parentBlocks.vals && forall p :: p in ps[i + 1..] ==> p in d.parentBlocks.vals
    ensures ParentsFold(d, reg, ps[i..]) ==
      match ParentChildren(d, reg, ps[i], d.parentBlocks.vals[ps[i]])
      case None => None
      case Some(d1) => ParentsFold(d1, reg, ps[i + 1..])
  {
    assert ps[i..][0] == ps[i] && ps[i..][1..] == ps[i + 1..];
  }

  /** `parseParentBlocks`: the parents are visited in reverse insertion order. */
  function ParseParents(d: Doc, reg: Registry): (r: Option<Doc>)
    requires d.Valid()
    ensures r.Some? ==> r.value.Valid() && KeepsKeys(d, r.value)
    ensures r.Some? ==> r.value == d.(values := r.value.values, parsedBlocks := r.value.parsedBlocks)
  {
    ParentsFold(d, reg, Reverse(d.parentBlocks.keys))
  }

  /** With the text of every registered parent stored, no read in `parseParentBlocks` fails. */
  lemma {:induction false} ParentChildrenSafe(d: Doc, reg: Registry, p: string, cs: seq<string>)
    requires d.Valid() && ParentsReadable(d) && p in d.parentBlocks.vals
    ensures ParentChildren(d, reg, p, cs).Some?
    decreases |cs|
  {
    if cs != [] {
      ParentChildrenSafe(ParentStep(d, reg, p, cs[0]).value, reg, p, cs[1..]);
    }
  }

  lemma {:induction false} ParentsFoldSafe(d: Doc, reg: Registry, ps: seq<string>)
    requires d.Valid() && ParentsReadable(d) && forall p :: p in ps ==> p in d.parentBlocks.vals
    ensures ParentsFold(d, reg, ps).Some?
    decreases |ps|
  {
    if ps != [] {
      ParentChildrenSafe(d, reg, ps[0], d.parentBlocks.vals[ps[0]]);
      ParentsFoldSafe(ParentChildren(d, reg, ps[0], d.parentBlocks.vals[ps[0]]).value, reg, ps[1..]);
    }
  }

  lemma ParseParentsSafe(d: Doc, reg: Registry)
    requires d.Valid() && ParentsReadable(d)
    ensures ParseParents(d, reg).Some?
  {
    ParentsFoldSafe(d, reg, Reverse(d.parentBlocks.keys));
  }

  lemma {:induction false} ParentChildrenIdle(d: Doc, reg: Registry, p: string, cs: seq<string>)
    requires d.Valid() && d.parsedBlocks == []
    ensures ParentChildren(d, reg, p, cs) == Some(d)
    decreases |cs|
  {
    if cs != [] {
      ParentChildrenIdle(d, reg, p, cs[1..]);
    }
  }

  lemma {:induction false} ParentsFoldIdle(d: Doc, reg: Registry, ps: seq<string>)
    requires d.Valid() && d.parsedBlocks == [] && forall p :: p in ps ==> p in d.parentBlocks.vals
    ensures ParentsFold(d, reg, ps) == Some(d)
    decreases |ps|
  {
    if ps != [] {
      ParentChildrenIdle(d, reg, ps[0], d.parentBlocks.vals[ps[0]]);
      ParentsFoldIdle(d, reg, ps[1..]);
    }
  }

  /**
    Before any block is rendered `parseParentBlocks` renders no parent and
    reads nothing, so it cannot fail, whatever parents lack text.
  */
  lemma ParseParentsIdle(d: Doc, reg: Registry)
    requires d.Valid() && d.parsedBlocks == []
    ensures ParseParents(d, reg) == Some(d)
  {
    ParentsFoldIdle(d, reg, Reverse(d.parentBlocks.keys));
  }

  /**
    How the parsed list may grow during `parseParentBlocks`: by appending
    registered blocks that were not parsed before, each at most once.
  */
  predicate Grows(a: Doc, b: Doc) {
    && |a.parsedBlocks| <= |b.parsedBlocks|
    && b.parsedBlocks[..|a.parsedBlocks|] == a.parsedBlocks
    && NoDup(b.parsedBlocks[|a.parsedBlocks|..])
    && forall x :: x in b.parsedBlocks[|a.parsedBlocks|..] ==> x !in a.parsedBlocks && x in a.blocks
  }

  lemma GrowsRefl(a: Doc)
    ensures Grows(a, a)
  {
    assert a.parsedBlocks[|a.parsedBlocks|..] == [];
  }

  lemma GrowsTrans(a: Doc, b: Doc, c: Doc)
    requires Grows(a, b) && Grows(b, c) && a.blocks == b.blocks
    ensures Grows(a, c)
  {
    var e1 := b.parsedBlocks[|a.parsedBlocks|..];
    var e2 := c.parsedBlocks[|b.parsedBlocks|..];
    assert c.parsedBlocks == a.parsedBlocks + e1 + e2 by {
      assert c.parsedBlocks == b.parsedBlocks + e2;
      assert b.parsedBlocks == a.parsedBlocks + e1;
    }
    assert c.parsedBlocks[|a.parsedBlocks|..] == e1 + e2;
    forall i, j | 0 <= i < j < |e1 + e2| ensures (e1 + e2)[i] != (e1 + e2)[j] {
      if i < |e1| && j >= |e1| {
        assert (e1 + e2)[i] in b.parsedBlocks;
        assert (e1 + e2)[j] in e2;
      } else if i >= |e1| {
        assert (e1 + e2)[i] == e2[i - |e1|] && (e1 + e2)[j] == e2[j - |e1|];
      }
    }
    forall x | x in e1 + e2 ensures x !in a.parsedBlocks && x in a.blocks {
      if x in e2 {
        assert x !in b.parsedBlocks;
      }
    }
  }

  lemma ParentStepGrows(d: Doc, reg: Registry, p: string, c: string)
    requires d.Valid() && ParentStep(d, reg, p, c).Some?
    ensures Grows(d, ParentStep(d, reg, p, c).value)
  {
    var r := ParentStep(d, reg, p, c).value;
    if r.parsedBlocks == d.parsedBlocks {
      GrowsRefl(d);
    } else {
      assert r.parsedBlocks[|d.parsedBlocks|..] == [p];
    }
  }

  lemma {:induction false} ParentChildrenGrows(d: Doc, reg: Registry, p: string, cs: seq<string>)
    requires d.Valid() && ParentChildren(d, reg, p, cs).Some?
    ensures Grows(d, ParentChildren(d, reg, p, cs).value)
    decreases |cs|
  {
    if cs == [] {
      GrowsRefl(d);
    } else {
      var d1 := ParentStep(d, reg, p, cs[0]).value;
      ParentStepGrows(d, reg, p, cs[0]);
      ParentChildrenGrows(d1, reg, p, cs[1..]);
      GrowsTrans(d, d1, ParentChildren(d1, reg, p, cs[1..]).value);
    }
  }

  lemma {:induction false} ParentsFoldGrows(d: Doc, reg: Registry, ps: seq<string>)
    requires d.Valid() && forall p :: p in ps ==> p in d.parentBlocks.vals
    requires ParentsFold(d, reg, ps).Some?
    ensures Grows(d, ParentsFold(d, reg, ps).value)
    decreases |ps|
  {
    if ps == [] {
      GrowsRefl(d);
    } else {
      var d1 := ParentChildren(d, reg, ps[0], d.parentBlocks.vals[ps[0]]).value;
      ParentChildrenGrows(d, reg, ps[0], d.parentBlocks.vals[ps[0]]);
      ParentsFoldGrows(d1, reg, ps[1..]);
      GrowsTrans(d, d1, ParentsFold(d1, reg, ps[1..]).value);
    }
  }

  /**
    `parseParentBlocks` only appends to the parsed list, and what it appends
    are registered blocks that were not parsed before, each once; the root
    `.`, which is no block, is never among them.
  */
  lemma ParseParentsRecords(d: Doc, reg: Registry)
    requires d.Valid() && ParseParents(d, reg).Some?
    ensures Grows(d, ParseParents(d, reg).value)
  {
    ParentsFoldGrows(d, reg, Reverse(d.parentBlocks.keys));
  }

  /** Once the parent is reached, a parsed child gets it parsed. */
  lemma {:induction false} ParentChildrenReaches(d: Doc, reg: Registry, p: string, cs: seq<string>, c: string)
    requires d.Valid() && ParentChildren(d, reg, p, cs).Some?
    requires p in d.blocks && c in cs && (c in d.parsedBlocks || p in d.parsedBlocks)
    ensures p in ParentChildren(d, reg, p, cs).value.parsedBlocks
    decreases |cs|
  {
    var d1 := ParentStep(d, reg, p, cs[0]).value;
    ParentStepGrows(d, reg, p, cs[0]);
    assert forall x :: x in d.parsedBlocks ==> x in d1.parsedBlocks by {
      assert d1.parsedBlocks[..|d.parsedBlocks|] == d.parsedBlocks;
    }
    if c == cs[0] || p in d.parsedBlocks {
      ParentChildrenGrows(d1, reg, p, cs[1..]);
      var r := ParentChildren(d1, reg, p, cs[1..]).value;
      assert r.parsedBlocks[..|d1.parsedBlocks|] == d1.parsedBlocks;
      assert p in d1.parsedBlocks;
    } else {
      ParentChildrenReaches(d1, reg, p, cs[1..], c);
    }
  }

  lemma {:induction false} ParentsFoldReaches(d: Doc, reg: Registry, ps: seq<string>, p: string, c: string)
    requires d.Valid() && forall q :: q in ps ==> q in d.parentBlocks.vals
    requires ParentsFold(d, reg, ps).Some?
    requires p in ps && p in d.blocks && c in d.parentBlocks.vals[p] && c in d.parsedBlocks
    ensures p in ParentsFold(d, reg, ps).value.parsedBlocks
    decreases |ps|
  {
    var d1 := ParentChildren(d, reg, ps[0], d.parentBlocks.vals[ps[0]]).value;
    ParentChildrenGrows(d, reg, ps[0], d.parentBlocks.vals[ps[0]]);
    assert d1.parsedBlocks[..|d.parsedBlocks|] == d.parsedBlocks;
    assert c in d1.parsedBlocks;
    if ps[0] == p {
      ParentChildrenReaches(d, reg, p, d.parentBlocks.vals[p], c);
      ParentsFoldGrows(d1, reg, ps[1..]);
      var r := ParentsFold(d1, reg, ps[1..]).value;
      assert r.parsedBlocks[..|d1.parsedBlocks|] == d1.parsedBlocks;
    } else {
      ParentsFoldReaches(d1, reg, ps[1..], p, c);
    }
  }

  /** A registered block with a parsed child is parsed once `parseParentBlocks` has run. */
  lemma ParseParentsPropagates(d: Doc, reg: Registry, p: string, c: string)
    requires d.Valid() && ParseParents(d, reg).Some?
    requires p in d.parentBlocks.vals && p in d.blocks && c in d.parentBlocks.vals[p] && c in d.parsedBlocks
    ensures p in ParseParents(d, reg).value.parsedBlocks
  {
    var ks := d.parentBlocks.keys;
    var i :| 0 <= i < |ks| && ks[i] == p;
    assert Reverse(ks)[|ks| - 1 - i] == p;
    ParentsFoldReaches(d, reg, Reverse(ks), p, c);
  }

  /** A block parsed before the step keeps its accumulator and stays parsed. */
  lemma ParentStepKeepsParsed(d: Doc, reg: Registry, p: string, c: string, b: string)
    requires d.Valid() && ParentStep(d, reg, p, c).Some?
    requires b in d.parsedBlocks && Key(ValueVar(b)) in d.values.vals
    ensures b in ParentStep(d, reg, p, c).value.parsedBlocks
    ensures GetVar(ParentStep(d, reg, p, c).value, ValueVar(b)) == GetVar(d, ValueVar(b))
  {
    if ParentDue(d, p, c) {
      ValueVarInjective(p, b);
      KeyInjective(ValueVar(p), ValueVar(b));
    }
  }

  lemma {:induction false} ParentChildrenKeepsParsed(d: Doc, reg: Registry, p: string, cs: seq<string>, b: string)
    requires d.Valid() && ParentChildren(d, reg, p, cs).Some?
    requires b in d.parsedBlocks && Key(ValueVar(b)) in d.values.vals
    ensures b in ParentChildren(d, reg, p, cs).value.parsedBlocks
    ensures GetVar(ParentChildren(d, reg, p, cs).value, ValueVar(b)) == GetVar(d, ValueVar(b))
    decreases |cs|
  {
    if cs != [] {
      ParentStepKeepsParsed(d, reg, p, cs[0], b);
      ParentChildrenKeepsParsed(ParentStep(d, reg, p, cs[0]).value, reg, p, cs[1..], b);
    }
  }

  lemma {:induction false} ParentsFoldKeepsParsed(d: Doc, reg: Registry, ps: seq<string>, b: string)
    requires d.Valid() && forall p :: p in ps ==> p in d.parentBlocks.vals
    requires ParentsFold(d, reg, ps).Some?
    requires b in d.parsedBlocks && Key(ValueVar(b)) in d.values.vals
    ensures b in ParentsFold(d, reg, ps).value.parsedBlocks
    ensures GetVar(ParentsFold(d, reg, ps).value, ValueVar(b)) == GetVar(d, ValueVar(b))
    decreases |ps|
  {
    if ps != [] {
      ParentChildrenKeepsParsed(d, reg, ps[0], d.parentBlocks.vals[ps[0]], b);
      ParentsFoldKeepsParsed(ParentChildren(d, reg, ps[0], d.parentBlocks.vals[ps[0]]).value, reg, ps[1..], b);
    }
  }

  /** A block that was already parsed keeps what it rendered through `parseParentBlocks`. */
  lemma ParseParentsKeepsParsed(d: Doc, reg: Registry, b: string)
    requires d.Valid() && ParseParents(d, reg).Some?
    requires b in d.parsedBlocks && Key(ValueVar(b)) in d.values.vals
    ensures GetVar(ParseParents(d, reg).value, ValueVar(b)) == GetVar(d, ValueVar(b))
  {
    ParentsFoldKeepsParsed(d, reg, Reverse(d.parentBlocks.keys), b);
  }

  /** The loop of `processFinallyBlocks` over the keys `ks`. */
  function FinallyFold(d: Doc, reg: Registry, ks: seq<string>): (r: Doc)
    requires d.Valid() && forall k :: k in ks ==> k in d.finallyBlocks.vals
    ensures r.Valid() && KeepsKeys(d, r)
    ensures r == d.(values := r.values)
    decreases |ks|
  {
    if ks == [] then d
    else
      var b := ks[0];
      var d' := if b !in d.parsedBlocks then SetValue(d, ValueVar(b), Substitute(d, reg, d.finallyBlocks.vals[b])) else d;
      FinallyFold(d', reg, ks[1..])
  }

  /** `processFinallyBlocks`: every block never parsed shows its substituted FINALLY text. */
  function ProcessFinally(d: Doc, reg: Registry): (r: Doc)
    requires d.Valid()
    ensures r.Valid() && KeepsKeys(d, r)
    ensures r == d.(values := r.values)
  {
    FinallyFold(d, reg, d.finallyBlocks.keys)
  }

  /** `processFinallyBlocks` writes no variable other than the accumulators of unparsed blocks in `ks`. */
  lemma {:induction false} FinallyFoldOther(d: Doc, reg: Registry, ks: seq<string>, x: string)
    requires d.Valid() && forall k :: k in ks ==> k in d.finallyBlocks.vals
    requires Key(x) in d.values.vals
    requires forall b :: b in ks && b !in d.parsedBlocks ==> ValueVar(b) != x
    ensures GetVar(FinallyFold(d, reg, ks), x) == GetVar(d, x)
    decreases |ks|
  {
    if ks != [] {
      var b := ks[0];
      var d' := if b !in d.parsedBlocks then SetValue(d, ValueVar(b), Substitute(d, reg, d.finallyBlocks.vals[b])) else d;
      if b !in d.parsedBlocks {
        KeyInjective(x, ValueVar(b));
      }
      FinallyFoldOther(d', reg, ks[1..], x);
    }
  }

  /** A parsed block keeps what it rendered: `processFinallyBlocks` leaves its accumulator alone. */
  lemma ProcessFinallyKeepsParsed(d: Doc, reg: Registry, b: string)
    requires d.Valid() && b in d.parsedBlocks && Key(ValueVar(b)) in d.values.vals
    ensures GetVar(ProcessFinally(d, reg), ValueVar(b)) == GetVar(d, ValueVar(b))
  {
    forall x | x in d.finallyBlocks.keys && x !in d.parsedBlocks ensures ValueVar(x) != ValueVar(b) {
      ValueVarInjective(x, b);
    }
    FinallyFoldOther(d, reg, d.finallyBlocks.keys, ValueVar(b));
  }

  /**
    A block never parsed whose FINALLY text holds no reference shows exactly
    that text once `processFinallyBlocks` has run.
  */
  lemma {:induction false} FinallyFoldPlain(d: Doc, reg: Registry, ks: seq<string>, b: string)
    requires d.Valid() && forall k :: k in ks ==> k in d.finallyBlocks.vals
    requires NoDup(ks) && b in ks && b !in d.parsedBlocks
    requires !Contains(d.finallyBlocks.vals[b], "{{")
    ensures Key(ValueVar(b)) in FinallyFold(d, reg, ks).values.vals
    ensures GetVar(FinallyFold(d, reg, ks), ValueVar(b)) == d.finallyBlocks.vals[b]
    decreases |ks|
  {
    var k := ks[0];
    var d' := if k !in d.parsedBlocks then SetValue(d, ValueVar(k), Substitute(d, reg, d.finallyBlocks.vals[k])) else d;
    NoDupTail(ks);
    if k == b {
      SubstituteNoBraces(d, reg, d.finallyBlocks.vals[b]);
      forall x | x in ks[1..] && x !in d'.parsedBlocks ensures ValueVar(x) != ValueVar(b) {
        ValueVarInjective(x, b);
      }
      FinallyFoldOther(d', reg, ks[1..], ValueVar(b));
    } else {
      FinallyFoldPlain(d', reg, ks[1..], b);
    }
  }

  /** `processFinallyBlocks` over `ks` is its run over a prefix, then over the rest. */
  lemma {:induction false} FinallyFoldSplit(d: Doc, reg: Registry, ks: seq<string>, i: nat)
    requires d.Valid() && (forall k :: k in ks ==> k in d.finallyBlocks.vals) && i <= |ks|
    ensures FinallyFold(d, reg, ks) == FinallyFold(FinallyFold(d, reg, ks[..i]), reg, ks[i..])
    decreases i
  {
    if i > 0 {
      var b := ks[0];
      var d' := if b !in d.parsedBlocks then SetValue(d, ValueVar(b), Substitute(d, reg, d.finallyBlocks.vals[b])) else d;
      assert ks[..i][0] == b && ks[..i][1..] == ks[1..][..i - 1];
      assert ks[i..] == ks[1..][i - 1..];
      FinallyFoldSplit(d', reg, ks[1..], i - 1);
    }
  }

  /**
    The `i`-th key of the loop, a block never parsed, ends up showing its FINALLY
    text substituted in the document as the loop had left it just before.
  */
  lemma FinallyFoldAt(d: Doc, reg: Registry, ks: seq<string>, i: nat)
    requires d.Valid() && (forall k :: k in ks ==> k in d.finallyBlocks.vals)
    requires NoDup(ks) && i < |ks| && ks[i] !in d.parsedBlocks
    ensures Key(ValueVar(ks[i])) in FinallyFold(d, reg, ks).values.vals
    ensures GetVar(FinallyFold(d, reg, ks), ValueVar(ks[i])) == Substitute(FinallyFold(d, reg, ks[..i]), reg, d.finallyBlocks.vals[ks[i]])
  {
    var b := ks[i];
    FinallyFoldSplit(d, reg, ks, i);
    var m := FinallyFold(d, reg, ks[..i]);
    var m' := SetValue(m, ValueVar(b), Substitute(m, reg, d.finallyBlocks.vals[b]));
    assert ks[i..][0] == b && ks[i..][1..] == ks[i + 1..];
    assert FinallyFold(m, reg, ks[i..]) == FinallyFold(m', reg, ks[i + 1..]);
    forall x | x in ks[i + 1..] && x !in m'.parsedBlocks ensures ValueVar(x) != ValueVar(b) {
      var j :| 0 <= j < |ks[i + 1..]| && ks[i + 1..][j] == x;
      assert ks[i + 1 + j] == x;
      ValueVarInjective(x, b);
    }
    FinallyFoldOther(m', reg, ks[i + 1..], ValueVar(b));
  }

  /**
    `processFinallyBlocks`: the `i`-th block with FINALLY text, when never
    parsed, shows that text substituted in the document as the loop had left it
    after the blocks before it.
  */
  lemma ProcessFinallyWrites(d: Doc, reg: Registry, i: nat)
    requires d.Valid() && i < |d.finallyBlocks.keys| && d.finallyBlocks.keys[i] !in d.parsedBlocks
    ensures Key(ValueVar(d.finallyBlocks.keys[i])) in ProcessFinally(d, reg).values.vals
    ensures GetVar(ProcessFinally(d, reg), ValueVar(d.finallyBlocks.keys[i])) ==
      Substitute(FinallyFold(d, reg, d.finallyBlocks.keys[..i]), reg, d.finallyBlocks.vals[d.finallyBlocks.keys[i]])
  {
    FinallyFoldAt(d, reg, d.finallyBlocks.keys, i);
  }

  /**
    `parse`: the document as it is left and the rendered text, with no
    reference left in it. `None` when a read hits a variable that holds no
    text (a fatal type error in the source).
  */
  function Parse(d: Doc, reg: Registry): (r: Option<(Doc, string)>)
    requires d.Valid()
    ensures r.Some? ==> r.value.0.Valid() && KeepsKeys(d, r.value.0)
    ensures r.Some? ==> r.value.0 == d.(values := r.value.0.values, parsedBlocks := r.value.0.parsedBlocks)
    ensures r.Some? ==> NoReferences(r.value.1)
    ensures ParseParents(d, reg).None? ==> r.None?
    ensures ParseParents(d, reg).Some? && Key(".") in d.values.vals ==> r.Some?
  {
    match ParseParents(d, reg)
    case None => None
    case Some(d1) =>
      var d2 := ProcessFinally(d1, reg);
      if Key(".") !in d2.values.vals then None
      else Some((d2, StripAll(Substitute(d2, reg, GetVar(d2, ".")))))
  }

  /** No accumulator is the root variable. */
  lemma RootIsNoAccumulator(b: string)
    ensures ValueVar(b) != "."
  {
    assert |ValueVar(b)| == |b| + 6;
  }

  /** `parseParentBlocks` writes no variable other than the accumulators of blocks. */
  lemma ParseParentsOther(d: Doc, reg: Registry, x: string)
    requires d.Valid() && Key(x) in d.values.vals && ParseParents(d, reg).Some?
    requires forall b :: ValueVar(b) != x
    ensures GetVar(ParseParents(d, reg).value, x) == GetVar(d, x)
  {
    ParentsFoldOther(d, reg, Reverse(d.parentBlocks.keys), x);
  }

  lemma {:induction false} ParentsFoldOther(d: Doc, reg: Registry, ps: seq<string>, x: string)
    requires d.Valid() && forall p :: p in ps ==> p in d.parentBlocks.vals
    requires Key(x) in d.values.vals && forall b :: ValueVar(b) != x
    requires ParentsFold(d, reg, ps).Some?
    ensures GetVar(ParentsFold(d, reg, ps).value, x) == GetVar(d, x)
    decreases |ps|
  {
    if ps != [] {
      var cs := d.parentBlocks.vals[ps[0]];
      ParentChildrenOther(d, reg, ps[0], cs, x);
      ParentsFoldOther(ParentChildren(d, reg, ps[0], cs).value, reg, ps[1..], x);
    }
  }

  lemma {:induction false} ParentChildrenOther(d: Doc, reg: Registry, p: string, cs: seq<string>, x: string)
    requires d.Valid() && Key(x) in d.values.vals && forall b :: ValueVar(b) != x
    requires ParentChildren(d, reg, p, cs).Some?
    ensures GetVar(ParentChildren(d, reg, p, cs).value, x) == GetVar(d, x)
    decreases |cs|
  {
    if cs != [] {
      KeyInjective(x, ValueVar(p));
      ParentChildrenOther(ParentStep(d, reg, p, cs[0]).value, reg, p, cs[1..], x);
    }
  }

  /** A root text without references renders to itself. */
  lemma ParsePlain(d: Doc, reg: Registry)
    requires d.Valid() && Key(".") in d.values.vals && ParseParents(d, reg).Some?
    requires !Contains(GetVar(d, "."), "{{")
    ensures Parse(d, reg).Some? && Parse(d, reg).value.1 == GetVar(d, ".")
  {
    forall b ensures ValueVar(b) != "." {
      RootIsNoAccumulator(b);
    }
    var d1 := ParseParents(d, reg).value;
    ParseParentsOther(d, reg, ".");
    FinallyFoldOther(d1, reg, d1.finallyBlocks.keys, ".");
    var d2 := ProcessFinally(d1, reg);
    SubstituteNoBraces(d2, reg, GetVar(d2, "."));
    StripAllWithoutBraces(GetVar(d, "."));
  }
}
