/**
  Block registration and extraction. Each discovered child is registered,
  then cut out of its parent's stored text: the span
  `[BEGIN b]…[END b][FINALLY b]` becomes `{{b_value}}`, the body is stored
  under `b`, the accumulator `b_value` starts empty and the FINALLY text, if
  any, is kept aside.
*/
module Blocks {
  import opened Wrappers
  import opened Text
  import opened PhpArray
  import opened Syntax
  import opened Store

  /** How `setupBlock` ended. `ParentMissing` is the source's fatal read of an unset parent. */
  datatype Setup = Extracted | Malformed | ParentMissing

  /** The text the extraction pattern runs on: accurate mode first turns "\r\n" into "\n". */
  function SetupText(text: string, accurate: bool): string {
    if accurate then ReplaceAll(text, "\r\n", "\n") else text
  }

  /** The three stores and the FINALLY entry of a successful extraction. */
  function Extract(d: Doc, parent: string, b: string, text: string, m: BlockMatch): (r: Doc)
    requires FirstMatch(text, b) == Some(m)
    ensures d.Valid() ==> r.Valid()
    ensures r == d.(values := r.values, finallyBlocks := r.finallyBlocks)
    ensures r.values.vals == d.values.vals[Key(ValueVar(b)) := ""][Key(b) := Body(text, m)][Key(parent) := ReplaceMatches(text, b, Key(ValueVar(b)))]
    ensures r.finallyBlocks.vals == if m.finallyStart.Some? then d.finallyBlocks.vals[b := FinallyText(text, m).value] else d.finallyBlocks.vals
  {
    var d3 := ExtractValues(d, parent, b, text, m);
    if m.finallyStart.Some? then d3.(finallyBlocks := d3.finallyBlocks.Put(b, FinallyText(text, m).value)) else d3
  }

  /** The three value stores of an extraction, in the order they are made. */
  function ExtractValues(d: Doc, parent: string, b: string, text: string, m: BlockMatch): (r: Doc)
    requires m.bodyStart <= m.bodyEnd <= |text|
  {
    SetValue(SetValue(SetValue(d, ValueVar(b), ""), b, Body(text, m)), parent, ReplaceMatches(text, b, Key(ValueVar(b))))
  }

  /** `setupBlock` */
  function SetupBlock(d: Doc, accurate: bool, parent: string, b: string): (r: (Doc, Setup))
    ensures d.Valid() ==> r.0.Valid()
    ensures r.1 == ParentMissing <==> Key(parent) !in d.values.vals
    ensures r.1 == Malformed <==> Key(parent) in d.values.vals && FirstMatch(SetupText(GetVar(d, parent), accurate), b).None?
    ensures r.1 != Extracted ==> r.0 == d
    ensures r.0 == d.(values := r.0.values, finallyBlocks := r.0.finallyBlocks)
    ensures r.1 == Extracted ==>
      var text := SetupText(GetVar(d, parent), accurate);
      r.0 == Extract(d, parent, b, text, FirstMatch(text, b).value)
  {
    if Key(parent) !in d.values.vals then (d, ParentMissing)
    else
      var text := SetupText(GetVar(d, parent), accurate);
      match FirstMatch(text, b)
      case None => (d, Malformed)
      case Some(m) => (Extract(d, parent, b, text, m), Extracted)
  }

  /**
    After an extraction the parent holds the placeholder where the leftmost
    span began and its text before that point is untouched, the block holds
    the text between its markers, and its accumulator is empty.
  */
  lemma ExtractionResult(d: Doc, accurate: bool, parent: string, b: string)
    requires SetupBlock(d, accurate, parent, b).1 == Extracted
    requires parent != b && parent != ValueVar(b)
    ensures var text := SetupText(GetVar(d, parent), accurate);
      var m := FirstMatch(text, b).value;
      var r := SetupBlock(d, accurate, parent, b).0;
      && GetVar(r, ValueVar(b)) == ""
      && GetVar(r, b) == Body(text, m)
      && |GetVar(r, parent)| >= m.start && GetVar(r, parent)[..m.start] == text[..m.start]
      && OccursAt(GetVar(r, parent), m.start, Key(ValueVar(b)))
  {
    var text := SetupText(GetVar(d, parent), accurate);
    var m := FirstMatch(text, b).value;
    KeyInjective(parent, b);
    KeyInjective(parent, ValueVar(b));
    ValueVarDiffers(b);
    ReplaceMatchesFront(text, b, Key(ValueVar(b)));
  }

  /** `preg_replace` keeps the text before the leftmost match and puts the replacement where it began. */
  lemma ReplaceMatchesFront(text: string, b: string, ph: string)
    requires FirstMatch(text, b).Some?
    ensures var m := FirstMatch(text, b).value;
      var r := ReplaceMatches(text, b, ph);
      |r| >= m.start && r[..m.start] == text[..m.start] && OccursAt(r, m.start, ph)
  {
    var m := FirstMatch(text, b).value;
    var r := text[..m.start] + ph + ReplaceMatches(text[m.end..], b, ph);
    assert ReplaceMatches(text, b, ph) == r;
    assert r[..m.start] == text[..m.start];
    assert r[m.start..m.start + |ph|] == ph;
  }

  // ---------------------------------------------------------------------
  // createBlocks

  /** The (parent, child) pairs of a parent -> children dictionary, in iteration order. */
  function Pairs(m: OMap<seq<string>>, ks: seq<string>): seq<(string, string)>
    decreases |ks|
  {
    if ks == [] then [] else PairsOf(ks[0], m.GetOr(ks[0], [])) + Pairs(m, ks[1..])
  }

  function PairsOf(parent: string, children: seq<string>): (ps: seq<(string, string)>)
    ensures |ps| == |children| && forall i :: 0 <= i < |ps| ==> ps[i] == (parent, children[i])
  {
    if children == [] then [] else [(parent, children[0])] + PairsOf(parent, children[1..])
  }

  /** The children named by a run of pairs. */
  function ChildNames(ps: seq<(string, string)>): (cs: seq<string>)
    ensures |cs| == |ps|
  {
    if ps == [] then [] else [ps[0].1] + ChildNames(ps[1..])
  }

  /** How `createBlocks` ended: every pair handled, stopped at a duplicate, or stopped by the fatal read. */
  datatype Created = Done | Duplicate(name: string) | Fatal(parent: string)

  /**
    The nested loop of `createBlocks`: a child already registered stops the
    loop; otherwise it is registered (even when its extraction then fails)
    and set up.
  */
  function SetupAll(d: Doc, accurate: bool, ps: seq<(string, string)>): (r: (Doc, Created))
    ensures d.Valid() ==> r.0.Valid()
    ensures r.0.parentBlocks == d.parentBlocks && r.0.vars == d.vars && r.0.parsedBlocks == d.parsedBlocks
    ensures r.0.modifiers == d.modifiers && r.0.objectProperties == d.objectProperties
    decreases |ps|
  {
    if ps == [] then (d, Done)
    else
      var (parent, child) := ps[0];
      if child in d.blocks then (d, Duplicate(child))
      else
        var (d1, o) := SetupBlock(d.(blocks := d.blocks + [child]), accurate, parent, child);
        if o == ParentMissing then (d1, Fatal(parent)) else SetupAll(d1, accurate, ps[1..])
  }

  /** `createBlocks`: the discovered lists are merged into `$parentBlocks` before any child is handled. */
  function CreateBlocks(d: Doc, accurate: bool, found: OMap<seq<string>>): (r: (Doc, Created))
    requires d.Valid() && found.Valid()
    ensures r.0.Valid()
    ensures r.0.parentBlocks.keys == d.parentBlocks.keys + NewKeys(found.keys, d.parentBlocks.vals)
    ensures r.0.parentBlocks.vals == d.parentBlocks.vals + found.vals
  {
    MergeEffect(d.parentBlocks, found);
    SetupAll(d.(parentBlocks := d.parentBlocks.Merge(found)), accurate, Pairs(found, found.keys))
  }

  /** A child that is not yet registered is registered, then set up; the loop goes on unless the setup was fatal. */
  lemma SetupAllStep(d: Doc, accurate: bool, ps: seq<(string, string)>)
    requires ps != [] && ps[0].1 !in d.blocks
    ensures var (d1, o) := SetupBlock(d.(blocks := d.blocks + [ps[0].1]), accurate, ps[0].0, ps[0].1);
      && d1.blocks == d.blocks + [ps[0].1]
      && (o == ParentMissing ==> SetupAll(d, accurate, ps) == (d1, Fatal(ps[0].0)))
      && (o != ParentMissing ==> SetupAll(d, accurate, ps) == SetupAll(d1, accurate, ps[1..]))
  {
  }

  /** A child that is already registered stops the loop on the spot. */
  lemma SetupAllDuplicate(d: Doc, accurate: bool, ps: seq<(string, string)>)
    requires ps != [] && ps[0].1 in d.blocks
    ensures SetupAll(d, accurate, ps) == (d, Duplicate(ps[0].1))
  {
  }

  /** The pairs from parent `i` on: parent `i`'s own pairs, then the rest. */
  lemma PairsFront(m: OMap<seq<string>>, ks: seq<string>, i: nat)
    requires i < |ks|
    ensures Pairs(m, ks[i..]) == PairsOf(ks[i], m.GetOr(ks[i], [])) + Pairs(m, ks[i + 1..])
  {
    assert ks[i..][1..] == ks[i + 1..];
  }

  /** One parent's pairs from child `j` on. */
  lemma PairsOfFront(parent: string, cs: seq<string>, j: nat)
    requires j < |cs|
    ensures var ps := PairsOf(parent, cs[j..]);
      ps != [] && ps[0] == (parent, cs[j]) && ps[1..] == PairsOf(parent, cs[j + 1..])
  {
    assert cs[j..][1..] == cs[j + 1..];
  }

  /** The inner loop of `createBlocks` from child `j` on, one step unfolded. */
  lemma SetupAllChildFront(d: Doc, accurate: bool, parent: string, cs: seq<string>, j: nat)
    requires j < |cs|
    ensures var ps := PairsOf(parent, cs[j..]);
      && (cs[j] in d.blocks ==> SetupAll(d, accurate, ps) == (d, Duplicate(cs[j])))
      && (cs[j] !in d.blocks ==>
            var r := SetupBlock(d.(blocks := d.blocks + [cs[j]]), accurate, parent, cs[j]);
            SetupAll(d, accurate, ps) ==
              if r.1 == ParentMissing then (r.0, Fatal(parent)) else SetupAll(r.0, accurate, PairsOf(parent, cs[j + 1..])))
  {
    PairsOfFront(parent, cs, j);
    if cs[j] !in d.blocks {
      SetupAllStep(d, accurate, PairsOf(parent, cs[j..]));
    }
  }

  /** Running the loop over two runs of pairs: the second run is reached only when the first ends normally. */
  lemma {:induction false} SetupAllConcat(d: Doc, accurate: bool, a: seq<(string, string)>, b: seq<(string, string)>)
    ensures SetupAll(d, accurate, a + b) ==
      var r := SetupAll(d, accurate, a);
      if r.1 == Done then SetupAll(r.0, accurate, b) else r
    decreases |a|
  {
    if a == [] {
      assert a + b == b;
    } else {
      assert (a + b)[0] == a[0] && (a + b)[1..] == a[1..] + b;
      if a[0].1 !in d.blocks {
        SetupAllStep(d, accurate, a + b);
        SetupAllStep(d, accurate, a);
        var d1 := SetupBlock(d.(blocks := d.blocks + [a[0].1]), accurate, a[0].0, a[0].1).0;
        SetupAllConcat(d1, accurate, a[1..], b);
      }
    }
  }

  /**
    What the loop leaves in `$blocks`: the blocks it registered are the
    children of the first `n` pairs, with no duplicate; it handled every
    pair when it reports `Done`; pair `n` names a block already registered
    when it reports a duplicate; pair `n - 1`'s parent is the one reported
    by a fatal stop.
  */
  predicate Registers(d: Doc, r: (Doc, Created), ps: seq<(string, string)>) {
    var n := |r.0.blocks| - |d.blocks|;
    && NoDup(r.0.blocks)
    && 0 <= n <= |ps|
    && r.0.blocks == d.blocks + ChildNames(ps[..n])
    && (r.1 == Done ==> n == |ps|)
    && (r.1.Duplicate? ==> n < |ps| && ps[n].1 == r.1.name && r.1.name in r.0.blocks)
    && (r.1.Fatal? ==> n > 0 && ps[n - 1].0 == r.1.parent)
  }

  /** The loop registers the children of a prefix of the pairs and never a duplicate. */
  lemma {:induction false} SetupAllBlocks(d: Doc, accurate: bool, ps: seq<(string, string)>)
    requires NoDup(d.blocks)
    ensures Registers(d, SetupAll(d, accurate, ps), ps)
    decreases |ps|
  {
    if ps == [] {
      RegistersNothing(d, (d, Done), ps);
    } else if ps[0].1 in d.blocks {
      RegistersNothing(d, (d, Duplicate(ps[0].1)), ps);
    } else {
      var child := ps[0].1;
      SetupAllStep(d, accurate, ps);
      var (d1, o) := SetupBlock(d.(blocks := d.blocks + [child]), accurate, ps[0].0, child);
      AppendNoDup(d.blocks, child);
      if o == ParentMissing {
        RegistersFatal(d, d1, ps);
      } else {
        SetupAllBlocks(d1, accurate, ps[1..]);
        RegistersCons(d, d1, SetupAll(d1, accurate, ps[1..]), ps);
      }
    }
  }

  lemma RegistersNothing(d: Doc, r: (Doc, Created), ps: seq<(string, string)>)
    requires NoDup(d.blocks) && r.0 == d
    requires r.1 == Done ==> ps == []
    requires r.1.Duplicate? ==> ps != [] && ps[0].1 == r.1.name && r.1.name in d.blocks
    requires !r.1.Fatal?
    ensures Registers(d, r, ps)
  {
    assert ps[..0] == [];
  }

  lemma RegistersFatal(d: Doc, d1: Doc, ps: seq<(string, string)>)
    requires ps != [] && d1.blocks == d.blocks + [ps[0].1] && NoDup(d1.blocks)
    ensures Registers(d, (d1, Fatal(ps[0].0)), ps)
  {
    ChildNamesCons(ps, 1);
    assert ps[1..][..0] == [];
  }

  lemma RegistersCons(d: Doc, d1: Doc, r: (Doc, Created), ps: seq<(string, string)>)
    requires ps != [] && d1.blocks == d.blocks + [ps[0].1]
    requires Registers(d1, r, ps[1..])
    ensures Registers(d, r, ps)
  {
    var n := |r.0.blocks| - |d1.blocks|;
    ChildNamesCons(ps, n + 1);
    assert r.0.blocks == d1.blocks + ChildNames(ps[1..][..n]);
    assert r.0.blocks == d.blocks + ChildNames(ps[..n + 1]);
    if r.1.Duplicate? {
      assert ps[n + 1] == ps[1..][n];
    }
    if r.1.Fatal? && n > 0 {
      assert ps[n] == ps[1..][n - 1];
    }
  }

  lemma AppendNoDup(xs: seq<string>, x: string)
    requires NoDup(xs) && x !in xs
    ensures NoDup(xs + [x])
  {
  }

  lemma ChildNamesCons(ps: seq<(string, string)>, n: nat)
    requires 0 < n <= |ps|
    ensures ChildNames(ps[..n]) == [ps[0].1] + ChildNames(ps[1..][..n - 1])
  {
    assert ps[..n][1..] == ps[1..][..n - 1];
  }

  /** A child that is not yet registered is registered by its own step, whatever its extraction does. */
  lemma MalformedStillRegistered(d: Doc, accurate: bool, parent: string, child: string, rest: seq<(string, string)>)
    requires child !in d.blocks
    ensures child in SetupAll(d, accurate, [(parent, child)] + rest).0.blocks
  {
    var ps := [(parent, child)] + rest;
    var d1 := SetupBlock(d.(blocks := d.blocks + [child]), accurate, parent, child).0;
    assert child in d1.blocks;
    assert ps[1..] == rest;
    SetupAllGrows(d1, accurate, rest);
  }

  /** The loop only ever appends to `$blocks`. */
  lemma {:induction false} SetupAllGrows(d: Doc, accurate: bool, ps: seq<(string, string)>)
    ensures var r := SetupAll(d, accurate, ps).0;
      |d.blocks| <= |r.blocks| && r.blocks[..|d.blocks|] == d.blocks
    decreases |ps|
  {
    if ps != [] && ps[0].1 !in d.blocks {
      var d0 := d.(blocks := d.blocks + [ps[0].1]);
      var (d1, o) := SetupBlock(d0, accurate, ps[0].0, ps[0].1);
      if o != ParentMissing {
        SetupAllGrows(d1, accurate, ps[1..]);
        assert d1.blocks[..|d.blocks|] == d.blocks;
      }
    }
  }
}
