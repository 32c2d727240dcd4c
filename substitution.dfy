/**
  `substituteVariables`: every stored value replaces its placeholder, key by
  key in insertion order, and then every recorded modifier expression whose
  variable is set is replaced by the modified value.
*/
module Substitution {
  import opened Text
  import opened PhpArray
  import opened Store
  import opened Modifiers

  /**
    `str_replace(array_keys($values), array_values($values), $content)`:
    one replace-all per key, in order, each working on the previous output.
  */
  function ReplaceKeys(vals: map<string, string>, ks: seq<string>, content: string): string
    requires forall k :: k in ks ==> k in vals
    decreases |ks|
  {
    if ks == [] then content else ReplaceKeys(vals, ks[1..], ReplaceAll(content, ks[0], vals[ks[0]]))
  }

  /** The plain substitution of a document's values. */
  function PlainSubstitute(values: OMap<string>, content: string): string
    requires values.Valid()
  {
    ReplaceKeys(values.vals, values.keys, content)
  }

  /** The placeholder of a modifier expression: `{{name|f|g}}`. */
  function ExprPlaceholder(expr: string): string {
    "{{" + expr + "}}"
  }

  /**
    The inner loop of `applyVariableModifiers` for one modifier key: each
    expression's placeholder becomes the modified value, when the key names
    no property path and its variable is set.
  */
  function ModifyExprs(d: Doc, reg: Registry, vk: string, exprs: seq<string>, content: string): string
    decreases |exprs|
  {
    if exprs == [] then content
    else
      var content' :=
        if !Contains(vk, "->") && Key(vk) in d.values.vals then
          ReplaceAll(content, ExprPlaceholder(exprs[0]), ApplyModifiers(reg, d.values.vals[Key(vk)], exprs[0]))
        else content;
      ModifyExprs(d, reg, vk, exprs[1..], content')
  }

  /** The outer loop: a key is looked at only when `{{key|` occurs in the text at that point. */
  function ModifyKeys(d: Doc, reg: Registry, ks: seq<string>, content: string): string
    decreases |ks|
  {
    if ks == [] then content
    else
      var vk := ks[0];
      var content' :=
        if Contains(content, "{{" + vk + "|") then ModifyExprs(d, reg, vk, d.modifiers.GetOr(vk, []), content)
        else content;
      ModifyKeys(d, reg, ks[1..], content')
  }

  /** `applyVariableModifiers` */
  function VariableModifiers(d: Doc, reg: Registry, content: string): string {
    ModifyKeys(d, reg, d.modifiers.keys, content)
  }

  /** `substituteVariables`; with no object set, `processObjectProperties` returns its input. */
  function Substitute(d: Doc, reg: Registry, content: string): string
    requires d.Valid()
  {
    VariableModifiers(d, reg, PlainSubstitute(d.values, content))
  }

  // ---------------------------------------------------------------------
  // Properties

  /** A text containing a placeholder contains `{{`. */
  lemma NoBracesNoPlaceholder(content: string, p: string)
    requires OccursAt(p, 0, "{{")
    ensures Contains(content, p) ==> Contains(content, "{{")
  {
    if Contains(content, p) {
      ContainsPrefix(content, p, 2);
      assert p[..2] == "{{";
    }
  }

  lemma {:induction false} ReplaceKeysNoBraces(vals: map<string, string>, ks: seq<string>, content: string)
    requires forall k :: k in ks ==> k in vals && OccursAt(k, 0, "{{")
    requires !Contains(content, "{{")
    ensures ReplaceKeys(vals, ks, content) == content
    decreases |ks|
  {
    if ks != [] {
      NoBracesNoPlaceholder(content, ks[0]);
      ReplaceAbsent(content, ks[0], vals[ks[0]]);
      ReplaceKeysNoBraces(vals, ks[1..], content);
    }
  }

  lemma {:induction false} ModifyKeysNoBraces(d: Doc, reg: Registry, ks: seq<string>, content: string)
    requires !Contains(content, "{{")
    ensures ModifyKeys(d, reg, ks, content) == content
    decreases |ks|
  {
    if ks != [] {
      var p := "{{" + ks[0] + "|";
      assert p[..2] == "{{";
      NoBracesNoPlaceholder(content, p);
      ModifyKeysNoBraces(d, reg, ks[1..], content);
    }
  }

  /** A text with no `{{` renders to itself: every placeholder and modifier key starts with `{{`. */
  lemma SubstituteNoBraces(d: Doc, reg: Registry, content: string)
    requires d.Valid() && !Contains(content, "{{")
    ensures Substitute(d, reg, content) == content
  {
    ReplaceKeysNoBraces(d.values.vals, d.values.keys, content);
    ModifyKeysNoBraces(d, reg, d.modifiers.keys, content);
  }

  /** Each key's replacement works on the output of the previous keys. */
  lemma {:induction false} ReplaceKeysConcat(vals: map<string, string>, k1: seq<string>, k2: seq<string>, content: string)
    requires forall k :: k in k1 + k2 ==> k in vals
    ensures ReplaceKeys(vals, k1 + k2, content) == ReplaceKeys(vals, k2, ReplaceKeys(vals, k1, content))
    decreases |k1|
  {
    if k1 == [] {
      assert k1 + k2 == k2;
    } else {
      assert (k1 + k2)[1..] == k1[1..] + k2;
      ReplaceKeysConcat(vals, k1[1..], k2, ReplaceAll(content, k1[0], vals[k1[0]]));
    }
  }

  /**
    Key-by-key replacement: when `a` is stored before `b` and the value of `a`
    is `b`'s placeholder, `{{a}}` renders to the value of `b`. A single
    simultaneous pass would render it to `{{b}}`.
  */
  lemma KeyByKey(x: string)
    requires !Contains(x, "{{")
    ensures var values := OMap(["{{a}}", "{{b}}"], map["{{a}}" := "{{b}}", "{{b}}" := x]);
      PlainSubstitute(values, "{{a}}") == x
  {
    var vals := map["{{a}}" := "{{b}}", "{{b}}" := x];
    var values := OMap(["{{a}}", "{{b}}"], vals);
    assert values.Valid();
    ReplaceOnce("{{a}}", "{{b}}");
    ReplaceOnce("{{b}}", x);
    assert ["{{a}}", "{{b}}"][1..] == ["{{b}}"];
    assert ReplaceKeys(vals, ["{{a}}", "{{b}}"], "{{a}}") == ReplaceKeys(vals, ["{{b}}"], "{{b}}");
    assert ["{{b}}"][1..] == [];
  }

  /** A text that is exactly the search string is replaced once. */
  lemma ReplaceOnce(p: string, r: string)
    requires |p| > 0
    ensures ReplaceAll(p, p, r) == r
  {
    assert OccursAt(p, 0, p);
    assert p[|p|..] == [];
  }

  /** The guard of `applyVariableModifiers`' inner loop: the key names no property path and its variable is set. */
  predicate Modifiable(d: Doc, vk: string) {
    !Contains(vk, "->") && Key(vk) in d.values.vals
  }

  /**
    The inner loop over `exprs + [e]`: the loop over `exprs`, then the
    placeholder of `e` replaced by the modified value when the key is
    modifiable, and nothing otherwise. With `exprs == []` this is the single
    expression's effect.
  */
  lemma {:induction false} ModifyExprsSnoc(d: Doc, reg: Registry, vk: string, exprs: seq<string>, e: string, c: string)
    ensures Modifiable(d, vk) ==>
      ModifyExprs(d, reg, vk, exprs + [e], c) ==
      ReplaceAll(ModifyExprs(d, reg, vk, exprs, c), ExprPlaceholder(e), ApplyModifiers(reg, GetVar(d, vk), e))
    ensures !Modifiable(d, vk) ==> ModifyExprs(d, reg, vk, exprs + [e], c) == c
    decreases |exprs|
  {
    if exprs == [] {
      assert [e][1..] == [];
    } else {
      assert (exprs + [e])[1..] == exprs[1..] + [e];
      var c' :=
        if Modifiable(d, vk) then
          ReplaceAll(c, ExprPlaceholder(exprs[0]), ApplyModifiers(reg, d.values.vals[Key(vk)], exprs[0]))
        else c;
      ModifyExprsSnoc(d, reg, vk, exprs[1..], e, c');
    }
  }

  /**
    A document whose only modifier key is `vk`, set and without a property
    path, with the one expression `vk|…` recorded: every occurrence of that
    expression's placeholder becomes the modified value of `vk`.
  */
  lemma SingleModifier(d: Doc, reg: Registry, vk: string, m: string, c: string)
    requires d.modifiers == OMap([vk], map[vk := [vk + m]])
    requires Modifiable(d, vk) && |m| > 0 && m[0] == '|'
    requires Contains(c, ExprPlaceholder(vk + m))
    ensures VariableModifiers(d, reg, c) ==
      ReplaceAll(c, ExprPlaceholder(vk + m), ApplyModifiers(reg, GetVar(d, vk), vk + m))
  {
    var e := vk + m;
    var k := |vk| + 3;
    assert ExprPlaceholder(e)[..k] == "{{" + vk + "|";
    ContainsPrefix(c, ExprPlaceholder(e), k);
    assert Contains(c, "{{" + vk + "|");
    ModifyExprsSnoc(d, reg, vk, [], e, c);
    assert [] + [e] == [e];
    assert d.modifiers.GetOr(vk, []) == [e];
    var r := ModifyExprs(d, reg, vk, [e], c);
    assert ModifyKeys(d, reg, [vk], c) == ModifyKeys(d, reg, [], r);
  }
}
