/**
  The state of one `MiTemplate` document, as a value: every field the engine
  keeps, and the value store operations on it. Values live in one ordered
  dictionary keyed by the rendered placeholder `{{name}}`.
*/
module Store {
  import opened Wrappers
  import opened Text
  import opened PhpArray

  /**
    `vars`: declared variable names; `values`: "{{name}}" -> text, in
    insertion order; `objectProperties`: name -> property paths seen;
    `modifiers`: name+path -> modifier expressions seen; `blocks`: registered
    blocks; `parentBlocks`: parent -> children; `parsedBlocks`: blocks marked
    rendered (may repeat); `finallyBlocks`: block -> FINALLY text.
  */
  datatype Doc = Doc(
    vars: seq<string>,
    values: OMap<string>,
    objectProperties: map<string, seq<string>>,
    modifiers: OMap<seq<string>>,
    blocks: seq<string>,
    parentBlocks: OMap<seq<string>>,
    parsedBlocks: seq<string>,
    finallyBlocks: OMap<string>)
  {
    /**
      Every ordered dictionary lists each of its keys once, and every value is
      stored under a placeholder key, which starts with `{{`.
    */
    predicate Valid() {
      && values.Valid() && modifiers.Valid() && parentBlocks.Valid() && finallyBlocks.Valid()
      && forall k :: k in values.vals ==> OccursAt(k, 0, "{{")
    }
  }

  /** A freshly constructed document: every field empty. */
  function EmptyDoc(): (d: Doc)
    ensures d.Valid()
  {
    Doc([], Empty(), map[], Empty(), [], Empty(), [], Empty())
  }

  /** The key a variable's value is stored under: its rendered placeholder. */
  function Key(name: string): string {
    "{{" + name + "}}"
  }

  /** The variable that accumulates a block's rendered output. */
  function ValueVar(block: string): string {
    block + "_value"
  }

  /** Distinct names have distinct keys. */
  lemma KeyInjective(a: string, b: string)
    requires a != b
    ensures Key(a) != Key(b)
  {
    KeyInner(a);
    KeyInner(b);
  }

  /** The name can be read back from its key. */
  lemma KeyInner(a: string)
    ensures |Key(a)| == |a| + 4 && Key(a)[2..2 + |a|] == a && OccursAt(Key(a), 0, "{{")
  {
    assert Key(a)[..2] == "{{";
  }

  /** A block's accumulator is a different variable from the block itself. */
  lemma ValueVarDiffers(b: string)
    ensures ValueVar(b) != b && Key(ValueVar(b)) != Key(b)
  {
    assert |ValueVar(b)| == |b| + 6;
    KeyInjective(ValueVar(b), b);
  }

  /** Distinct blocks have distinct accumulators. */
  lemma ValueVarInjective(a: string, b: string)
    ensures ValueVar(a) == ValueVar(b) ==> a == b
  {
    if ValueVar(a) == ValueVar(b) {
      assert a == ValueVar(a)[..|a|];
      assert b == ValueVar(b)[..|b|];
    }
  }

  /** `setValue`: store `value` under `{{name}}`, nothing else changes. */
  function SetValue(d: Doc, name: string, value: string): (r: Doc)
    ensures d.Valid() ==> r.Valid()
    ensures r.values.vals == d.values.vals[Key(name) := value]
    ensures Key(name) in d.values.vals ==> r.values.keys == d.values.keys
    ensures r == d.(values := r.values)
  {
    KeyInner(name);
    d.(values := d.values.Put(Key(name), value))
  }

  /** A stored value is found again under its own name; other names keep theirs. */
  lemma SetValueThenGet(d: Doc, name: string, value: string, other: string)
    ensures GetVar(SetValue(d, name, value), name) == value
    ensures other != name && Key(other) in d.values.vals ==>
              GetVar(SetValue(d, name, value), other) == GetVar(d, other)
  {
    if other != name {
      KeyInjective(other, name);
    }
  }

  /** `getVar`: the stored value; reading an absent variable is a runtime error in the source. */
  function GetVar(d: Doc, name: string): (r: string)
    requires Key(name) in d.values.vals
    ensures SetValue(d, name, r) == d
  {
    d.values.vals[Key(name)]
  }

  /** `clear`: the variable keeps its place and now holds the empty text. */
  function Clear(d: Doc, name: string): (r: Doc)
    ensures d.Valid() ==> r.Valid()
    ensures Key(name) in r.values.vals && GetVar(r, name) == ""
    ensures forall k :: k in d.values.vals && k != Key(name) ==> k in r.values.vals && r.values.vals[k] == d.values.vals[k]
    ensures Key(name) in d.values.vals ==> r.values.keys == d.values.keys
    ensures r == d.(values := r.values)
  {
    SetValue(d, name, "")
  }

  /** `variableExists`: the name was declared by a reference in a loaded template. */
  predicate VariableExists(d: Doc, name: string): (r: bool)
    ensures r <==> exists i :: 0 <= i < |d.vars| && d.vars[i] == name
  {
    name in d.vars
  }

  /** The message the source echoes for an undeclared or unset variable. */
  function NoSuchVar(name: string): string {
    "var " + name + " does not exist"
  }

  /** What `set` accepts, objects aside: a scalar's text or a list of texts. */
  datatype SetArg = Text(s: string) | List(items: seq<string>)

  /** The text `set` stores: a list is joined with ", ". */
  function Stringify(v: SetArg): string {
    match v
    case Text(s) => s
    case List(items) => Join(items, ", ")
  }

  /** A list of one item is stored as that item; two items are joined by ", ". */
  lemma StringifyList(a: string, b: string)
    ensures Stringify(List([a])) == a
    ensures Stringify(List([a, b])) == a + ", " + b
  {
    assert [a, b][1..] == [b];
    assert Join([b], ", ") == b;
  }

  /**
    `set`: an undeclared name changes nothing and reports an error; otherwise
    the value's text is stored.
  */
  function Set(d: Doc, name: string, v: SetArg): (r: (Doc, Option<string>))
    ensures d.Valid() ==> r.0.Valid()
    ensures !VariableExists(d, name) ==> r == (d, Some(NoSuchVar(name)))
    ensures VariableExists(d, name) ==> r.1 == None && r.0 == SetValue(d, name, Stringify(v))
  {
    if VariableExists(d, name) then (SetValue(d, name, Stringify(v)), None) else (d, Some(NoSuchVar(name)))
  }

  /** `get` returns what `set` stored for a declared name. */
  lemma SetThenGet(d: Doc, name: string, v: SetArg)
    requires VariableExists(d, name)
    ensures Get(Set(d, name, v).0, name) == (Stringify(v), None)
  {
  }

  /**
    `get` as the source writes it: the stored value, or "" when there is
    none, and the "does not exist" message in every case, because the throw
    follows the lookup unconditionally.
  */
  function GetAsWritten(d: Doc, name: string): (r: (string, Option<string>))
    ensures Key(name) in d.values.vals ==> r.0 == GetVar(d, name)
    ensures Key(name) !in d.values.vals ==> r.0 == ""
    ensures r.1 == Some(NoSuchVar(name))
  {
    (if Key(name) in d.values.vals then GetVar(d, name) else "", Some(NoSuchVar(name)))
  }

  /** A variable that holds a value is still reported as missing by `get` as written. */
  lemma GetAsWrittenReportsPresent()
    ensures var d := SetValue(EmptyDoc(), "x", "1");
      GetAsWritten(d, "x") == ("1", Some("var x does not exist"))
  {
    var d := SetValue(EmptyDoc(), "x", "1");
    assert Key("x") in d.values.vals && GetVar(d, "x") == "1";
    assert NoSuchVar("x") == "var x does not exist";
  }

  /** `get` as intended: the stored value, reporting only a variable that has none. */
  function Get(d: Doc, name: string): (r: (string, Option<string>))
    ensures Key(name) in d.values.vals ==> r == (GetVar(d, name), None)
    ensures Key(name) !in d.values.vals ==> r == ("", Some(NoSuchVar(name)))
  {
    if Key(name) in d.values.vals then (GetVar(d, name), None) else ("", Some(NoSuchVar(name)))
  }

  /** The two agree on the value; they differ exactly in reporting a variable that is present. */
  lemma GetAgreesOnValue(d: Doc, name: string)
    ensures Get(d, name).0 == GetAsWritten(d, name).0
    ensures Get(d, name).1 == GetAsWritten(d, name).1 <==> Key(name) !in d.values.vals
  {
  }
}
