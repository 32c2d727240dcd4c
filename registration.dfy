/**
  Reference registration: each reference found in a loaded template declares
  its variable, records its property path and records its modifier
  expression, without ever adding a duplicate.
*/
module Registration {
  import opened Text
  import opened PhpArray
  import opened Syntax
  import opened Store

  /** The `$modifiers` key of a reference: its name followed by its property path. */
  function ModifierKey(r: Ref): string {
    r.name + r.path
  }

  /** The expression recorded for a reference with modifiers: name, path and chain. */
  function ModifierExpr(r: Ref): string {
    r.name + r.path + r.mods
  }

  /** The paths recorded for a name so far. */
  function PathsOf(d: Doc, name: string): seq<string> {
    if name in d.objectProperties then d.objectProperties[name] else []
  }

  /** Everything a registered reference leaves behind in the document. */
  predicate Registered(d: Doc, r: Ref) {
    && r.name in d.vars
    && (r.path != "" ==> r.path in PathsOf(d, r.name))
    && (r.mods != "" ==> ModifierKey(r) in d.modifiers.vals && ModifierExpr(r) in d.modifiers.vals[ModifierKey(r)])
  }

  /** No list that registration appends to holds a duplicate. */
  predicate Deduplicated(d: Doc) {
    && NoDup(d.vars)
    && (forall n :: n in d.objectProperties ==> NoDup(d.objectProperties[n]))
    && (forall k :: k in d.modifiers.vals ==> NoDup(d.modifiers.vals[k]))
  }

  /** `processVariableMatch` */
  function Register(d: Doc, r: Ref): (d': Doc)
    ensures Registered(d', r)
    ensures d.Valid() ==> d'.Valid()
    ensures |d.vars| <= |d'.vars| && d'.vars[..|d.vars|] == d.vars
    ensures forall n :: n in d'.vars <==> n in d.vars || n == r.name
    ensures r.path == "" ==> d'.objectProperties == d.objectProperties
    ensures r.mods == "" ==> d'.modifiers == d.modifiers
    ensures d' == d.(vars := d'.vars, objectProperties := d'.objectProperties, modifiers := d'.modifiers)
  {
    var props :=
      if r.path == "" then d.objectProperties
      else d.objectProperties[r.name := AddIfAbsent(PathsOf(d, r.name), r.path)];
    var key := ModifierKey(r);
    var mods :=
      if r.mods == "" then d.modifiers
      else d.modifiers.Put(key, AddIfAbsent(d.modifiers.GetOr(key, []), ModifierExpr(r)));
    d.(vars := AddIfAbsent(d.vars, r.name), objectProperties := props, modifiers := mods)
  }

  /** The path list a registration leaves: unchanged when the path is recorded already, else extended by it. */
  lemma RegisterPaths(d: Doc, r: Ref)
    requires r.path != ""
    ensures r.name in d.objectProperties && r.path in d.objectProperties[r.name] ==>
              Register(d, r).objectProperties == d.objectProperties
    ensures !(r.name in d.objectProperties && r.path in d.objectProperties[r.name]) ==>
              Register(d, r).objectProperties == d.objectProperties[r.name := PathsOf(d, r.name) + [r.path]]
  {
    if r.name in d.objectProperties && r.path in d.objectProperties[r.name] {
      assert d.objectProperties[r.name := d.objectProperties[r.name]] == d.objectProperties;
    }
  }

  /** The expression list a registration leaves: unchanged when the expression is recorded already, else extended by it. */
  lemma RegisterExprs(d: Doc, r: Ref)
    requires r.mods != ""
    ensures ModifierKey(r) in d.modifiers.vals && ModifierExpr(r) in d.modifiers.vals[ModifierKey(r)] ==>
              Register(d, r).modifiers == d.modifiers
    ensures !(ModifierKey(r) in d.modifiers.vals && ModifierExpr(r) in d.modifiers.vals[ModifierKey(r)]) ==>
              Register(d, r).modifiers == d.modifiers.Put(ModifierKey(r), d.modifiers.GetOr(ModifierKey(r), []) + [ModifierExpr(r)])
  {
    var k := ModifierKey(r);
    if k in d.modifiers.vals && ModifierExpr(r) in d.modifiers.vals[k] {
      assert d.modifiers.vals[k := d.modifiers.vals[k]] == d.modifiers.vals;
    }
  }

  /** Registration never introduces a duplicate into any of its lists. */
  lemma RegisterDeduplicated(d: Doc, r: Ref)
    requires Deduplicated(d)
    ensures Deduplicated(Register(d, r))
  {
    var d' := Register(d, r);
    forall k | k in d'.modifiers.vals ensures NoDup(d'.modifiers.vals[k]) {
      if r.mods != "" && k == ModifierKey(r) {
        assert d'.modifiers.vals[k] == AddIfAbsent(d.modifiers.GetOr(k, []), ModifierExpr(r));
      } else {
        assert d'.modifiers.vals[k] == d.modifiers.vals[k];
      }
    }
  }

  /** Re-processing a reference that is already registered leaves the document unchanged. */
  lemma RegisterIdle(d: Doc, r: Ref)
    requires Registered(d, r)
    ensures Register(d, r) == d
  {
    var d' := Register(d, r);
    if r.path != "" {
      assert d'.objectProperties == d.objectProperties;
    }
    if r.mods != "" {
      assert d'.modifiers.vals == d.modifiers.vals;
    }
  }

  /** Registering one reference never undoes the registration of another. */
  lemma RegisterKeeps(d: Doc, r: Ref, other: Ref)
    requires Registered(d, other)
    ensures Registered(Register(d, r), other)
  {
    var d' := Register(d, r);
    if other.path != "" && r.path != "" && other.name == r.name {
      assert PathsOf(d', r.name) == AddIfAbsent(PathsOf(d, r.name), r.path);
    }
    if other.mods != "" && r.mods != "" && ModifierKey(other) == ModifierKey(r) {
      assert d'.modifiers.vals[ModifierKey(r)] == AddIfAbsent(d.modifiers.vals[ModifierKey(r)], ModifierExpr(r));
    }
  }

  /** `identifyVariables`: every reference, in the order found. */
  function RegisterAll(d: Doc, rs: seq<Ref>): (d': Doc)
    ensures d.Valid() ==> d'.Valid()
    ensures |d.vars| <= |d'.vars| && d'.vars[..|d.vars|] == d.vars
    ensures d' == d.(vars := d'.vars, objectProperties := d'.objectProperties, modifiers := d'.modifiers)
    decreases |rs|
  {
    if rs == [] then d else RegisterAll(Register(d, rs[0]), rs[1..])
  }

  /** Registering any run of references never introduces a duplicate. */
  lemma {:induction false} RegisterAllDeduplicated(d: Doc, rs: seq<Ref>)
    requires Deduplicated(d)
    ensures Deduplicated(RegisterAll(d, rs))
    decreases |rs|
  {
    if rs != [] {
      RegisterDeduplicated(d, rs[0]);
      RegisterAllDeduplicated(Register(d, rs[0]), rs[1..]);
    }
  }

  /** The front-recursive definition peels off the last reference too. */
  lemma {:induction false} RegisterAllSnoc(d: Doc, rs: seq<Ref>, r: Ref)
    ensures RegisterAll(d, rs + [r]) == Register(RegisterAll(d, rs), r)
    decreases |rs|
  {
    if rs == [] {
      assert [r][1..] == [];
    } else {
      assert (rs + [r])[1..] == rs[1..] + [r];
      RegisterAllSnoc(Register(d, rs[0]), rs[1..], r);
    }
  }

  /** Afterwards every reference processed is registered, and every earlier registration survives. */
  lemma {:induction false} RegisterAllEstablishes(d: Doc, rs: seq<Ref>, r: Ref)
    requires r in rs || Registered(d, r)
    ensures Registered(RegisterAll(d, rs), r)
    decreases |rs|
  {
    if rs != [] {
      if Registered(d, r) {
        RegisterKeeps(d, rs[0], r);
      }
      if r != rs[0] && !Registered(d, r) {
        assert r in rs[1..];
      }
      RegisterAllEstablishes(Register(d, rs[0]), rs[1..], r);
    }
  }

  /** Processing references that are all registered already changes nothing. */
  lemma {:induction false} RegisterAllIdle(d: Doc, rs: seq<Ref>)
    requires forall r :: r in rs ==> Registered(d, r)
    ensures RegisterAll(d, rs) == d
    decreases |rs|
  {
    if rs != [] {
      RegisterIdle(d, rs[0]);
      RegisterAllIdle(d, rs[1..]);
    }
  }

  /** Loading the same references twice gives the same document as loading them once. */
  lemma RegisterAllIdempotent(d: Doc, rs: seq<Ref>)
    ensures RegisterAll(RegisterAll(d, rs), rs) == RegisterAll(d, rs)
  {
    forall r | r in rs ensures Registered(RegisterAll(d, rs), r) {
      RegisterAllEstablishes(d, rs, r);
    }
    RegisterAllIdle(RegisterAll(d, rs), rs);
  }

  /** `identifyVariables`: register every `{…}` reference of the text, leftmost first. */
  function IdentifyVariables(d: Doc, content: string): (d': Doc)
    ensures d.Valid() ==> d'.Valid()
    ensures |d.vars| <= |d'.vars| && d'.vars[..|d.vars|] == d.vars
  {
    RegisterAll(d, Tokenize(content, 0))
  }
}
