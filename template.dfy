/**
  The engine object. Its fields are the document state; each method changes
  them step by step as the engine does and is proved to leave the state its
  specification function computes from the state before.
*/
module Template {
  import opened Wrappers
  import opened Text
  import opened PhpArray
  import opened Syntax
  import opened Store
  import Registration
  import Discovery
  import Modifiers
  import Substitution
  import Blocks
  import Render
  import Loading

  class MiTemplate {
    var vars: seq<string>
    var values: OMap<string>
    var objectProperties: map<string, seq<string>>
    var modifiers: OMap<seq<string>>
    var blocks: seq<string>
    var parentBlocks: OMap<seq<string>>
    var parsedBlocks: seq<string>
    var finallyBlocks: OMap<string>
    /** Accurate block parsing (`\r\n` normalised before extraction). */
    const accurateParsing: bool
    /** The functions modifier chains may name. */
    const registry: Modifiers.Registry

    /** The document the fields hold. */
    function Model(): Doc
      reads this
    {
      Doc(vars, values, objectProperties, modifiers, blocks, parentBlocks, parsedBlocks, finallyBlocks)
    }

    predicate Valid()
      reads this
    {
      Model().Valid()
    }

    /** `__construct`: the main template text is loaded into the root variable `.`. */
    constructor (content: string, accurate: bool, reg: Modifiers.Registry)
      ensures Valid() && accurateParsing == accurate && registry == reg
      ensures Model() == Loading.New(accurate, content).0
    {
      accurateParsing := accurate;
      registry := reg;
      vars, values, objectProperties, modifiers := [], Empty(), map[], Empty();
      blocks, parentBlocks, parsedBlocks, finallyBlocks := [], Empty(), [], Empty();
      new;
      var _ := LoadFile(".", content);
    }

    // -------------------------------------------------------------------
    // Value store

    /** `setValue` */
    method SetValue(name: string, value: string)
      modifies this
      ensures Model() == Store.SetValue(old(Model()), name, value)
    {
      values := values.Put(Key(name), value);
    }

    /** `getVar` */
    function GetVar(name: string): (r: string)
      reads this
      requires Key(name) in values.vals
      ensures r == Store.GetVar(Model(), name)
    {
      values.vals[Key(name)]
    }

    /** `clear` */
    method Clear(name: string)
      modifies this
      ensures Model() == Store.Clear(old(Model()), name)
    {
      SetValue(name, "");
    }

    /** `variableExists` */
    predicate VariableExists(name: string): (r: bool)
      reads this
      ensures r == Store.VariableExists(Model(), name)
    {
      name in vars
    }

    /** `set`; the error message the source echoes is returned. */
    method Set(name: string, v: SetArg) returns (err: Option<string>)
      modifies this
      ensures (Model(), err) == Store.Set(old(Model()), name, v)
    {
      if !VariableExists(name) {
        return Some(NoSuchVar(name));
      }
      var text := match v case Text(s) => s case List(items) => Join(items, ", ");
      SetValue(name, text);
      err := None;
    }

    /** `get`, reporting only a variable that holds no value. */
    method Get(name: string) returns (value: string, err: Option<string>)
      ensures (value, err) == Store.Get(Model(), name)
      ensures err.None? <==> Key(name) in values.vals
    {
      value, err := "", None;
      if Key(name) in values.vals {
        value := values.vals[Key(name)];
      } else {
        err := Some(NoSuchVar(name));
      }
    }

    // -------------------------------------------------------------------
    // Reference registration

    /** `processVariableMatch` */
    method ProcessVariableMatch(r: Ref)
      modifies this
      ensures Model() == Registration.Register(old(Model()), r)
    {
      ghost var d := Model();
      if r.path != "" {
        Registration.RegisterPaths(d, r);
        if r.name !in objectProperties || r.path !in objectProperties[r.name] {
          objectProperties := objectProperties[r.name := (if r.name in objectProperties then objectProperties[r.name] else []) + [r.path]];
        }
      }
      if r.mods != "" {
        Registration.RegisterExprs(d, r);
        var key := r.name + r.path;
        var expr := r.name + r.path + r.mods;
        if key !in modifiers.vals || expr !in modifiers.vals[key] {
          modifiers := modifiers.Put(key, modifiers.GetOr(key, []) + [expr]);
        }
      }
      if r.name !in vars {
        vars := vars + [r.name];
      }
    }

    /** `identifyVariables`: every reference of the text, leftmost first. */
    method IdentifyVariables(content: string)
      modifies this
      ensures Model() == Registration.IdentifyVariables(old(Model()), content)
    {
      var refs := Tokenize(content, 0);
      var i := 0;
      while i < |refs|
        invariant 0 <= i <= |refs|
        invariant Registration.RegisterAll(Model(), refs[i..]) == Registration.RegisterAll(old(Model()), refs)
      {
        assert refs[i..][1..] == refs[i + 1..];
        ProcessVariableMatch(refs[i]);
        i := i + 1;
      }
    }

    // -------------------------------------------------------------------
    // Block discovery

    /** `processLineForBlocks`: the stack and the children lists are passed in and handed back. */
    method ProcessLineForBlocks(line: string, varname: string, queue: seq<string>, found: OMap<seq<string>>)
      returns (queue': seq<string>, found': OMap<seq<string>>)
      ensures Discovery.Scan(queue', found') == Discovery.ProcessLine(varname, Discovery.Scan(queue, found), line)
    {
      queue', found' := queue, found;
      var begin := BeginName(line);
      if begin.Some? {
        var parent := if queue == [] then varname else queue[|queue| - 1];
        found' := found.Put(parent, found.GetOr(parent, []) + [begin.value]);
        queue' := queue + [begin.value];
      } else if HasEnd(line) {
        if queue != [] {
          queue' := queue[..|queue| - 1];
        }
      }
    }

    /** `identifyBlocksAndVars` */
    method IdentifyBlocksAndVars(content: string, varname: string) returns (found: OMap<seq<string>>)
      modifies this
      ensures (Model(), found) == Loading.IdentifyBlocksAndVars(old(Model()), content, varname)
    {
      IdentifyVariables(content);
      var lines := Discovery.Lines(content);
      ghost var registered := Model();
      var queue: seq<string> := [];
      found := Empty();
      var i := 0;
      while i < |lines|
        invariant 0 <= i <= |lines| && Model() == registered
        invariant Discovery.ScanLines(varname, Discovery.Scan(queue, found), lines[i..])
                  == Discovery.ScanLines(varname, Discovery.Scan([], Empty()), lines)
      {
        assert lines[i..][1..] == lines[i + 1..];
        if Contains(lines[i], "[") {
          queue, found := ProcessLineForBlocks(lines[i], varname, queue, found);
        }
        i := i + 1;
      }
      assert lines[i..] == [];
    }

    // -------------------------------------------------------------------
    // Loading

    /** `loadFile` for a template text: stored, scanned, and its blocks set up. */
    method LoadFile(varname: string, content: string) returns (outcome: Blocks.Created)
      requires Valid()
      modifies this
      ensures Valid()
      ensures (Model(), outcome) == Loading.LoadText(old(Model()), accurateParsing, varname, content)
    {
      SetValue(varname, content);
      var found := IdentifyBlocksAndVars(content, varname);
      outcome := CreateBlocks(found);
    }

    /** `addFile`: only a declared variable can receive a file. */
    method AddFile(varname: string, content: string) returns (err: Option<string>)
      requires Valid()
      modifies this
      ensures Valid()
      ensures (Model(), err) == Loading.AddFile(old(Model()), accurateParsing, varname, content)
    {
      if !VariableExists(varname) {
        return Some(Loading.AddFileError(varname));
      }
      var o := LoadFile(varname, content);
      err := Loading.Report(o);
    }

    // -------------------------------------------------------------------
    // Block registration and extraction

    /** `setupBlock` */
    method SetupBlock(parent: string, b: string) returns (outcome: Blocks.Setup)
      modifies this
      ensures (Model(), outcome) == Blocks.SetupBlock(old(Model()), accurateParsing, parent, b)
    {
      if Key(parent) !in values.vals {
        return Blocks.ParentMissing;
      }
      var text := GetVar(parent);
      if accurateParsing {
        text := ReplaceAll(text, "\r\n", "\n");
      }
      var m := FirstMatch(text, b);
      if m.None? {
        return Blocks.Malformed;
      }
      Extract(parent, b, text, m.value);
      outcome := Blocks.Extracted;
    }

    /** The stores of a successful extraction: empty accumulator, body, rewritten parent, FINALLY text. */
    method Extract(parent: string, b: string, text: string, m: BlockMatch)
      requires FirstMatch(text, b) == Some(m)
      modifies this
      ensures Model() == Blocks.Extract(old(Model()), parent, b, text, m)
    {
      ghost var d0 := Model();
      SetValue(ValueVar(b), "");
      SetValue(b, Body(text, m));
      SetValue(parent, ReplaceMatches(text, b, Key(ValueVar(b))));
      assert Model() == Blocks.ExtractValues(d0, parent, b, text, m);
      if m.finallyStart.Some? {
        finallyBlocks := finallyBlocks.Put(b, FinallyText(text, m).value);
      }
    }

    /** `createBlocks`: the lists are merged first; a duplicate or a fatal setup stops the loop. */
    method CreateBlocks(found: OMap<seq<string>>) returns (outcome: Blocks.Created)
      requires Valid() && found.Valid()
      modifies this
      ensures (Model(), outcome) == Blocks.CreateBlocks(old(Model()), accurateParsing, found)
    {
      parentBlocks := parentBlocks.Merge(found);
      ghost var target := Blocks.SetupAll(Model(), accurateParsing, Blocks.Pairs(found, found.keys));
      var ks := found.keys;
      var i := 0;
      while i < |ks|
        invariant 0 <= i <= |ks|
        invariant Blocks.SetupAll(Model(), accurateParsing, Blocks.Pairs(found, ks[i..])) == target
      {
        var parent := ks[i];
        ghost var d0 := Model();
        Blocks.PairsFront(found, ks, i);
        Blocks.SetupAllConcat(d0, accurateParsing, Blocks.PairsOf(parent, found.GetOr(parent, [])), Blocks.Pairs(found, ks[i + 1..]));
        outcome := SetupChildren(parent, found.GetOr(parent, []));
        if outcome != Blocks.Done {
          return;
        }
        i := i + 1;
      }
      assert ks[i..] == [];
      outcome := Blocks.Done;
    }

    /** The inner loop of `createBlocks`, over the children of one parent. */
    method SetupChildren(parent: string, children: seq<string>) returns (outcome: Blocks.Created)
      modifies this
      ensures (Model(), outcome) == Blocks.SetupAll(old(Model()), accurateParsing, Blocks.PairsOf(parent, children))
    {
      assert children[0..] == children;
      var j := 0;
      while j < |children|
        invariant 0 <= j <= |children|
        invariant Blocks.SetupAll(Model(), accurateParsing, Blocks.PairsOf(parent, children[j..]))
                  == Blocks.SetupAll(old(Model()), accurateParsing, Blocks.PairsOf(parent, children))
      {
        var child := children[j];
        ghost var d0 := Model();
        Blocks.SetupAllChildFront(d0, accurateParsing, parent, children, j);
        if child in blocks {
          return Blocks.Duplicate(child);
        }
        blocks := blocks + [child];
        assert Model() == d0.(blocks := d0.blocks + [child]);
        var o := SetupBlock(parent, child);
        if o == Blocks.ParentMissing {
          return Blocks.Fatal(parent);
        }
        j := j + 1;
      }
      assert children[j..] == [];
      outcome := Blocks.Done;
    }

    /** `setParent` */
    method SetParent(parent: string, b: string)
      modifies this
      ensures Model() == Render.SetParent(old(Model()), parent, b)
    {
      parentBlocks := parentBlocks.Put(parent, parentBlocks.GetOr(parent, []) + [b]);
    }

    // -------------------------------------------------------------------
    // Substitution

    /** `applyModifiers`: the segments after the first are applied left to right. */
    method ApplyModifiers(value: string, expr: string) returns (r: string)
      ensures r == Modifiers.ApplyModifiers(registry, value, expr)
    {
      var mods := Split(expr, "|");
      r := value;
      var i := 1;
      while i < |mods|
        invariant 1 <= i <= |mods|
        invariant Modifiers.ApplyChain(registry, r, mods[i..]) == Modifiers.ApplyChain(registry, value, mods[1..])
      {
        assert mods[i..][1..] == mods[i + 1..];
        var parts := Split(mods[i], ":");
        r := registry(parts[0], r, parts[1..]);
        i := i + 1;
      }
      assert mods[i..] == [];
    }

    /** `applyVariableModifiers` */
    method ApplyVariableModifiers(content: string) returns (r: string)
      ensures r == Substitution.VariableModifiers(Model(), registry, content)
    {
      r := content;
      var ks := modifiers.keys;
      var i := 0;
      while i < |ks|
        invariant 0 <= i <= |ks|
        invariant Substitution.ModifyKeys(Model(), registry, ks[i..], r) == Substitution.VariableModifiers(Model(), registry, content)
      {
        var vk := ks[i];
        assert ks[i..][1..] == ks[i + 1..];
        if Contains(r, "{{" + vk + "|") {
          var exprs := modifiers.GetOr(vk, []);
          assert exprs[0..] == exprs;
          var j := 0;
          while j < |exprs|
            invariant 0 <= j <= |exprs|
            invariant Substitution.ModifyKeys(Model(), registry, ks[i + 1..], Substitution.ModifyExprs(Model(), registry, vk, exprs[j..], r))
                      == Substitution.VariableModifiers(Model(), registry, content)
          {
            var e := exprs[j];
            assert exprs[j..][1..] == exprs[j + 1..];
            if !Contains(vk, "->") && Key(vk) in values.vals {
              var mv := ApplyModifiers(values.vals[Key(vk)], e);
              r := ReplaceAll(r, Substitution.ExprPlaceholder(e), mv);
            }
            j := j + 1;
          }
          assert exprs[j..] == [];
        }
        i := i + 1;
      }
      assert ks[i..] == [];
    }

    /** `substituteVariables`: the plain `str_replace` of every value, then the modifier expressions. */
    method SubstituteVariables(content: string) returns (r: string)
      requires Valid()
      ensures r == Substitution.Substitute(Model(), registry, content)
    {
      r := Substitution.PlainSubstitute(values, content);
      r := ApplyVariableModifiers(r);
    }

    // -------------------------------------------------------------------
    // Render protocol

    /** `processChildFinallyBlocks` */
    method ProcessChildFinallyBlocks(b: string)
      requires Valid()
      modifies this
      ensures Model() == Render.ProcessChildFinally(old(Model()), registry, b)
    {
      if b !in parentBlocks.vals {
        return;
      }
      var cs := parentBlocks.vals[b];
      assert cs[0..] == cs;
      var i := 0;
      while i < |cs|
        invariant 0 <= i <= |cs| && Valid()
        invariant Render.ChildFinally(Model(), registry, b, cs[i..]) == Render.ProcessChildFinally(old(Model()), registry, b)
      {
        Render.ChildFinallyFront(Model(), registry, b, cs, i);
        ChildFinallyStep(b, cs[i]);
        i := i + 1;
      }
      assert cs[i..] == [];
    }

    /** One iteration of `processChildFinallyBlocks`, for child `c` of `b`. */
    method ChildFinallyStep(b: string, c: string)
      requires Valid()
      modifies this
      ensures Model() == Render.ChildStep(old(Model()), registry, b, c)
    {
      if c in finallyBlocks.vals && c !in parsedBlocks {
        var rendered := SubstituteVariables(finallyBlocks.vals[c]);
        SetValue(ValueVar(c), rendered);
        parsedBlocks := parsedBlocks + [b];
      }
    }

    /** `markBlockAsParsed` */
    method MarkBlockAsParsed(b: string)
      modifies this
      ensures Model() == Render.MarkParsed(old(Model()), b)
    {
      if b !in parsedBlocks {
        parsedBlocks := parsedBlocks + [b];
      }
    }

    /** `clearChildBlocks` */
    method ClearChildBlocks(b: string)
      modifies this
      ensures Model() == Render.ClearChildren(old(Model()), b)
    {
      if b !in parentBlocks.vals {
        return;
      }
      var cs := parentBlocks.vals[b];
      assert cs[0..] == cs;
      var i := 0;
      while i < |cs|
        invariant 0 <= i <= |cs|
        invariant Render.ClearAll(Model(), cs[i..]) == Render.ClearChildren(old(Model()), b)
      {
        assert cs[i..][1..] == cs[i + 1..];
        Clear(ValueVar(cs[i]));
        i := i + 1;
      }
      assert cs[i..] == [];
    }

    /** `block(b, append)`; the message for an unknown block is returned. */
    method Block(b: string, append: bool) returns (err: Option<string>)
      requires Valid() && Render.CanRender(Model(), b, append)
      modifies this
      ensures (Model(), err) == Render.Block(old(Model()), registry, b, append)
    {
      if b !in blocks {
        return Some(Render.NoSuchBlock(b));
      }
      ProcessChildFinallyBlocks(b);
      var content := GetVar(b);
      if append {
        var current := GetVar(ValueVar(b));
        var rendered := SubstituteVariables(content);
        SetValue(ValueVar(b), current + rendered);
      }
      MarkBlockAsParsed(b);
      ClearChildBlocks(b);
      err := None;
    }

    /**
      `parseParentBlocks`: the parents in reverse insertion order. `ok` is false
      when a parent due to be rendered holds no text, the fatal read that ends
      the script.
    */
    method ParseParentBlocks() returns (ok: bool)
      requires Valid()
      modifies this
      ensures ok == Render.ParseParents(old(Model()), registry).Some?
      ensures ok ==> Model() == Render.ParseParents(old(Model()), registry).value
    {
      var ps := Render.Reverse(parentBlocks.keys);
      var i := 0;
      while i < |ps|
        invariant 0 <= i <= |ps|
        invariant Valid() && parentBlocks == old(parentBlocks)
        invariant forall p :: p in ps[i..] ==> p in parentBlocks.vals
        invariant Render.ParentsFold(Model(), registry, ps[i..]) == Render.ParseParents(old(Model()), registry)
      {
        Render.ParentsFoldFront(Model(), registry, ps, i);
        ok := RenderParent(ps[i], parentBlocks.vals[ps[i]]);
        if !ok {
          return;
        }
        i := i + 1;
      }
      assert ps[i..] == [];
      ok := true;
    }

    /** The inner loop of `parseParentBlocks`, over the children `cs` of parent `p`. */
    method RenderParent(p: string, cs: seq<string>) returns (ok: bool)
      requires Valid()
      modifies this
      ensures ok == Render.ParentChildren(old(Model()), registry, p, cs).Some?
      ensures ok ==> Model() == Render.ParentChildren(old(Model()), registry, p, cs).value
    {
      assert cs[0..] == cs;
      var j := 0;
      while j < |cs|
        invariant 0 <= j <= |cs| && Valid()
        invariant Render.ParentChildren(Model(), registry, p, cs[j..]) == Render.ParentChildren(old(Model()), registry, p, cs)
      {
        Render.ParentChildrenFront(Model(), registry, p, cs, j);
        ok := ParentStep(p, cs[j]);
        if !ok {
          return;
        }
        j := j + 1;
      }
      assert cs[j..] == [];
      ok := true;
    }

    /**
      One iteration of that loop: parent `p` is rendered when child `c` is
      parsed and `p` is not; `ok` is false when `p` then holds no text.
    */
    method ParentStep(p: string, c: string) returns (ok: bool)
      requires Valid()
      modifies this
      ensures ok == Render.ParentStep(old(Model()), registry, p, c).Some?
      ensures ok ==> Model() == Render.ParentStep(old(Model()), registry, p, c).value
    {
      if p in blocks && c in parsedBlocks && p !in parsedBlocks {
        if Key(p) !in values.vals {
          return false;
        }
        var rendered := SubstituteVariables(GetVar(p));
        SetValue(ValueVar(p), rendered);
        parsedBlocks := parsedBlocks + [p];
      }
      ok := true;
    }

    /** `processFinallyBlocks` */
    method ProcessFinallyBlocks()
      requires Valid()
      modifies this
      ensures Model() == Render.ProcessFinally(old(Model()), registry)
    {
      var ks := finallyBlocks.keys;
      assert ks[0..] == ks;
      var i := 0;
      while i < |ks|
        invariant 0 <= i <= |ks|
        invariant Valid() && finallyBlocks == old(finallyBlocks)
        invariant Render.FinallyFold(Model(), registry, ks[i..]) == Render.ProcessFinally(old(Model()), registry)
      {
        var b := ks[i];
        assert ks[i..][1..] == ks[i + 1..];
        if b !in parsedBlocks {
          var rendered := SubstituteVariables(finallyBlocks.vals[b]);
          SetValue(ValueVar(b), rendered);
        }
        i := i + 1;
      }
      assert ks[i..] == [];
    }

    /**
      `parse`: the final text, with every leftover reference removed; `None`
      when a read hits a name that holds no text.
    */
    method Parse() returns (s: Option<string>)
      requires Valid()
      modifies this
      ensures s.Some? == Render.Parse(old(Model()), registry).Some?
      ensures s.Some? ==> (Model(), s.value) == Render.Parse(old(Model()), registry).value
    {
      var ok := ParseParentBlocks();
      if !ok {
        return None;
      }
      ProcessFinallyBlocks();
      if Key(".") !in values.vals {
        return None;
      }
      var content := SubstituteVariables(GetVar("."));
      s := Some(StripAll(content));
    }
  }
}
