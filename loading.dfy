/**
  Loading a template text into a variable: the text is stored, its
  references are registered, its blocks are discovered, registered and cut
  out of their parents. Reading the file is not modelled: the text is given.
*/
module Loading {
  import opened Wrappers
  import opened Text
  import opened PhpArray
  import opened Syntax
  import opened Store
  import opened Registration
  import opened Discovery
  import opened Blocks

  /** `identifyBlocksAndVars`: the references are registered from the text as loaded, then the blocks are discovered. */
  function IdentifyBlocksAndVars(d: Doc, content: string, varname: string): (r: (Doc, OMap<seq<string>>))
    ensures d.Valid() ==> r.0.Valid()
    ensures r.1.Valid()
    ensures forall x :: x in Tokenize(content, 0) ==> Registered(r.0, x)
  {
    forall x | x in Tokenize(content, 0) ensures Registered(IdentifyVariables(d, content), x) {
      RegisterAllEstablishes(d, Tokenize(content, 0), x);
    }
    (IdentifyVariables(d, content), Discover(content, varname))
  }

  /** The template branch of `loadFile`, from the text read on. */
  function LoadText(d: Doc, accurate: bool, varname: string, content: string): (r: (Doc, Created))
    requires d.Valid()
    ensures r.0.Valid()
  {
    var found := IdentifyBlocksAndVars(SetValue(d, varname, content), content, varname);
    CreateBlocks(found.0, accurate, found.1)
  }

  /** The message `addFile` echoes for an undeclared variable. */
  function AddFileError(varname: string): string {
    "addFile: var " + varname + " does not exist"
  }

  /** The message `createBlocks` echoes when a block is declared twice. */
  function DuplicateError(b: string): string {
    "duplicated block: " + b
  }

  /**
    The uncaught type error that ends the script when `getVar` reads a name
    that holds no text; the model reports it like the echoed messages.
  */
  function FatalRead(): string {
    "MiTemplate::getVar(): Return value must be of type string, null returned"
  }

  /** What a load reports: nothing, the echoed duplicate, or the fatal read. */
  function Report(o: Created): (r: Option<string>)
    ensures r.None? <==> o == Done
  {
    match o
    case Done => None
    case Duplicate(b) => Some(DuplicateError(b))
    case Fatal(_) => Some(FatalRead())
  }

  /** `addFile`: only a declared variable can receive a file; otherwise nothing changes. */
  function AddFile(d: Doc, accurate: bool, varname: string, content: string): (r: (Doc, Option<string>))
    requires d.Valid()
    ensures r.0.Valid()
    ensures !VariableExists(d, varname) ==> r == (d, Some(AddFileError(varname)))
    ensures VariableExists(d, varname) ==>
      var (d1, o) := LoadText(d, accurate, varname, content);
      && r.0 == d1
      && (o == Done ==> r.1 == None)
      && (o.Duplicate? ==> r.1 == Some(DuplicateError(o.name)))
      && (o.Fatal? ==> r.1 == Some(FatalRead()))
  {
    if !VariableExists(d, varname) then (d, Some(AddFileError(varname)))
    else
      var (d1, o) := LoadText(d, accurate, varname, content);
      (d1, Report(o))
  }

  /** The constructor: the main text is loaded into the root variable `.`. */
  function New(accurate: bool, content: string): (r: (Doc, Created))
    ensures r.0.Valid()
  {
    LoadText(EmptyDoc(), accurate, ".", content)
  }

  // ---------------------------------------------------------------------
  // Properties

  /** Every reference of a loaded text is registered afterwards; block setup does not undo that. */
  lemma LoadRegisters(d: Doc, accurate: bool, varname: string, content: string, x: Ref)
    requires d.Valid() && x in Tokenize(content, 0)
    ensures Registered(LoadText(d, accurate, varname, content).0, x)
  {
    var (d2, found) := IdentifyBlocksAndVars(SetValue(d, varname, content), content, varname);
    assert Registered(d2, x);
    var r := LoadText(d, accurate, varname, content).0;
    assert r.vars == d2.vars && r.modifiers == d2.modifiers && r.objectProperties == d2.objectProperties;
  }

  /** Every name referenced in a loaded text is declared afterwards: `addFile` accepts it as a target. */
  lemma LoadDeclares(d: Doc, accurate: bool, varname: string, content: string, x: Ref)
    requires d.Valid() && x in Tokenize(content, 0)
    ensures VariableExists(LoadText(d, accurate, varname, content).0, x.name)
  {
    LoadRegisters(d, accurate, varname, content, x);
  }

  /** The children named by the pairs are the concatenated children lists. */
  lemma {:induction false} PairsChildren(m: OMap<seq<string>>, ks: seq<string>)
    ensures ChildNames(Pairs(m, ks)) == Children(m, ks)
    decreases |ks|
  {
    if ks != [] {
      PairsOfChildren(ks[0], m.GetOr(ks[0], []));
      ChildNamesConcat(PairsOf(ks[0], m.GetOr(ks[0], [])), Pairs(m, ks[1..]));
      PairsChildren(m, ks[1..]);
    }
  }

  lemma {:induction false} PairsOfChildren(parent: string, cs: seq<string>)
    ensures ChildNames(PairsOf(parent, cs)) == cs
    decreases |cs|
  {
    if cs != [] {
      PairsOfChildren(parent, cs[1..]);
      assert ([(parent, cs[0])] + PairsOf(parent, cs[1..]))[1..] == PairsOf(parent, cs[1..]);
    }
  }

  lemma {:induction false} ChildNamesConcat(a: seq<(string, string)>, b: seq<(string, string)>)
    ensures ChildNames(a + b) == ChildNames(a) + ChildNames(b)
    decreases |a|
  {
    if a == [] {
      assert a + b == b;
    } else {
      assert (a + b)[1..] == a[1..] + b;
      ChildNamesConcat(a[1..], b);
    }
  }

  /**
    A load that runs to the end registers, after the blocks already known,
    exactly the blocks its BEGIN markers open, and no block twice.
  */
  lemma LoadRegistersBlocks(d: Doc, accurate: bool, varname: string, content: string)
    requires d.Valid() && NoDup(d.blocks)
    requires LoadText(d, accurate, varname, content).1 == Done
    ensures var r := LoadText(d, accurate, varname, content).0;
      && NoDup(r.blocks)
      && |d.blocks| <= |r.blocks| && r.blocks[..|d.blocks|] == d.blocks
      && multiset(r.blocks[|d.blocks|..]) == multiset(BeginNames(Lines(content)))
  {
    var (d2, found) := IdentifyBlocksAndVars(SetValue(d, varname, content), content, varname);
    var d3 := d2.(parentBlocks := d2.parentBlocks.Merge(found));
    var ps := Pairs(found, found.keys);
    var r := LoadText(d, accurate, varname, content);
    assert r == SetupAll(d3, accurate, ps);
    SetupAllDone(d3, accurate, ps);
    PairsChildren(found, found.keys);
    DiscoverChildren(content, varname);
    assert r.0.blocks[|d.blocks|..] == AllChildren(found);
  }

  /** A loop that runs to the end registers the children of every pair. */
  lemma SetupAllDone(d: Doc, accurate: bool, ps: seq<(string, string)>)
    requires NoDup(d.blocks) && SetupAll(d, accurate, ps).1 == Done
    ensures var r := SetupAll(d, accurate, ps).0;
      NoDup(r.blocks) && r.blocks == d.blocks + ChildNames(ps)
  {
    SetupAllBlocks(d, accurate, ps);
    assert ps[..|ps|] == ps;
  }

  /**
    A text without BEGIN markers creates no block and its variable keeps the
    text as loaded.
  */
  lemma LoadWithoutBlocks(d: Doc, accurate: bool, varname: string, content: string)
    requires d.Valid() && BeginNames(Lines(content)) == []
    ensures LoadText(d, accurate, varname, content).1 == Done
    ensures LoadText(d, accurate, varname, content).0.blocks == d.blocks
    ensures var r := LoadText(d, accurate, varname, content).0;
      Key(varname) in r.values.vals && GetVar(r, varname) == content
  {
    FilterRedundant(varname, Scan([], Empty()), Lines(content));
    ScanWithoutBegin(varname, Scan([], Empty()), Lines(content));
    var d1 := SetValue(d, varname, content);
    var d2 := IdentifyVariables(d1, content);
    var found := Discover(content, varname);
    assert found == Empty();
    assert IdentifyBlocksAndVars(d1, content, varname) == (d2, found);
    var d3 := d2.(parentBlocks := d2.parentBlocks.Merge(found));
    assert Pairs(found, found.keys) == [];
    assert CreateBlocks(d2, accurate, found) == (d3, Done);
    assert LoadText(d, accurate, varname, content) == (d3, Done);
    assert d3.values == d1.values;
    assert GetVar(d1, varname) == content;
  }

  /** Lines that open no block leave the children lists as they were. */
  lemma {:induction false} ScanWithoutBegin(varname: string, sc: Scan, lines: seq<string>)
    requires BeginNames(lines) == []
    ensures ScanAll(varname, sc, lines).blocks == sc.blocks
    decreases |lines|
  {
    if lines != [] {
      assert BeginOf(lines[0]) == [];
      ScanWithoutBegin(varname, ProcessLine(varname, sc, lines[0]), lines[1..]);
    }
  }
}
