/**
  Block discovery: a line scan over a loaded template with an explicit stack
  of open blocks. Each `[BEGIN b]` line makes `b` a child of the innermost
  open block (or of the loaded variable when none is open) and opens it;
  each `[END x]` line closes the innermost open block, whatever `x` is.
*/
module Discovery {
  import opened Wrappers
  import opened Text
  import opened PhpArray
  import opened Syntax

  /**
    The lines the scan reads. A text without a line break (minified markup)
    first has every `]` followed by one, so each marker ends a line.
  */
  function Lines(content: string): (ls: seq<string>)
    ensures |ls| >= 1
  {
    if |Split(content, "\n")| == 1 then Split(ReplaceAll(content, "]", "]\n"), "\n")
    else Split(content, "\n")
  }

  /** The lines join back to the text, after the `]` rule when the text had no line break. */
  lemma LinesJoin(content: string)
    ensures Contains(content, "\n") ==> Join(Lines(content), "\n") == content
    ensures !Contains(content, "\n") ==> Join(Lines(content), "\n") == ReplaceAll(content, "]", "]\n")
  {
    SplitSingleIffAbsent(content, "\n");
    ExplodeImplodeRoundTrip(content, "\n");
    ExplodeImplodeRoundTrip(ReplaceAll(content, "]", "]\n"), "\n");
  }

  /** The scan's state: the stack of open blocks and the parent -> children lists found so far. */
  datatype Scan = Scan(queue: seq<string>, blocks: OMap<seq<string>>)

  /** The block a new child belongs to: the innermost open block, or the loaded variable. */
  function ParentOf(varname: string, queue: seq<string>): string {
    if queue == [] then varname else queue[|queue| - 1]
  }

  /** `processLineForBlocks`: BEGIN is looked for first; END is looked for only when there is none. */
  function ProcessLine(varname: string, sc: Scan, line: string): (r: Scan)
    ensures sc.blocks.Valid() ==> r.blocks.Valid()
  {
    match BeginName(line)
    case Some(b) =>
      var parent := ParentOf(varname, sc.queue);
      Scan(sc.queue + [b], sc.blocks.Put(parent, sc.blocks.GetOr(parent, []) + [b]))
    case None =>
      if HasEnd(line) then
        Scan(if sc.queue == [] then [] else sc.queue[..|sc.queue| - 1], sc.blocks)
      else sc
  }

  /** `identifyBlocksAndVars`' loop: only lines that contain `[` are handed to `processLineForBlocks`. */
  function ScanLines(varname: string, sc: Scan, lines: seq<string>): (r: Scan)
    ensures sc.blocks.Valid() ==> r.blocks.Valid()
    decreases |lines|
  {
    if lines == [] then sc
    else
      var sc' := if Contains(lines[0], "[") then ProcessLine(varname, sc, lines[0]) else sc;
      ScanLines(varname, sc', lines[1..])
  }

  /** The same scan with every line handed over. */
  function ScanAll(varname: string, sc: Scan, lines: seq<string>): (r: Scan)
    ensures sc.blocks.Valid() ==> r.blocks.Valid()
    decreases |lines|
  {
    if lines == [] then sc else ScanAll(varname, ProcessLine(varname, sc, lines[0]), lines[1..])
  }

  /** A line without `[` holds no marker, so the `strpos` filter changes nothing. */
  lemma {:induction false} FilterRedundant(varname: string, sc: Scan, lines: seq<string>)
    ensures ScanLines(varname, sc, lines) == ScanAll(varname, sc, lines)
    decreases |lines|
  {
    if lines != [] {
      var line := lines[0];
      if !Contains(line, "[") {
        if BeginName(line).Some? {
          MarkerNeedsBracket(line, "BEGIN");
        }
        if HasEnd(line) {
          MarkerNeedsBracket(line, "END");
        }
      }
      FilterRedundant(varname, ProcessLine(varname, sc, line), lines[1..]);
    }
  }

  /** The parent -> children lists of one loaded text, keyed in order of first child. */
  function Discover(content: string, varname: string): (m: OMap<seq<string>>)
    ensures m.Valid()
  {
    ScanLines(varname, Scan([], Empty()), Lines(content)).blocks
  }

  // ---------------------------------------------------------------------
  // What the scan finds

  /** The name a line opens, if any. */
  function BeginOf(line: string): seq<string> {
    match BeginName(line)
    case Some(b) => [b]
    case None => []
  }

  /** The names the BEGIN lines open, in order. */
  function BeginNames(lines: seq<string>): seq<string>
    decreases |lines|
  {
    if lines == [] then [] else BeginOf(lines[0]) + BeginNames(lines[1..])
  }

  /** The children lists of `m` for the keys `ks`, concatenated. */
  function Children(m: OMap<seq<string>>, ks: seq<string>): seq<string>
    decreases |ks|
  {
    if ks == [] then [] else m.GetOr(ks[0], []) + Children(m, ks[1..])
  }

  /** Every child of the dictionary. */
  function AllChildren(m: OMap<seq<string>>): seq<string> {
    Children(m, m.keys)
  }

  lemma {:induction false} ChildrenSnoc(m: OMap<seq<string>>, ks: seq<string>, k: string)
    ensures Children(m, ks + [k]) == Children(m, ks) + m.GetOr(k, [])
    decreases |ks|
  {
    if ks == [] {
      assert [k][1..] == [];
    } else {
      assert (ks + [k])[1..] == ks[1..] + [k];
      ChildrenSnoc(m, ks[1..], k);
    }
  }

  /** Two dictionaries that agree on the listed keys have the same concatenation. */
  lemma {:induction false} ChildrenSame(m1: OMap<seq<string>>, m2: OMap<seq<string>>, ks: seq<string>)
    requires forall k :: k in ks ==> m1.GetOr(k, []) == m2.GetOr(k, [])
    ensures Children(m1, ks) == Children(m2, ks)
    decreases |ks|
  {
    if ks != [] {
      ChildrenSame(m1, m2, ks[1..]);
    }
  }

  /** Appending to the entry of a key listed once adds exactly that element. */
  lemma {:induction false} ChildrenAppend(m: OMap<seq<string>>, ks: seq<string>, k: string, b: string)
    requires NoDup(ks) && k in ks && k in m.vals
    ensures multiset(Children(OMap(m.keys, m.vals[k := m.vals[k] + [b]]), ks)) == multiset(Children(m, ks)) + multiset{b}
    decreases |ks|
  {
    var m' := OMap(m.keys, m.vals[k := m.vals[k] + [b]]);
    NoDupTail(ks);
    if ks[0] == k {
      ChildrenSame(m', m, ks[1..]);
      assert Children(m', ks) == m.vals[k] + [b] + Children(m, ks[1..]);
    } else {
      ChildrenAppend(m, ks[1..], k, b);
    }
  }

  /** Adding one child to a parent adds exactly that child to the whole. */
  lemma AddChild(m: OMap<seq<string>>, parent: string, b: string)
    requires m.Valid()
    ensures multiset(AllChildren(m.Put(parent, m.GetOr(parent, []) + [b]))) == multiset(AllChildren(m)) + multiset{b}
  {
    var m' := m.Put(parent, m.GetOr(parent, []) + [b]);
    if parent in m.vals {
      ChildrenAppend(m, m.keys, parent, b);
    } else {
      assert parent !in m.keys;
      ChildrenSnoc(m', m.keys, parent);
      ChildrenSame(m', m, m.keys);
    }
  }

  /** One line adds the name it opens, if any, to the children. */
  lemma LineChildren(varname: string, sc: Scan, line: string)
    requires sc.blocks.Valid()
    ensures multiset(AllChildren(ProcessLine(varname, sc, line).blocks)) == multiset(AllChildren(sc.blocks)) + multiset(BeginOf(line))
  {
    if BeginName(line).Some? {
      AddChild(sc.blocks, ParentOf(varname, sc.queue), BeginName(line).value);
    }
  }

  /** Every name a BEGIN line opens becomes the child of exactly one parent, once. */
  lemma {:induction false} ScanChildren(varname: string, sc: Scan, lines: seq<string>)
    requires sc.blocks.Valid()
    ensures multiset(AllChildren(ScanAll(varname, sc, lines).blocks)) == multiset(AllChildren(sc.blocks)) + multiset(BeginNames(lines))
    decreases |lines|
  {
    if lines != [] {
      var sc1 := ProcessLine(varname, sc, lines[0]);
      LineChildren(varname, sc, lines[0]);
      ScanChildren(varname, sc1, lines[1..]);
    }
  }

  /** The blocks of a text are exactly the names its BEGIN markers open, each listed once per marker. */
  lemma DiscoverChildren(content: string, varname: string)
    ensures multiset(AllChildren(Discover(content, varname))) == multiset(BeginNames(Lines(content)))
  {
    FilterRedundant(varname, Scan([], Empty()), Lines(content));
    ScanChildren(varname, Scan([], Empty()), Lines(content));
  }

  /** Every parent and every open block is the loaded variable or a name some BEGIN line opened. */
  predicate Within(sc: Scan, varname: string, names: seq<string>) {
    && (forall k :: k in sc.blocks.vals ==> k == varname || k in names)
    && (forall q :: q in sc.queue ==> q in names)
  }

  /** One line keeps every parent and open block among the names opened so far. */
  lemma LineParents(varname: string, sc: Scan, names: seq<string>, line: string)
    requires Within(sc, varname, names)
    ensures Within(ProcessLine(varname, sc, line), varname, names + BeginOf(line))
  {
    var r := ProcessLine(varname, sc, line);
    match BeginName(line)
    case Some(b) =>
      forall k | k in r.blocks.vals ensures k == varname || k in names + [b] {
        if k != ParentOf(varname, sc.queue) {
          assert k in sc.blocks.vals;
        }
      }
    case None =>
      forall q | q in r.queue ensures q in names {
        assert q in sc.queue;
      }
  }

  lemma {:induction false} ScanParents(varname: string, sc: Scan, names: seq<string>, lines: seq<string>)
    requires Within(sc, varname, names)
    ensures Within(ScanAll(varname, sc, lines), varname, names + BeginNames(lines))
    decreases |lines|
  {
    if lines != [] {
      var first := BeginOf(lines[0]);
      var sc1 := ProcessLine(varname, sc, lines[0]);
      LineParents(varname, sc, names, lines[0]);
      ScanParents(varname, sc1, names + first, lines[1..]);
      assert names + first + BeginNames(lines[1..]) == names + BeginNames(lines);
    }
  }

  /** The parents of a text are the loaded variable and blocks the text opens. */
  lemma DiscoverParents(content: string, varname: string, parent: string)
    requires parent in Discover(content, varname).vals
    ensures parent == varname || parent in BeginNames(Lines(content))
  {
    FilterRedundant(varname, Scan([], Empty()), Lines(content));
    ScanParents(varname, Scan([], Empty()), [], Lines(content));
    assert [] + BeginNames(Lines(content)) == BeginNames(Lines(content));
  }
}
