/**
  The template syntax the engine recognises with regular expressions, written
  as explicit scanners:
  - block markers `[BEGIN name]`, `[END name]`, `[FINALLY name]`;
  - variable references `{name->seg->seg|fn:arg|fn2}` and their rendered
    form with doubled braces.
  Names follow `[[:alnum:]_]+(?: [[:alnum:]_]+)*` in the C locale.
*/
module Syntax {
  import opened Wrappers
  import opened Text

  /** `[[:alnum:]_]` */
  predicate IsWordChar(c: char) {
    'a' <= c <= 'z' || 'A' <= c <= 'Z' || '0' <= c <= '9' || c == '_'
  }

  /** `\s`: space, tab, line feed, carriage return, vertical tab, form feed. */
  predicate IsSpace(c: char) {
    c == ' ' || c == '\t' || c == '\n' || c == '\r' || c == '\U{000B}' || c == '\U{000C}'
  }

  /** ASCII upper case, for the case-insensitive `/i` keyword match. */
  function Upper(c: char): char {
    if 'a' <= c <= 'z' then (c as int - 32) as char else c
  }

  /** A name: words of `[[:alnum:]_]` separated by single spaces. */
  predicate ValidName(n: string) {
    && |n| > 0
    && IsWordChar(n[0])
    && IsWordChar(n[|n| - 1])
    && (forall i :: 0 <= i < |n| ==> IsWordChar(n[i]) || n[i] == ' ')
    && (forall i :: 0 <= i < |n| - 1 ==> SpaceBeforeWord(n, i))
  }

  /** A space at `i` is followed by a word character. */
  predicate SpaceBeforeWord(n: string, i: nat)
    requires i < |n| - 1
  {
    n[i] == ' ' ==> IsWordChar(n[i + 1])
  }

  /** No name can be extended past index `k`: the next character neither continues a word nor starts `' ' word`. */
  predicate NameStopsAt(s: string, k: nat) {
    k <= |s| && (k == |s| || (!IsWordChar(s[k]) && !(s[k] == ' ' && k + 1 < |s| && IsWordChar(s[k + 1]))))
  }

  /** End of the run of word characters starting at `j`. */
  function WordEnd(s: string, j: nat): (k: nat)
    requires j <= |s|
    ensures j <= k <= |s|
    ensures forall t :: j <= t < k ==> IsWordChar(s[t])
    ensures k < |s| ==> !IsWordChar(s[k])
    decreases |s| - j
  {
    if j < |s| && IsWordChar(s[j]) then WordEnd(s, j + 1) else j
  }

  /** End of the longest name starting at `j`; `None` when `s[j]` cannot start one. */
  function NameEnd(s: string, j: nat): (r: Option<nat>)
    requires j <= |s|
    ensures r.None? <==> j == |s| || !IsWordChar(s[j])
    ensures r.Some? ==> j < r.value <= |s| && NameStopsAt(s, r.value)
    decreases |s| - j
  {
    var k := WordEnd(s, j);
    if k == j then None
    else if k + 1 < |s| && s[k] == ' ' && IsWordChar(s[k + 1]) then NameEnd(s, k + 1)
    else Some(k)
  }

  /** What `NameEnd` spans is a name. */
  lemma {:induction false} NameEndValid(s: string, j: nat)
    requires j <= |s|
    ensures NameEnd(s, j).Some? ==> ValidName(s[j..NameEnd(s, j).value])
    decreases |s| - j
  {
    var k := WordEnd(s, j);
    if k != j && k + 1 < |s| && s[k] == ' ' && IsWordChar(s[k + 1]) {
      NameEndValid(s, k + 1);
      ValidNameJoin(s, j, k, NameEnd(s, k + 1).value);
    } else if k != j {
      var n := s[j..k];
      assert forall i :: 0 <= i < |n| ==> n[i] == s[j + i];
    }
  }

  lemma ValidNameJoin(s: string, j: nat, k: nat, e: nat)
    requires j < k < e <= |s|
    requires forall t :: j <= t < k ==> IsWordChar(s[t])
    requires s[k] == ' '
    requires k + 1 < e && ValidName(s[k + 1..e])
    ensures ValidName(s[j..e])
  {
    var n := s[j..e];
    var tail := s[k + 1..e];
    forall i | 0 <= i < |n| ensures IsWordChar(n[i]) || n[i] == ' ' {
      if j + i > k {
        assert n[i] == tail[j + i - k - 1];
      }
    }
    forall i | 0 <= i < |n| - 1 ensures SpaceBeforeWord(n, i) {
      if j + i > k {
        assert SpaceBeforeWord(tail, j + i - k - 1);
        assert n[i] == tail[j + i - k - 1] && n[i + 1] == tail[j + i - k];
      } else if j + i == k {
        assert n[i + 1] == tail[0];
      } else {
        assert n[i] == s[j + i];
      }
    }
    assert n[|n| - 1] == tail[|tail| - 1];
  }

  /** A maximal name is the one `NameEnd` finds: regex backtracking cannot pick a shorter one. */
  lemma NameEndUnique(s: string, j: nat, a: nat)
    requires j < a <= |s| && ValidName(s[j..a]) && NameStopsAt(s, a)
    ensures NameEnd(s, j) == Some(a)
  {
    assert s[j..a][0] == s[j];
    var r := NameEnd(s, j).value;
    NameEndValid(s, j);
    if r < a {
      NoStopInside(s, j, a, r);
      assert false;
    } else if a < r {
      NoStopInside(s, j, r, a);
      assert false;
    }
  }

  /** A name cannot stop strictly inside a longer name. */
  lemma NoStopInside(s: string, j: nat, a: nat, x: nat)
    requires j < x < a <= |s| && ValidName(s[j..a])
    ensures !NameStopsAt(s, x)
  {
    var n := s[j..a];
    assert n[x - j] == s[x];
    if x + 1 < a {
      assert n[x - j + 1] == s[x + 1];
      assert SpaceBeforeWord(n, x - j);
    }
  }

  /** End of the run of `\s` characters starting at `j`. */
  function SpacesEnd(s: string, j: nat): (k: nat)
    requires j <= |s|
    ensures j <= k <= |s|
    ensures k < |s| ==> !IsSpace(s[k])
    decreases |s| - j
  {
    if j < |s| && IsSpace(s[j]) then SpacesEnd(s, j + 1) else j
  }

  /** The keyword `kw` at the start of `t`, compared case-insensitively when `fold`. */
  predicate KeywordIs(t: string, kw: string, fold: bool) {
    |t| == |kw| && forall x :: 0 <= x < |t| ==> if fold then Upper(t[x]) == Upper(kw[x]) else t[x] == kw[x]
  }

  /** `\[kw\s+` at `i`: the index just after the spaces. */
  function OpenerEnd(s: string, i: nat, kw: string, fold: bool): (r: Option<nat>)
    ensures r.Some? ==> i < |s| && s[i] == '[' && i + 1 + |kw| < r.value <= |s|
  {
    if i + 1 + |kw| < |s| && s[i] == '[' && KeywordIs(s[i + 1..i + 1 + |kw|], kw, fold) && IsSpace(s[i + 1 + |kw|])
    then Some(SpacesEnd(s, i + 1 + |kw|))
    else None
  }

  // ---------------------------------------------------------------------
  // Line markers, as block discovery reads them: `/\[KW\s+(name)\]/i`

  /** The name of a `[kw name]` marker starting at `i` (keyword case-insensitive). */
  function LineMarkerAt(s: string, i: nat, kw: string): (r: Option<string>)
    ensures r.Some? ==> i < |s| && s[i] == '[' && ValidName(r.value)
  {
    match OpenerEnd(s, i, kw, true)
    case None => None
    case Some(j) =>
      NameEndValid(s, j);
      match NameEnd(s, j)
      case None => None
      case Some(k) => if k < |s| && s[k] == ']' then Some(s[j..k]) else None
  }

  /** `preg_match`: the start of the leftmost `[kw name]` marker at or after `from`. */
  function FindLineMarker(s: string, kw: string, from: nat): (r: Option<nat>)
    requires from <= |s|
    ensures r.Some? ==> from <= r.value < |s| && LineMarkerAt(s, r.value, kw).Some?
    decreases |s| - from
  {
    if from == |s| then None
    else if LineMarkerAt(s, from, kw).Some? then Some(from)
    else FindLineMarker(s, kw, from + 1)
  }

  /**
    The marker `FindLineMarker` reports is the leftmost one: no index from
    `from` up to it (or up to the end, when it reports none) starts a marker.
  */
  lemma {:induction false} FindLineMarkerLeftmost(s: string, kw: string, from: nat, j: nat)
    requires from <= j < |s|
    requires var r := FindLineMarker(s, kw, from); r.Some? ==> j < r.value
    ensures LineMarkerAt(s, j, kw).None?
    decreases j - from
  {
    if j > from && LineMarkerAt(s, from, kw).None? {
      FindLineMarkerLeftmost(s, kw, from + 1, j);
    }
  }

  /** The name in the leftmost `[kw name]` marker of a line. */
  function MarkerName(line: string, kw: string): (r: Option<string>)
    ensures r.Some? ==> ValidName(r.value)
  {
    match FindLineMarker(line, kw, 0)
    case None => None
    case Some(i) => LineMarkerAt(line, i, kw)
  }

  /** The block a `[BEGIN name]` line opens. */
  function BeginName(line: string): Option<string> {
    MarkerName(line, "BEGIN")
  }

  /** The line holds an `[END name]` marker. */
  predicate HasEnd(line: string) {
    MarkerName(line, "END").Some?
  }

  /** A line with a marker contains `[`: the cheap `strpos` filter before the regexes drops no marker. */
  lemma MarkerNeedsBracket(line: string, kw: string)
    requires MarkerName(line, kw).Some?
    ensures Contains(line, "[")
  {
    var i := FindLineMarker(line, kw, 0).value;
    assert line[i..i + 1] == "[";
    OccursAtContains(line, i, "[");
  }

  // ---------------------------------------------------------------------
  // Block markers, as extraction reads them: `/\[KW\s+b\]/` (case-sensitive)

  /** A `[kw b]` marker for the given block at `i`: the index after its `]`. */
  function BlockMarkerAt(s: string, i: nat, kw: string, b: string): (r: Option<nat>)
    ensures r.Some? ==> i < r.value <= |s| && s[i] == '['
  {
    match OpenerEnd(s, i, kw, false)
    case None => None
    case Some(j) => if OccursAt(s, j, b + "]") then Some(j + |b| + 1) else None
  }

  /** The leftmost `[kw b]` marker at or after `from`: its start and end. */
  function FindBlockMarker(s: string, from: nat, kw: string, b: string): (r: Option<(nat, nat)>)
    requires from <= |s|
    ensures r.Some? ==> from <= r.value.0 < r.value.1 <= |s| && BlockMarkerAt(s, r.value.0, kw, b) == Some(r.value.1)
    ensures r.Some? ==> forall j :: from <= j < r.value.0 ==> BlockMarkerAt(s, j, kw, b).None?
    ensures r.None? ==> forall j :: from <= j < |s| ==> BlockMarkerAt(s, j, kw, b).None?
    decreases |s| - from
  {
    if from == |s| then None
    else
      match BlockMarkerAt(s, from, kw, b)
      case Some(e) => Some((from, e))
      case None => FindBlockMarker(s, from + 1, kw, b)
  }

  /**
    One match of `[BEGIN b]body[END b]` optionally followed by
    `finally[FINALLY b]`, by positions: the span is `start..end`, the body is
    `bodyStart..bodyEnd`, the finally text `afterEnd..finallyStart`.
  */
  datatype BlockMatch = BlockMatch(start: nat, bodyStart: nat, bodyEnd: nat, afterEnd: nat,
                                   finallyStart: Option<nat>, end: nat)

  /**
    `preg_match` of the extraction pattern: the leftmost `[BEGIN b]`, the
    first `[END b]` after it (lazy body), and, when there is one, the first
    `[FINALLY b]` after that (the optional group is tried first).
  */
  function FirstMatch(s: string, b: string): (r: Option<BlockMatch>)
    ensures r.Some? ==>
      var m := r.value;
      && m.start < m.bodyStart <= m.bodyEnd < m.afterEnd <= m.end <= |s|
      && BlockMarkerAt(s, m.start, "BEGIN", b) == Some(m.bodyStart)
      && (forall j :: 0 <= j < m.start ==> BlockMarkerAt(s, j, "BEGIN", b).None?)
      && BlockMarkerAt(s, m.bodyEnd, "END", b) == Some(m.afterEnd)
      && (forall j :: m.bodyStart <= j < m.bodyEnd ==> BlockMarkerAt(s, j, "END", b).None?)
      && (m.finallyStart.Some? ==>
            && m.afterEnd <= m.finallyStart.value
            && BlockMarkerAt(s, m.finallyStart.value, "FINALLY", b) == Some(m.end)
            && forall j :: m.afterEnd <= j < m.finallyStart.value ==> BlockMarkerAt(s, j, "FINALLY", b).None?)
      && (m.finallyStart.None? ==>
            && m.end == m.afterEnd
            && forall j :: m.afterEnd <= j < |s| ==> BlockMarkerAt(s, j, "FINALLY", b).None?)
    ensures r.None? ==>
      || (forall j :: 0 <= j < |s| ==> BlockMarkerAt(s, j, "BEGIN", b).None?)
      || (FindBlockMarker(s, 0, "BEGIN", b).Some? &&
          forall j :: FindBlockMarker(s, 0, "BEGIN", b).value.1 <= j < |s| ==> BlockMarkerAt(s, j, "END", b).None?)
  {
    match FindBlockMarker(s, 0, "BEGIN", b)
    case None => None
    case Some((s0, e0)) =>
      match FindBlockMarker(s, e0, "END", b)
      case None => None
      case Some((s1, e1)) =>
        match FindBlockMarker(s, e1, "FINALLY", b)
        case None => Some(BlockMatch(s0, e0, s1, e1, None, e1))
        case Some((s2, e2)) => Some(BlockMatch(s0, e0, s1, e1, Some(s2), e2))
  }

  /** The text between the BEGIN and END markers. */
  function Body(s: string, m: BlockMatch): string
    requires m.bodyStart <= m.bodyEnd <= |s|
  {
    s[m.bodyStart..m.bodyEnd]
  }

  /** The text between the END and FINALLY markers, when the FINALLY group matched. */
  function FinallyText(s: string, m: BlockMatch): Option<string>
    requires m.finallyStart.Some? ==> m.afterEnd <= m.finallyStart.value <= |s|
  {
    if m.finallyStart.Some? then Some(s[m.afterEnd..m.finallyStart.value]) else None
  }

  /** `preg_replace` of the extraction pattern: every match, left to right, becomes `ph`. */
  function ReplaceMatches(s: string, b: string, ph: string): string
    decreases |s|
  {
    match FirstMatch(s, b)
    case None => s
    case Some(m) => s[..m.start] + ph + ReplaceMatches(s[m.end..], b, ph)
  }

  // ---------------------------------------------------------------------
  // Variable references: `open name (->name)* ((\|.*?)*)? close`

  /** A reference as the scanner reports it: the name, the property path `->a->b` and the modifier chain `|f:x|g`. */
  datatype Ref = Ref(name: string, path: string, mods: string)

  /** End of the greedy `(->name)*` starting at `j`. */
  function PathEnd(s: string, j: nat): (k: nat)
    requires j <= |s|
    ensures j <= k <= |s|
    decreases |s| - j
  {
    if j + 2 <= |s| && s[j..j + 2] == "->" then
      match NameEnd(s, j + 2)
      case Some(e) => PathEnd(s, e)
      case None => j
    else j
  }

  /** The first `close` at or after `j`, unless a line break comes first (`.` does not match "\n"). */
  function CloseAfter(s: string, j: nat, close: string): (r: Option<nat>)
    ensures r.Some? ==> j <= r.value && OccursAt(s, r.value, close)
    decreases |s| - j
  {
    if j >= |s| then None
    else if OccursAt(s, j, close) then Some(j)
    else if s[j] == '\n' then None
    else CloseAfter(s, j + 1, close)
  }

  /** Where `((\|.*?)*)?close` finds its `close` when started at `j`. */
  function ModsEnd(s: string, j: nat, close: string): (r: Option<nat>)
    ensures r.Some? ==> j <= r.value && OccursAt(s, r.value, close)
  {
    if OccursAt(s, j, close) then Some(j)
    else if j < |s| && s[j] == '|' then CloseAfter(s, j + 1, close)
    else None
  }

  /** A reference delimited by `open`/`close` starting at `i`, and the index after it. */
  function RefAt(s: string, i: nat, open: string, close: string): (r: Option<(Ref, nat)>)
    requires |open| > 0
    ensures r.Some? ==> i < r.value.1 <= |s|
  {
    if !OccursAt(s, i, open) then None
    else
      var j := i + |open|;
      match NameEnd(s, j)
      case None => None
      case Some(k) =>
        var p := PathEnd(s, k);
        match ModsEnd(s, p, close)
        case None => None
        case Some(e) => Some((Ref(s[j..k], s[k..p], s[p..e]), e + |close|))
  }

  /** The name a reference carries is a name. */
  lemma RefAtValid(s: string, i: nat, open: string, close: string)
    requires |open| > 0
    ensures RefAt(s, i, open, close).Some? ==> ValidName(RefAt(s, i, open, close).value.0.name)
  {
    if OccursAt(s, i, open) {
      NameEndValid(s, i + |open|);
    }
  }

  /** `preg_match_all` of the reference pattern `{…}` from `from` on. */
  function Tokenize(s: string, from: nat): (refs: seq<Ref>)
    ensures forall r :: r in refs ==> ValidName(r.name)
    decreases |s| - from
  {
    if from >= |s| then []
    else
      RefAtValid(s, from, "{", "}");
      match RefAt(s, from, "{", "}")
      case Some((r, e)) => [r] + Tokenize(s, e)
      case None => Tokenize(s, from + 1)
  }

  /**
    The final clean-up `preg_replace` from index `i` on: the `{{…}}`
    references found scanning left to right are removed, and the scan goes on
    after each removed reference, over the original text.
  */
  function StripFrom(s: string, i: nat): (r: string)
    requires i <= |s|
    ensures |r| <= |s| - i
    ensures r == s[i..] || |r| < |s| - i
    decreases |s| - i
  {
    if i == |s| then ""
    else if OccursAt(s, i, "{{") && RefAt(s, i, "{{", "}}").Some? then
      StripFrom(s, RefAt(s, i, "{{", "}}").value.1)
    else
      assert s[i..] == [s[i]] + s[i + 1..];
      [s[i]] + StripFrom(s, i + 1)
  }

  /** The clean-up of `parse`, one pass: it only removes text. */
  function StripReferences(s: string): (r: string)
    ensures |r| <= |s|
    ensures r == s || |r| < |s|
  {
    StripFrom(s, 0)
  }

  /** No `{{…}}` reference starts anywhere in `s`. */
  predicate NoReferences(s: string) {
    forall j :: 0 <= j < |s| ==> RefAt(s, j, "{{", "}}").None?
  }

  /** A pass that removes nothing found no reference from `i` on. */
  lemma {:induction false} StripFixpointClean(s: string, i: nat)
    requires i <= |s| && StripFrom(s, i) == s[i..]
    ensures forall j :: i <= j < |s| ==> RefAt(s, j, "{{", "}}").None?
    decreases |s| - i
  {
    if i < |s| {
      assert RefAt(s, i, "{{", "}}").None?;
      assert s[i..] == [s[i]] + s[i + 1..];
      StripFixpointClean(s, i + 1);
    }
  }

  /** The clean-up repeated until a pass removes nothing: no reference is left. */
  function StripAll(s: string): (r: string)
    ensures NoReferences(r)
    decreases |s|
  {
    var t := StripReferences(s);
    if t == s then StripFixpointClean(s, 0); s else StripAll(t)
  }

  /** The pieces of a well-formed `{{name}}` at `i`. */
  lemma PlainRefParts(s: string, i: nat, n: string)
    requires ValidName(n) && i + |n| + 4 <= |s| && s[i..i + |n| + 4] == "{{" + n + "}}"
    ensures OccursAt(s, i, "{{") && s[i + 2..i + 2 + |n|] == n
    ensures OccursAt(s, i + 2 + |n|, "}}") && NameStopsAt(s, i + 2 + |n|)
  {
    var w := s[i..i + |n| + 4];
    var k := i + 2 + |n|;
    BracedParts(n);
    assert s[i..i + 2] == w[..2];
    forall t | 0 <= t < |n| ensures s[i + 2 + t] == n[t] {
      assert s[i + 2 + t] == w[2 + t] == w[2..2 + |n|][t];
    }
    assert s[i + 2..k] == n;
    assert s[k..k + 2] == w[2 + |n|..];
    assert s[k] == w[2 + |n|];
  }

  /** The three pieces of `{{name}}`. */
  lemma BracedParts(n: string)
    ensures var w := "{{" + n + "}}";
      w[..2] == "{{" && w[2..2 + |n|] == n && w[2 + |n|..] == "}}" && w[2 + |n|] == '}'
  {
    var w := "{{" + n + "}}";
    assert w == ("{{" + n) + "}}";
    assert w[..2 + |n|] == "{{" + n;
  }

  /** A well-formed `{{name}}` at `i` is the reference found there. */
  lemma RefAtPlain(s: string, i: nat, n: string)
    requires ValidName(n) && i + |n| + 4 <= |s| && s[i..i + |n| + 4] == "{{" + n + "}}"
    ensures RefAt(s, i, "{{", "}}") == Some((Ref(n, "", ""), i + |n| + 4))
  {
    PlainRefParts(s, i, n);
    RefAtBare(s, i, i + 2 + |n|);
  }

  /** `{{`, a maximal name ending at `k`, then `}}`: a reference without path or modifiers. */
  lemma RefAtBare(s: string, i: nat, k: nat)
    requires OccursAt(s, i, "{{") && i + 2 < k <= |s| && ValidName(s[i + 2..k])
    requires OccursAt(s, k, "}}") && NameStopsAt(s, k)
    ensures RefAt(s, i, "{{", "}}") == Some((Ref(s[i + 2..k], "", ""), k + 2))
  {
    NameEndUnique(s, i + 2, k);
    assert s[k..k + 2][0] == '}';
    NoPathAt(s, k);
    assert s[k..k] == "";
  }

  /** No `->` path starts at a character other than `-`. */
  lemma NoPathAt(s: string, k: nat)
    requires k < |s| && s[k] != '-'
    ensures PathEnd(s, k) == k
  {
    if k + 2 <= |s| {
      assert s[k..k + 2][0] == s[k];
    }
  }

  /** Where a reference starts, the clean-up pass drops it. */
  lemma StripFromDrops(s: string, i: nat)
    requires i < |s| && RefAt(s, i, "{{", "}}").Some?
    ensures StripFrom(s, i) == StripFrom(s, RefAt(s, i, "{{", "}}").value.1)
  {
  }

  /** Where no `{{` starts, the clean-up pass keeps the character. */
  lemma StripFromKeeps(s: string, i: nat)
    requires i < |s| && !OccursAt(s, i, "{{")
    ensures StripFrom(s, i) == [s[i]] + StripFrom(s, i + 1)
  {
  }

  /** Over a span where no `{{` starts, the clean-up pass keeps the text. */
  lemma {:induction false} StripFromSpan(s: string, i: nat, j: nat)
    requires i <= j <= |s| && forall t :: i <= t < j ==> !OccursAt(s, t, "{{")
    ensures StripFrom(s, i) == s[i..j] + StripFrom(s, j)
    decreases j - i
  {
    if i < j {
      StripFromSpan(s, i + 1, j);
      StripFromKeeps(s, i);
      ConsSlice(s, i, j, StripFrom(s, j));
    }
  }

  /** Putting back the first character of a slice. */
  lemma ConsSlice(s: string, i: nat, j: nat, rest: string)
    requires i < j <= |s|
    ensures [s[i]] + (s[i + 1..j] + rest) == s[i..j] + rest
  {
    assert s[i..j] == [s[i]] + s[i + 1..j];
  }

  /** The pieces of `{{x{{a}}}}` around the end of `x`. */
  lemma NestedParts(s: string, x: string, a: string)
    requires ValidName(x) && s == "{{" + x + "{{" + a + "}}" + "}}"
    ensures OccursAt(s, 0, "{{") && s[2..|x| + 2] == x
    ensures s[|x| + 2] == '{' && s[|x| + 3] == '{' && NameStopsAt(s, |x| + 2)
    ensures forall t :: 1 <= t < |x| + 2 ==> !OccursAt(s, t, "{{")
  {
    assert s[..2] == "{{" && s[2..|x| + 2] == x;
    forall t | 1 <= t < |x| + 2 ensures !OccursAt(s, t, "{{") {
      if t == 1 {
        assert s[t + 1] == x[0];
      } else {
        assert s[t] == x[t - 2];
        assert IsWordChar(x[t - 2]) || x[t - 2] == ' ';
      }
    }
  }

  /** `{{`, a maximal name, then `{`: no reference starts at `i`. */
  lemma RefAtOpenAfterName(s: string, i: nat, k: nat)
    requires OccursAt(s, i, "{{") && i + 2 < k < |s| && ValidName(s[i + 2..k])
    requires NameStopsAt(s, k) && s[k] == '{'
    ensures RefAt(s, i, "{{", "}}").None?
  {
    NameEndUnique(s, i + 2, k);
    NoPathAt(s, k);
  }

  /** In `{{x{{a}}}}` the outer `{{x` is not followed by the end of a reference. */
  lemma NestedOuterNoRef(s: string, x: string, a: string)
    requires ValidName(x) && s == "{{" + x + "{{" + a + "}}" + "}}"
    ensures RefAt(s, 0, "{{", "}}").None?
  {
    NestedParts(s, x, a);
    RefAtOpenAfterName(s, 0, |x| + 2);
  }

  /** Where no reference starts, the clean-up pass keeps the character. */
  lemma StripFromSkips(s: string, i: nat)
    requires i < |s| && RefAt(s, i, "{{", "}}").None?
    ensures StripFrom(s, i) == [s[i]] + StripFrom(s, i + 1)
  {
  }

  /**
    A pass over text whose only reference spans `k..m`, and where the first
    character starts none, keeps everything but that span.
  */
  lemma StripAroundRef(s: string, k: nat, m: nat)
    requires 1 <= k < m <= |s| && RefAt(s, 0, "{{", "}}").None?
    requires forall t :: 1 <= t < k ==> !OccursAt(s, t, "{{")
    requires RefAt(s, k, "{{", "}}").Some? && RefAt(s, k, "{{", "}}").value.1 == m
    requires forall t :: m <= t < |s| ==> !OccursAt(s, t, "{{")
    ensures StripFrom(s, 0) == s[..k] + s[m..]
  {
    StripFromSkips(s, 0);
    StripFromSpan(s, 1, k);
    StripFromDrops(s, k);
    StripFromSpan(s, m, |s|);
    JoinAround(s, k, m, StripFrom(s, |s|));
  }

  /** The sequence step of `StripAroundRef`. */
  lemma JoinAround(s: string, k: nat, m: nat, tail: string)
    requires 1 <= k <= m <= |s| && tail == ""
    ensures [s[0]] + (s[1..k] + (s[m..|s|] + tail)) == s[..k] + s[m..]
  {
    assert [s[0]] + s[1..k] == s[..k];
    assert s[m..|s|] == s[m..];
  }

  /** No `{{` starts in the trailing `}}` of `{{x{{a}}}}`. */
  lemma NestedTailNoOpen(s: string, m: nat)
    requires m + 2 == |s| && s[m..] == "}}"
    ensures forall t :: m <= t < |s| ==> !OccursAt(s, t, "{{")
  {
    assert s[m] == s[m..][0];
  }

  /** The clean-up pass over `{{x{{a}}}}` keeps `{{x` and the final `}}` and drops `{{a}}`. */
  lemma NestedPass(s: string, x: string, a: string)
    requires ValidName(x) && ValidName(a) && s == "{{" + x + "{{" + a + "}}" + "}}"
    ensures StripReferences(s) == s[..|x| + 2] + s[|x| + |a| + 6..]
  {
    var k := |x| + 2;
    var m := k + |a| + 4;
    assert s[k..m] == "{{" + a + "}}" && s[m..] == "}}";
    NestedParts(s, x, a);
    NestedOuterNoRef(s, x, a);
    RefAtPlain(s, k, a);
    NestedTailNoOpen(s, m);
    StripAroundRef(s, k, m);
  }

  /** What the pass over `{{x{{a}}}}` keeps, written out. */
  lemma NestedKept(s: string, x: string, a: string)
    requires s == "{{" + x + "{{" + a + "}}" + "}}"
    ensures s[..|x| + 2] + s[|x| + |a| + 6..] == "{{" + x + "}}"
  {
    assert s[..|x| + 2] == "{{" + x;
    assert s[|x| + |a| + 6..] == "}}";
  }

  /**
    A single pass can leave a reference behind: in `{{x{{a}}}}` with `x` and
    `a` unset, removing the inner reference joins `{{x` and `}}` into a new one.
  */
  lemma StripLeavesNested(x: string, a: string)
    requires ValidName(x) && ValidName(a)
    ensures StripReferences("{{" + x + "{{" + a + "}}" + "}}") == "{{" + x + "}}"
    ensures !NoReferences(StripReferences("{{" + x + "{{" + a + "}}" + "}}"))
  {
    NestedPass("{{" + x + "{{" + a + "}}" + "}}", x, a);
    NestedKept("{{" + x + "{{" + a + "}}" + "}}", x, a);
    PlainRefNotClean(x);
  }

  /** A bare `{{name}}` is a reference the clean-up would still remove. */
  lemma PlainRefNotClean(x: string)
    requires ValidName(x)
    ensures !NoReferences("{{" + x + "}}")
  {
    var r := "{{" + x + "}}";
    assert r[0..|x| + 4] == r;
    RefAtPlain(r, 0, x);
  }

  /** An occurrence at `j` is one at `j - i` in the suffix from `i`. */
  lemma OccursShift(s: string, i: nat, j: nat, p: string)
    requires i <= j && i <= |s|
    ensures OccursAt(s, j, p) ==> OccursAt(s[i..], j - i, p)
  {
    if j + |p| <= |s| {
      assert s[i..][j - i..j - i + |p|] == s[j..j + |p|];
    }
  }

  /** No `p` starts at any index of a text that does not contain `p`. */
  lemma {:induction false} AbsentNowhere(s: string, p: string, i: nat)
    requires !Contains(s, p)
    ensures !OccursAt(s, i, p)
    decreases i
  {
    if i > 0 && |s| > 0 {
      AbsentNowhere(s[1..], p, i - 1);
      OccursShift(s, 1, i, p);
    }
  }

  /** A suffix without `{{` is kept by the clean-up pass. */
  lemma StripFromPlain(s: string, i: nat)
    requires i <= |s| && !Contains(s[i..], "{{")
    ensures StripFrom(s, i) == s[i..]
  {
    NoOpenFrom(s, i);
    StripFromSpan(s, i, |s|);
    assert s[i..|s|] == s[i..];
  }

  /** A suffix without `{{` has no `{{` starting at any of its indices. */
  lemma NoOpenFrom(s: string, i: nat)
    requires i <= |s| && !Contains(s[i..], "{{")
    ensures forall j :: i <= j < |s| ==> !OccursAt(s, j, "{{")
  {
    forall j | i <= j < |s| ensures !OccursAt(s, j, "{{") {
      AbsentNowhere(s[i..], "{{", j - i);
      OccursShift(s, i, j, "{{");
    }
  }

  /** Text without `{{` survives the clean-up unchanged. */
  lemma StripWithoutBraces(s: string)
    requires !Contains(s, "{{")
    ensures StripReferences(s) == s
  {
    assert s[0..] == s;
    StripFromPlain(s, 0);
  }

  /** Text without `{{` survives the repeated clean-up unchanged. */
  lemma StripAllWithoutBraces(s: string)
    requires !Contains(s, "{{")
    ensures StripAll(s) == s
  {
    StripWithoutBraces(s);
  }

  /** An unresolved reference `{{name}}` in front of plain text is removed by the clean-up. */
  lemma StripUnresolved(n: string, rest: string)
    requires ValidName(n) && !Contains(rest, "{{")
    ensures StripReferences("{{" + n + "}}" + rest) == rest
  {
    var s := "{{" + n + "}}" + rest;
    var e := |n| + 4;
    assert s[0..e] == "{{" + n + "}}";
    RefAtPlain(s, 0, n);
    assert s[e..] == rest;
    StripFromPlain(s, e);
  }
}
