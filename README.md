# MiTemplate in Dafny

A model of the `MiTemplate` class: a PHP template engine that keeps everything
it knows in a few insertion-ordered arrays.

The template text holds three kinds of markup:
- references `{{name}}`, `{{name->path}}` and `{{name|modifier:arg|…}}`;
- blocks `[BEGIN b] … [END b]`, each optionally followed by a FINALLY text closed by `[FINALLY b]`;
- a root variable `.` that holds the main text.

On load, the engine does three things:
1. It records every reference it finds: the name, the property path and the modifier expression.
2. It discovers the block tree, line by line, with a stack of open blocks.
3. It cuts each block out of its parent's text, leaving the placeholder `{{b_value}}` behind. The block's body and its FINALLY text are stored apart.

At render time:
- `block(b)` substitutes the current values into `b`'s body and appends the result to the accumulator `b_value`. It also clears the accumulators of `b`'s children.
- `parse()` does two things before substituting into the root:
  - it renders the parents whose children were rendered;
  - it fills in the FINALLY text of blocks that were never rendered.

## How the model is laid out

The modules follow the layers of the class:

- `PhpArray`, `Text`, `Syntax`: the PHP building blocks, each stated over `seq<char>`:
  - `PhpArray` covers ordered arrays, where overwriting a key keeps its position, and `array_merge`;
  - `Text` covers `str_replace`, `explode`, `implode` and `strpos`;
  - `Syntax` covers exact-marker parsing of the block markers and references.
- `Store`: the `Doc` datatype is a snapshot of all eight fields. It holds the value-store operations.
- `Registration`, `Discovery`, `Modifiers`, `Substitution`, `Blocks`, `Render` and `Loading`: specification functions over `Doc` for each part of the engine, with the lemmas that state what the engine promises.
- `Template`: `class MiTemplate` holds the eight fields as mutable fields.
  - Each method that changes state has `modifies this` and ensures `Model() == Spec(old(Model()), …)`, where `Spec` is the matching function above.
  - Each method with a loop carries loop invariants that tie the remaining work to that function.
  - Read-only methods (`Get`, `ApplyModifiers`, `ApplyVariableModifiers`, `SubstituteVariables`) ensure that their result equals the specification function's.

Inputs the class takes from outside are parameters of the model:
- The template text is passed to the constructor, `AddFile` and `LoadFile` directly.
- The modifier functions are a registry, `(name, value, args) -> string`, held in a `const` field.
- The accurate-parsing flag is a `const` field.

Two behaviours of the code worth noting:
- `substituteVariables` replaces key by key in insertion order (`str_replace` with array arguments, line 544), not in one simultaneous pass. A value inserted for an earlier key is therefore rewritten by a later key; `Substitution.KeyByKey` shows this.
- A modifier name with no function behind it is a fatal error in the code. The model's registry is total.

## Model

| member | source | states |
|---|---|---|
| Template.MiTemplate.constructor | src/MiTemplate.php:91-95 | the new template's fields are the document obtained by loading the text into the root variable `.` |
| Template.MiTemplate.AddFile | src/MiTemplate.php:103-114 | loading into a name that is not declared reports an error and changes nothing; otherwise the new state is that of loading the text into that name |
| Loading.AddFile | src/MiTemplate.php:103-114 | an undeclared target name yields the error and the unchanged document; a declared one yields the document of `LoadText`, reporting nothing when the load completes, the duplicate message when a block is declared twice, and the fatal read when a parent holds no text |
| Loading.Report | src/MiTemplate.php:407-419 | a load reports something exactly when it did not complete |
| Loading.LoadDeclares | src/MiTemplate.php:185-188 | every name referenced in a loaded text is declared afterwards, so `variableExists` holds for it |
| Template.MiTemplate.Set | src/MiTemplate.php:124-152 | the new state and error equal `Store.Set` of the old state |
| Store.Set | src/MiTemplate.php:124-152 | setting an undeclared name reports `var … does not exist` and changes nothing; a declared name gets its value stored, with a list joined by `", "` |
| Store.SetThenGet | src/MiTemplate.php:124-177 | after `set` on a declared name, `get` returns the stringified value with no error |
| Store.StringifyList | src/MiTemplate.php:141-142 | a one-element list stores its element; a two-element list stores both joined by `", "` |
| Template.MiTemplate.Get | src/MiTemplate.php:159-177 | returns the stored value, or `""` with an error when the name has no value; the error is reported exactly when the value is missing |
| Store.Get | src/MiTemplate.php:159-177 | a stored value comes back with no error; a missing one gives `""` and the `does not exist` message |
| Store.GetAsWritten | src/MiTemplate.php:159-177 | as written, the value is returned when present and `""` otherwise, and the `does not exist` message is reported in both cases |
| Store.GetAsWrittenReportsPresent | src/MiTemplate.php:159-177 | as written, `get` of a name that holds `"1"` still reports that the name does not exist |
| Store.GetAgreesOnValue | src/MiTemplate.php:159-177 | the corrected `get` returns the same value as the code; the two report the same error exactly when the value is missing |
| Template.MiTemplate.LoadFile | src/MiTemplate.php:198-220 | the new state and outcome equal `Loading.LoadText` of the old state: the text is stored under the name, its blocks and references are identified, and its blocks are created |
| Loading.LoadRegisters | src/MiTemplate.php:198-220 | after loading, every reference in the text is registered |
| Loading.LoadRegistersBlocks | src/MiTemplate.php:198-220 | a load that completes keeps the block list duplicate-free and keeps the old blocks as a prefix; the new blocks are exactly the names of the text's BEGIN lines, as a multiset |
| Loading.LoadWithoutBlocks | src/MiTemplate.php:198-220 | a text without BEGIN lines adds no blocks and is stored verbatim under its name |
| Template.MiTemplate.IdentifyBlocksAndVars | src/MiTemplate.php:284-305 | the new state and the parent -> children map equal `Loading.IdentifyBlocksAndVars`: references are registered, then only lines containing `[` are scanned |
| Loading.IdentifyBlocksAndVars | src/MiTemplate.php:284-305 | every reference in the text ends up registered, and the children map is well-formed |
| Discovery.LinesJoin | src/MiTemplate.php:291-295 | the scanned lines join back to the text; a text without `\n` first has `]` replaced by `]\n` |
| Discovery.FilterRedundant | src/MiTemplate.php:297-302 | skipping lines without `[` gives the same scan as handing over every line |
| Discovery.DiscoverChildren | src/MiTemplate.php:284-336 | the children lists hold exactly the names of the BEGIN lines, as a multiset |
| Discovery.DiscoverParents | src/MiTemplate.php:284-336 | every parent key is the loaded variable or the name of some BEGIN line |
| Discovery.LineChildren | src/MiTemplate.php:315-336 | one line adds to the children lists exactly the BEGIN name it holds, if any |
| Discovery.AddChild | src/MiTemplate.php:323-328 | appending a child to a parent's list adds exactly that child to the multiset of all children |
| Template.MiTemplate.ProcessLineForBlocks | src/MiTemplate.php:315-336 | the new stack and children map equal `Discovery.ProcessLine`: BEGIN makes a child of the innermost open block or of the loaded variable and pushes it; otherwise END pops, and an empty stack stays empty |
| Template.MiTemplate.IdentifyVariables | src/MiTemplate.php:343-353 | the new state equals `Registration.IdentifyVariables`: each reference of the text is processed, leftmost first |
| Template.MiTemplate.ProcessVariableMatch | src/MiTemplate.php:360-393 | the new state equals `Registration.Register`, which appends the name, path and expression only when they are absent |
| Registration.Register | src/MiTemplate.php:360-393 | afterwards the reference is registered; `$vars` only grows at the end, by this name; an empty path or an empty expression leaves that array unchanged |
| Registration.RegisterPaths | src/MiTemplate.php:365-374 | a path already listed for the name leaves the paths unchanged; otherwise it is appended to the name's list |
| Registration.RegisterExprs | src/MiTemplate.php:377-387 | an expression already listed for `name.path` leaves the modifiers unchanged; otherwise it is appended to that key's list |
| Registration.RegisterDeduplicated | src/MiTemplate.php:360-393 | registration keeps `$vars`, every path list and every expression list free of duplicates |
| Registration.RegisterIdle | src/MiTemplate.php:360-393 | re-processing a reference that is already registered changes nothing |
| Registration.RegisterKeeps | src/MiTemplate.php:360-393 | registration never undoes an earlier registration |
| Registration.RegisterAllEstablishes | src/MiTemplate.php:343-393 | after processing a list of references, each of them is registered |
| Registration.RegisterAllIdempotent | src/MiTemplate.php:343-393 | processing the same references twice gives the state of processing them once |
| Template.MiTemplate.CreateBlocks | src/MiTemplate.php:402-420 | the new state and outcome equal `Blocks.CreateBlocks`: parents are merged first, then each child is registered and set up, stopping at the first duplicate |
| Blocks.CreateBlocks | src/MiTemplate.php:402-420 | the parent map becomes the `array_merge` of the old and the found map: new parents at the end, and a repeated parent's list replaced |
| Blocks.SetupAllBlocks | src/MiTemplate.php:402-420 | the block list stays duplicate-free; the blocks before the first duplicate are appended in order, and the duplicate and everything after it are not |
| Blocks.SetupAllGrows | src/MiTemplate.php:402-420 | creating blocks only appends to the block list |
| Blocks.MalformedStillRegistered | src/MiTemplate.php:408-416 | a new child is added to the block list even when its markers do not match |
| Template.MiTemplate.SetupChildren | src/MiTemplate.php:407-416 | setting up one parent's children equals `Blocks.SetupAll` over its (parent, child) pairs |
| Template.MiTemplate.SetupBlock | src/MiTemplate.php:428-461 | the new state and outcome equal `Blocks.SetupBlock` |
| Blocks.SetupBlock | src/MiTemplate.php:428-461 | a missing parent value is reported as fatal; markers that do not match are reported as malformed; in both cases nothing changes; only values and FINALLY texts ever change |
| Template.MiTemplate.Extract | src/MiTemplate.php:450-457 | the new state equals `Blocks.Extract` on the first match |
| Blocks.Extract | src/MiTemplate.php:450-457 | `b_value` becomes `""`, `b` its body, the parent's text has the span replaced by `{{b_value}}`, and the FINALLY text is stored only when present |
| Blocks.ExtractionResult | src/MiTemplate.php:446-457 | after a successful setup, `b_value` is `""`, `b` holds the body, and the parent's text keeps its prefix up to the block with `{{b_value}}` in its place |
| Blocks.ReplaceMatchesFront | src/MiTemplate.php:452 | replacing the block's span keeps the text before it and puts the placeholder at its start |
| Template.MiTemplate.SetParent | src/MiTemplate.php:469-472 | the new state equals `Render.SetParent` |
| Render.SetParent | src/MiTemplate.php:469-472 | `b` is appended to the parent's children and no other parent's list changes; a new parent key goes at the end; nothing but the parent map changes |
| Template.MiTemplate.SetValue | src/MiTemplate.php:482-485 | the new state equals `Store.SetValue` |
| Store.SetValue | src/MiTemplate.php:482-485 | only the `{{name}}` entry changes, and an existing key keeps its position |
| Store.GetVar | src/MiTemplate.php:493-496 | the text read is the one stored under `{{name}}`: writing it back leaves the document unchanged |
| Template.MiTemplate.GetVar | src/MiTemplate.php:493-496 | the text read equals `Store.GetVar` of the current state |
| Store.VariableExists | src/MiTemplate.php:185-188 | true exactly when the name is in the declared list |
| Template.MiTemplate.VariableExists | src/MiTemplate.php:185-188 | the answer equals `Store.VariableExists` of the current state |
| Store.SetValueThenGet | src/MiTemplate.php:482-496 | reading the name back gives the value just set; every other name reads as before |
| Template.MiTemplate.Clear | src/MiTemplate.php:503-506 | the new state equals `Store.Clear` |
| Store.Clear | src/MiTemplate.php:503-506 | the name's value becomes `""` and the key is kept; every other value is unchanged |
| Template.MiTemplate.ApplyModifiers | src/MiTemplate.php:517-531 | the result equals `Modifiers.ApplyModifiers` |
| Modifiers.NoModifiersIdentity | src/MiTemplate.php:517-531 | an expression without `\|` leaves the value unchanged |
| Modifiers.ModifiersOfJoin | src/MiTemplate.php:517-531 | for `name\|s1\|…\|sn`, the first segment is skipped and the segments are applied left to right |
| Modifiers.ChainConcat | src/MiTemplate.php:522-528 | applying two runs of segments in a row is applying the first run and feeding its output to the second |
| Template.MiTemplate.SubstituteVariables | src/MiTemplate.php:541-553 | the result equals `Substitution.Substitute` of the current state |
| Substitution.SubstituteNoBraces | src/MiTemplate.php:541-553 | a text without `{{` comes back unchanged |
| Substitution.KeyByKey | src/MiTemplate.php:544 | with `{{a}}` -> `{{b}}` stored before `{{b}}` -> x, substituting into `{{a}}` gives x: the keys are replaced one after another |
| Substitution.ReplaceKeysConcat | src/MiTemplate.php:544 | replacing by a sequence of keys is replacing by its first part and then by the rest |
| Template.MiTemplate.ApplyVariableModifiers | src/MiTemplate.php:561-584 | the result equals `Substitution.VariableModifiers` of the current state |
| Substitution.ModifyExprsSnoc | src/MiTemplate.php:566-580 | one more expression for a key: when the key names no property path and its variable is set, that expression's placeholder is replaced by the variable's modified value in the text so far; otherwise the text is left as it was |
| Substitution.SingleModifier | src/MiTemplate.php:561-584 | with one recorded expression `vk\|…` for a set variable `vk`, every occurrence of its placeholder becomes the modified value of `vk` |
| Template.MiTemplate.Block | src/MiTemplate.php:702-728 | the new state and error equal `Render.Block` |
| Render.Block | src/MiTemplate.php:702-728 | an unknown block reports an error and changes nothing; otherwise `b` is recorded as parsed, and the block, parent and FINALLY maps are unchanged |
| Render.BlockAppends | src/MiTemplate.php:702-728 | with append, `b_value` becomes its old value followed by `b`'s body with values substituted, after the children's FINALLY texts are processed |
| Render.BlockWithoutAppend | src/MiTemplate.php:716-719 | without append, `b_value` is left as it was |
| Render.BlockLeavesChildUnparsed | src/MiTemplate.php:702-753 | rendering `b` never records another unparsed block as parsed |
| Template.MiTemplate.ProcessChildFinallyBlocks | src/MiTemplate.php:735-753 | the new state equals `Render.ProcessChildFinally` |
| Template.MiTemplate.ChildFinallyStep | src/MiTemplate.php:742-751 | the new state equals one step of `Render.ChildStep` for one child |
| Render.ChildStep | src/MiTemplate.php:742-751 | a child with FINALLY text that is not parsed gets its accumulator set to that text substituted, and the parent `b` is recorded as parsed; any other child changes nothing |
| Render.ChildFinallyAt | src/MiTemplate.php:735-753 | the `i`-th child, when it has FINALLY text, is not parsed and is not listed again, ends with its accumulator holding that text substituted in the state the loop had reached |
| Render.ChildFinallyRecordsParent | src/MiTemplate.php:735-753 | the parsed list only ever gains the parent `b`, never a child |
| Render.ChildFinallyOther | src/MiTemplate.php:735-753 | a value that is no child's accumulator is unchanged |
| Template.MiTemplate.MarkBlockAsParsed | src/MiTemplate.php:760-765 | the new state equals `Render.MarkParsed` |
| Render.MarkParsed | src/MiTemplate.php:760-765 | `b` is in the parsed list afterwards; nothing else is added; the list only grows at the end and stays duplicate-free |
| Template.MiTemplate.ClearChildBlocks | src/MiTemplate.php:772-779 | the new state equals `Render.ClearChildren` |
| Render.ClearChildren | src/MiTemplate.php:772-779 | every direct child's accumulator exists and is `""`, and no key is removed |
| Render.ClearAllOther | src/MiTemplate.php:772-779 | a value that is no child's accumulator is unchanged |
| Template.MiTemplate.Parse | src/MiTemplate.php:786-799 | a text is returned exactly when `Render.Parse` gives one, and then the new state and text equal it |
| Render.Parse | src/MiTemplate.php:786-799 | the result holds no reference; only values and the parsed list change; the run fails when rendering the parents fails, and succeeds when they render and the root holds text |
| Render.ParsePlain | src/MiTemplate.php:786-799 | a root text without `{{` is returned unchanged |
| Template.MiTemplate.ParseParentBlocks | src/MiTemplate.php:804-822 | succeeds exactly when `Render.ParseParents` does, and the new state then equals it, walking the parents in reverse insertion order |
| Template.MiTemplate.RenderParent | src/MiTemplate.php:807-820 | handling one parent succeeds exactly when `Render.ParentChildren` over its children does, and then equals it |
| Template.MiTemplate.ParentStep | src/MiTemplate.php:808-819 | handling one child succeeds exactly when `Render.ParentStep` does, and then equals it |
| Render.ParentStep | src/MiTemplate.php:808-819 | a registered parent that is not parsed, with this child parsed, gets its accumulator set to its own text substituted and is recorded as parsed; when it holds no text that read is fatal; otherwise nothing changes |
| Render.ParseParentsSafe | src/MiTemplate.php:804-822 | with the text of every registered parent stored, no read fails |
| Render.ParseParentsIdle | src/MiTemplate.php:804-822 | before any block is parsed nothing is rendered and nothing is read |
| Render.ParseParentsKeepsParsed | src/MiTemplate.php:804-822 | a block that is already parsed keeps its accumulator |
| Render.Reverse | src/MiTemplate.php:806 | the parents are walked last-inserted first |
| Render.ParseParentsRecords | src/MiTemplate.php:804-822 | parents are only ever added to the parsed list, and only values change otherwise |
| Render.ParseParentsPropagates | src/MiTemplate.php:804-822 | a registered parent with a parsed child ends up parsed |
| Render.ParseParentsOther | src/MiTemplate.php:804-822 | a value that is no block's accumulator is unchanged |
| Template.MiTemplate.ProcessFinallyBlocks | src/MiTemplate.php:827-835 | the new state equals `Render.ProcessFinally` |
| Render.ProcessFinallyWrites | src/MiTemplate.php:827-835 | the `i`-th block with FINALLY text, when not parsed, ends with its accumulator holding that text substituted in the state the loop had reached |
| Render.ProcessFinallyKeepsParsed | src/MiTemplate.php:827-835 | a parsed block's accumulator is left as it was |
| Render.FinallyFoldPlain | src/MiTemplate.php:827-835 | an unparsed block whose FINALLY text has no `{{` gets exactly that text as its accumulator |
| Syntax.NameEndUnique | src/MiTemplate.php:81 | a valid name (word runs joined by single spaces) that stops at a position is the one the name scanner returns |
| Syntax.NameEndValid | src/MiTemplate.php:81 | what the name scanner spans is a valid name: word runs joined by single spaces |
| Syntax.RefAtPlain | src/MiTemplate.php:795-796 | a bare `{{name}}` is a reference with that name, no path and no modifiers, ending after its `}}` |
| Syntax.StripAroundRef | src/MiTemplate.php:795-798 | a pass over text whose only reference is one span keeps everything outside that span, in order |
| Syntax.MarkerNeedsBracket | src/MiTemplate.php:297-302 | a line with a BEGIN or END marker contains `[` |
| Syntax.FindLineMarkerLeftmost | src/MiTemplate.php:318-333 | no marker starts before the one found |
| Syntax.FindBlockMarker | src/MiTemplate.php:437-446 | the marker found is the leftmost at or after the start, and none is found only when there is none |
| Syntax.FirstMatch | src/MiTemplate.php:437-446 | a match has BEGIN at its start, no earlier BEGIN for the block, and an END closing the body |
| Syntax.Tokenize | src/MiTemplate.php:345-348 | every reference found names a valid variable |
| Syntax.StripReferences | src/MiTemplate.php:795-798 | one clean-up pass only removes text: the result is the input or strictly shorter |
| Syntax.StripWithoutBraces | src/MiTemplate.php:795-798 | the clean-up pass leaves a text without `{{` unchanged |
| Syntax.StripUnresolved | src/MiTemplate.php:795-798 | the clean-up pass removes an unresolved `{{name}}` in front of plain text |
| Syntax.StripLeavesNested | src/MiTemplate.php:795-798 | as written, one pass over `{{x{{a}}}}` leaves the reference `{{x}}` |
| Syntax.StripAll | src/MiTemplate.php:795-798 | the repeated clean-up leaves no reference anywhere in the text |
| Syntax.StripAllWithoutBraces | src/MiTemplate.php:795-798 | the repeated clean-up leaves a text without `{{` unchanged |
| Text.ExplodeImplodeRoundTrip | src/MiTemplate.php:291-297 | `implode(sep, explode(sep, s)) == s` |
| Text.SplitSingleIffAbsent | src/MiTemplate.php:291-292 | `explode` gives one piece exactly when the separator is absent |
| Text.ReplaceAllIsImplodeExplode | src/MiTemplate.php:544 | `str_replace` equals exploding on the key and imploding with the replacement |
| PhpArray.Put | src/MiTemplate.php:484 | writing a key changes only that key, and an existing key keeps its position |
| PhpArray.MergeEffect | src/MiTemplate.php:405 | `array_merge` keeps the left keys in order and appends the right's new keys; the right's values win |

## Left out

- File loading (`loadFile`'s file reading, `loadPhpFile`, `loadTemplateFile`, `isPhpFile`) is outside the model: the template text is a parameter.
- The comment-stripping regex of `loadTemplateFile` (line 263) is not part of this model.
- `echo` of error messages is not modelled; the error paths of `set`, `get`, `addFile` and `block` return an `Option<string>` message instead.
- Blocks.SetupAll: the `mal-formed block b` message `setupBlock` echoes (line 447) is not reported; `SetupBlock` returns the `Malformed` outcome and the loop goes on, as in the code.
- Template.MiTemplate.constructor: a Dafny constructor has no out-parameter, so the duplicate message (line 418) or fatal read of the first load is not returned; it is `Loading.New(accurate, content).1`.
- PHP's `in_array` compares loosely, so numeric strings such as `"01"` and `"1"` are the same name for `$vars` (line 390), `$blocks` (lines 409, 705, 809) and `$parsedBlocks` (lines 744, 762, 810, 830); the model compares names exactly.
- Minification and output (`enableMinify`, `optionMinify`, `show`) are a foreign library plus `echo`.
- Object handling by reflection (`processObjectProperties`, `getObjectPropertyValue`, `applyObjectPropertyModifiers`) is not modelled. With no objects, `processObjectProperties` is the identity, so `set` accepts only strings and arrays.
- Modifier functions are not modelled: `call_user_func_array` on a PHP name becomes a lookup in the registry parameter. An unknown name is fatal in PHP, but the registry is total.
- PCRE is replaced by exact-marker matching:
  - the whitespace absorption around block markers (lines 435-441) is not modelled;
  - accurate parsing is modelled only as `\r\n` -> `\n` normalisation before the same exact-marker match;
  - the final clean-up regex (lines 795-798) is modelled as removing well-formed unresolved references; `parse` repeats it until nothing changes (see Findings).
- `array_merge`'s renumbering of numeric keys is not modelled: every key is a string.
- `getVar` on a missing key is a PHP type error that ends the script. `parse` models it as a `None` result (its reads at lines 815 and 791), and a load as the `ParentMissing`/`Fatal` outcome, which stops block creation and which `addFile` reports. `block` takes it as a precondition (`Render.CanRender`).
- Template.MiTemplate.Get: models the corrected behaviour, which reports an error only when the value is missing (see Findings; the code as written is `Store.GetAsWritten`).

## Findings

| source | as written | input that shows it | evidently intended | confidence | as-written member | corrected member |
|---|---|---|---|---|---|---|
| src/MiTemplate.php:159-177 | `get` throws `var … does not exist` unconditionally after looking the value up, so the message is echoed even when the value exists | `set("x", "1")` on a declared `x`, then `get("x")`: returns `"1"` and reports that `x` does not exist | report the error only when there is neither a value nor an object | not executed | Store.GetAsWrittenReportsPresent | Store.Get |
| src/MiTemplate.php:795-798 | the clean-up `preg_replace` runs once, so removing an inner reference can join the text around it into a new reference | `parse` of a root text `{{x{{a}}}}` with neither `x` nor `a` set: the result is `{{x}}` | no unresolved reference survives `parse` | not executed | Syntax.StripLeavesNested | Syntax.StripAll |
