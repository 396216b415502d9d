# RichConsole in Dafny

A model of the core of RichConsole, a Python library for styled terminal text.

In RichConsole, a `RichStr` is a tree. Each node holds a list of children, which are plain strings or nested `RichStr`s, plus a `Sheet`. A sheet maps style-group names ("Back", "Fore", "Style", "Blink") to the style chosen in that group. A node's sheet need not name every group: a group it leaves out keeps the style chosen by the enclosing nodes, and at the root every group starts at its reset. Turning a tree into a terminal string takes three steps:

1. Flatten the tree depth first into sheets and texts (`dfs`, `sheetRepr`).
2. Replace each sheet with just the style changes needed since the last text (`optimizeSheetsToOpCodes`). At the end, return every group to its reset.
3. Write each style as its SGR control sequence: `ESC [ codes m`, with the codes joined by `;`.

The model is pure and functional:

- A sheet is a `map<string, Style>`.
- A tree is an inductive datatype, so it cannot hold a cycle.
- The Python generators become functions that return sequences.
- A style's object identity becomes a numeric `id` field, so two styles are the same object exactly when they are equal as values.

Modules, one file each:

| module | file | models |
|---|---|---|
| `Wrappers` | wrappers.dfy | `Option` and `Result` |
| `Styles` | styles.dfy | `Style`, `StyleGroup` and the built-in group registry built by `initGroups` |
| `ControlCodes` | controlcodes.dfy | `ControlCodes.__str__`, plus a parser for the SGR string it produces |
| `Sheets` | sheets.dfy | `Sheet`: its constructor, `diff`, `__sub__`, `__or__`/`__add__` |
| `RichText` | richtext.dfy | `RichStr`, `dfs`, `sheetRepr` |
| `Optimizer` | optimizer.dfy | `optimizeSheetsToOpCodes` and `optimizedOpcodeRepr` |
| `Rendering` | rendering.dfy | `RichStr.__str__` |
| `Builders` | builders.dfy | `RichStr.__add__`/`__radd__`, `Styler`, `interleavedChain`, `rsjoin` |
| `Naming` | naming.dfy | `under_score2camelCase` |
| `Scenarios` | scenarios.dfy | the reference case of `tests/tests.py` and a plain `rsjoin` |

The optimizer's output is judged against an independent reference, which has two parts:

- `Optimizer.Requested` pairs each text of the flat buffer with the sheet in force for it.
- `Optimizer.Displayed` replays the emitted style changes on a simulated terminal and pairs each text with the terminal state at that moment.

## Model

| member | source | states |
|---|---|---|
| Styles.BuiltinRegistryWellFormed | RichConsole.py:241-255 | The built-in registry has exactly the four groups Back, Fore, Style and Blink, with distinct names. Each group's reset belongs to that group and is one of its styles. |
| ControlCodes.Sgr | RichConsole.py:42-43 | The string for any code list, the empty one included, starts with ESC and `[` and ends with `m`. An independent SGR parser reads it back as exactly that list, so no information is lost in the rendering of a style. Each code is written in plain decimal with no leading zero. |
| Sheets.MakeSheet | RichConsole.py:300-310 | `Sheet(None)` maps every registered group to its reset and holds no other key. `Sheet(style)` maps only the style's group to that style. `Sheet(list)` keys each style by its group's name, holds only listed styles, and keeps the last listed style of each group. `Sheet(sheet)` and `Sheet(dict)` are copies of their argument. The result is well keyed (each style under its own group's name) unless it was copied from a dict that is not. |
| Sheets.ListSheet | RichConsole.py:308-309 | A sheet built from a list of styles keys every style by its group's name and holds only styles from the list. For every group, the style listed last wins. |
| Sheets.AllResetIsEmptyEffectively | RichConsole.py:300-303 | The all-reset sheet is effectively the same as the empty sheet, because every group reads as its reset in both. |
| Sheets.Merge | RichConsole.py:324-328 | The merge of `b` into `a` (`a + b`, the same as the or-operator) has the keys of both sheets. A key in `b` takes `b`'s style; any other key keeps `a`'s style. |
| Sheets.MergeEffective | RichConsole.py:324-328 | In the merge of `b` into `a`, each group reads as `b`'s style if `b` names the group, and otherwise as it reads in `a`. Merging two well-keyed sheets gives a well-keyed sheet. |
| Sheets.Diff | RichConsole.py:312-319 | A group is in the patch exactly when its effective style differs between the old and new sheet. It then carries the new style. The patch names no key outside the registry. |
| Sheets.Sub | RichConsole.py:321-322 | `a - b` holds exactly the groups whose effective style differs between `b` and `a`, and no key outside the registry. Merging it over `b` reproduces `a`. If `a` is well keyed, so is the result. |
| Sheets.MergeDiffReachesNew | RichConsole.py:312-328 | Merging the diff of two sheets over the old sheet gives a sheet that is effectively the new one. |
| Sheets.DiffOfEquivalentIsEmpty | RichConsole.py:312-319 | Two effectively equal sheets have an empty diff and emit no change. |
| Sheets.PatchOverOrdered | RichConsole.py:313-318 | The changes in a patch come in registry order, and no group appears twice. This is the order in which the diff's values are emitted. |
| Sheets.ReplayPatchReachesNew | RichConsole.py:312-319 | Applying the patch from `before` to `after` on a terminal that shows `before` leaves it showing `after`. |
| RichText.NewRichStr | RichConsole.py:376-379 | The node keeps its arguments, in order, as its children. A missing sheet becomes the empty sheet. |
| RichText.FlattenIsExpandedLeaves | RichConsole.py:393-402 | `dfs` from an inherited sheet yields, for each leaf string in left-to-right order, the inherited sheet merged with every enclosing node's sheet from the outermost in, and then the string. |
| RichText.SheetReprShape | RichConsole.py:404-409 | `sheetRepr` has length twice the number of leaves plus one. Even positions hold each leaf's cascaded sheet and odd positions hold its text. The last item is the all-reset sheet. |
| RichText.FlattenKeepsInherited | RichConsole.py:393-402 | A group that no node in a subtree sets keeps its inherited style in every sheet that `dfs` yields. |
| Optimizer.OptimizeFaithful | RichConsole.py:337-353 | The output equals the reference output `Expected` of the requested texts: before each text, the registry-ordered patch from the previous text's sheet to its own; after the last, the patch back to the empty sheet. Every style op names a registry group, and when the input's sheets are well keyed each style belongs to the group it is filed under. Replaying the emitted styles from the reset terminal shows each text, in order, with a sheet effectively equal to the one requested for it. The terminal ends back at all-reset. The output is minimal (`Minimal`): between two texts each group gets at most one style, and only when its displayed style changes; a style set and then reset before any text is ruled out. |
| Optimizer.MinimalIsNonRedundant | RichConsole.py:345-346 | A minimal output never emits a style that its group already shows, which is how `OptimizeFaithful` obtains `NonRedundant`. |
| Optimizer.OptimizePassesText | RichConsole.py:337-353 | The texts of the output are the texts of the input, in the same order. Sheets only ever turn into style ops. |
| Optimizer.OptimizeEndsWithResets | RichConsole.py:352-353 | The output is a body ending in a text (or empty), followed by the final reset patch. That patch holds exactly the resets of the groups the last text left away from reset. |
| Rendering.RenderStyleIsSgr | RichConsole.py:419-422 | Every style op is written as an SGR sequence that parses back to the style's codes, each code in plain decimal with no leading zero. |
| Rendering.RichStrRendersFaithfully | RichConsole.py:393-417 | For any `RichStr`, the optimized opcodes are exactly `Expected` of its leaves, each leaf in the sheet cascaded from the root down to it. Every style op names a registry group, and when every sheet of the tree is well keyed each style belongs to the group it is filed under. The opcodes display each leaf with the sheet cascaded from the root down to it. The terminal ends at all-reset, and the opcodes are minimal in the sense of `Minimal`. |
| Rendering.NeutralRendersPlain | RichConsole.py:419-422 | A tree whose every sheet keeps all groups at reset renders as its bare concatenated text, with no control codes. |
| Builders.AddConcatenates | RichConsole.py:381-385 | `a + b` and `b + a` flatten to the two operands' flat representations side by side, in operand order. Their texts concatenate in the same way. |
| Builders.NewStyler | RichConsole.py:428-433 | A styler built from a sheet keeps it. One built from a single style holds only that style under its group. One built from a list of styles keeps the last listed style of each group. One built from `None` holds the all-reset sheet: every registered group at its reset and no other key. |
| Builders.NoneStylerResets | RichConsole.py:428-435 | Under a styler built from `None`, every flattened sheet sets each group back to its reset, whatever the enclosing sheets chose, as long as no child sets that group itself. |
| Builders.StylerPaints | RichConsole.py:428-435 | Calling a styler made from a style yields a `RichStr` whose every flattened sheet carries that style. This holds as long as no child sets the style's group itself. |
| Builders.InterleavedChain | RichConsole.py:437-443 | With no items it fails (the `next` on an empty iterator). Otherwise it yields `2n-1` items: the items at even positions and the delimiter between each pair. |
| Builders.RsJoin | RichConsole.py:445-451 | A falsy delimiter keeps the items as the children. A truthy one interleaves them and fails on no items. The result carries the given sheet, or the empty sheet when none is given. |
| Builders.RsJoinText | RichConsole.py:445-451 | Joining plain strings with a plain delimiter gives a `RichStr` whose text is Python's `delim.join(strings)`. |
| Builders.RsJoinRendersLikeJoin | RichConsole.py:445-451 | Under no sheet, or a sheet that keeps every group at reset, the rendered join is exactly `delim.join(strings)`. |
| Naming.RxSplitRestores | RichConsole.py:197-200 | Splitting on `_(\w)` loses nothing: re-inserting `_` before every captured group gives back the input. |
| Naming.RxSplitCaptures | RichConsole.py:197-200 | Every captured token of the split is a single word character. |
| Naming.CamelCaseIsRewrite | RichConsole.py:197-207 | The split-and-alternate-case implementation equals a direct left-to-right scan. The scan lowers every character and upper-cases each word character that follows an underscore, dropping that underscore. |
| Naming.NoUnderscoreLowers | RichConsole.py:197-207 | A name without an underscore is simply lower-cased. |
| Naming.LightBlackEx | RichConsole.py:197-207 | The colorama name `LIGHTBLACK_EX` becomes `lightblackEx`. |
| Scenarios.NestedSheetRepr | tests/tests.py:25 | The flat representation of the reference tree `DDD [red: RRR [green: GGG] rrr] ddd` lists each text with its cascaded sheet and ends with the all-reset sheet. |
| Scenarios.NestedOpcodes | tests/tests.py:25-26 | The optimized opcodes of the reference tree are: DDD, Fore red, RRR, Back green, GGG, Back reset, rrr, Fore reset, ddd. |
| Scenarios.NestedRendersAsExpected | tests/tests.py:25-26 | `str` of the reference tree is `DDD ESC[31m RRR ESC[42m GGG ESC[49m rrr ESC[39m ddd`, the expected string of the reference case. |
| Scenarios.SetAndResetIsNotMinimal | RichConsole.py:341-350 | Emitting red for Fore and then Fore's reset before any text is not minimal. By `Optimizer.OptimizeFaithful`, the optimizer, which diffs only the sheets in force at texts, never emits such a pair. |
| Scenarios.RsJoinABC | RichConsole.py:445-451 | `rsjoin("-", ["a", "b", "c"])` renders as `a-b-c`. |

## Left out

- Palettes and colour subclasses are not modelled: `Color`, `BasicColor`, `IndexedColor` and `RGBColor`, and the imports from plumbum, colored and colorama in `initGroups`. They only add styles to the registry. The scenario's red and green stand in for the two colorama colours it uses.
- `mergeAdjacentOpCodes` is not modelled. It is switched off by the constant `mergeOpcodes = False`.
- The in-place mutators are not modelled: `__iadd__` of `ControlCodes`, `Style`, `Sheet` and `RichStr`, `Sheet.__ior__`, and `StyleGroup.addStyle`. The model has no mutable state.
- `ControlCodes.__add__` (RichConsole.py:47-48) is not modelled. Combining control-code objects is needed only by `mergeAdjacentOpCodes`, which is switched off.
- `Storage` is represented by Dafny maps. Its attribute access (`sheet.Fore = …`) is a map update.
- The global mutable registry `groups` is the constant `Styles.Groups`. `StyleGroup.addStyle` silently overwriting a same-named style in `stylesDict` is not modelled, because the registry is never extended.
- `__repr__` of every class, the neutral style, group, sheet and styler, and the `__main__` demo are not modelled. They are presentation or demonstration only.
- Style codes are natural numbers. No built-in or colorama style uses a negative code.
- Naming.LowerChar: `\w`, `str.lower` and `str.upper` are modelled for ASCII only. Python's Unicode word characters and case mappings are not.
- `StyleGroup.__init__`'s `TypeError` for a reset that is not a `Style` is not modelled. The type system rules it out.
- `testSideEffects` (tests/tests.py:33-44) holds trivially: every operation is a pure function, so the rendering of one tree cannot depend on others rendered before it.
- Optimizer.OptimizeFaithful: the simulated terminal files each emitted style under the registry group it was diffed for. A real terminal applies the style to the group the style itself belongs to. `KeyedOps` states that the two agree, and it is proved only when every sheet of the input is well keyed. `Sheets.MakeSheet` builds a well-keyed sheet from None, a style or a list, and from a dict only when the dict is itself well keyed. For a dict such as `{"Fore": green}` the display claims describe the diffed groups, not what a real terminal shows.
- Builders.Truthy: only a plain-text delimiter is modelled, and it is falsy exactly when empty. A `None` delimiter, also falsy in `rsjoin`, is not expressible.
- Builders.InterleavedChain: Python raises `StopIteration` inside a generator, which surfaces as a `RuntimeError`. The model returns a `Failure` instead.
- Only the text content of a `str` child is modelled. Python's `str(subStr)` of arbitrary non-`RichStr` objects is not.
