# Wave function collapse — a Dafny model

This project models the core of a small wave-function-collapse tile generator.

The engine keeps an *options grid*: one list of still-possible tile types per cell. It has five steps:

- `startCollapseGrid` gives every cell every tile type.
- `pickLowestEntropyUncollapsedLocation` picks the cell with the fewest options among those with more than one.
- `collapseGrid` fixes that cell to one randomly drawn option.
- `ripple` recomputes the options of the neighbouring cells from the adjacency rules. It walks outwards over the grid with a shared `closed` list of visited locations.
- `evaluateCellOptions` and `evaluateRuleInDirection` compute a cell's options from the rules.

A rule is a triple `[origin, target, direction]`. It says that `target` may sit in direction `direction` from a cell holding `origin`. The rule editors add rules, optionally together with their mirror image, and remove rules by index. The newer editor removes duplicates; the older one does not.

The model follows the code as written, including its quirks:

- `evaluateCellOptions` takes all four directional votes from the cell `getUpLocation` gives. That is the cell *above* the target, except on row 0: there the move up is clamped, so all four votes come from the target cell itself. In a one-row grid every recomputation reads only the cell's own options.
- `ripple` overwrites every neighbour whose recomputed options are non-empty, including cells that are already collapsed.
- `ripple` returns `undefined` after expanding a location, so `collapseGrid` reports failure after its first collapse. Its tail call is unreachable, and the model proves that.

Modules, one per source file:

- `GameUtils` (`game_utils.dfy`): the grid helpers the engine imports from the `functional-game-utils` package. That package is not part of this model. Its functions are written out as the engine uses them.
- `Utils` (`utils.dfy`): the clamped moves, the random pick and `mutateLocation`. The grid the engine mutates is the class `Grid`.
- `Rules` (`rules.dfy`): rule equality and de-duplication.
- `WaveFunctionCollapse` (`wave_function_collapse.dfy`): the engine.
  - Each imperative operation is a method proved equal to a specification function.
  - `ripple` is the method `Ripple` on a `Grid` and a `ClosedList` object. Its specification is the pair of mutually recursive functions `RippleSpec` and `RippleNeighbors`. They terminate because each expansion removes a location from the set of unvisited in-bounds locations.
- `Ramda` (`ramda.dfy`): ramda's `remove`, as the rule editors call it.
- `RuleEditor` (`rule_editor.dfy`) and `LegacyRuleEditor` (`legacy_rule_editor.dfy`): the list logic of the two rule editors.

Inputs outside the engine become parameters:

- `Math.random()` is a `UnitDraw`, a fraction in [0, 1).
- `intersectionMany` is a function-typed parameter. It is imported from `services/utils` but not defined there. Lemmas that need a fact about it assume only `IntersectionSound`: whatever it returns occurs in all four argument lists.
- `getOppositeDirection` is likewise imported but not defined, so it is the parameter `opposite`.

## Model

| member | source | states |
|---|---|---|
| `GameUtils.SetCell` | src/services/utils.js:14-16 | writing one cell keeps the grid's shape, stores the value at that location and leaves every other cell unchanged |
| `GameUtils.CrossNeighbors` | src/services/waveFunctionCollapse.js:138 | the cross neighbours of a location are exactly the in-bounds locations one step away horizontally or vertically, at most four, in row-major order |
| `GameUtils.RowMajorLocations` | src/services/waveFunctionCollapse.js:197 | `mapMatrix(...).flat()` lists exactly the in-bounds locations, row by row, each before the ones after it |
| `Utils.LeftLocation` | src/services/utils.js:22-27 | moving left keeps the row and decrements the column, clamped at column 0 |
| `Utils.RightLocation` | src/services/utils.js:29-34 | moving right keeps the row and increments the column, clamped at `width - 1` |
| `Utils.UpLocation` | src/services/utils.js:36-41 | moving up keeps the column and decrements the row, clamped at row 0 |
| `Utils.DownLocation` | src/services/utils.js:43-48 | moving down keeps the column and increments the row, clamped at `height - 1` |
| `Utils.MovesStayInBounds` | src/services/utils.js:22-48 | from an in-bounds location each move stays in bounds; it stays put exactly at the edge it moves towards, and otherwise reaches an adjacent cell |
| `Utils.ScaledIndex` | src/services/utils.js:19 | `floor(random * length)` is a valid index for a non-empty list |
| `Utils.PickRandomlyFromArray` | src/services/utils.js:18-20 | the pick is defined exactly when the list is non-empty, and it is then an element of the list |
| `Utils.Grid.MutateLocation` | src/services/utils.js:14-16 | the grid afterwards is the old grid with only that cell replaced |
| `Rules.AreRulesEqual` | src/services/rules.js:3-5 | two rules compare equal exactly when origin, target and direction all agree |
| `Rules.AreRulesEqualIsEquivalence` | src/services/rules.js:3-5 | rule comparison is reflexive, symmetric and transitive |
| `Rules.Deduped` | src/services/rules.js:7-20 | the de-duplicated list has no repeats, holds exactly the rules of the input, and is no longer than it |
| `Rules.RemoveDuplicateRules` | src/services/rules.js:7-20 | the `forEach`/`every` loop computes `Deduped` of its input |
| `Rules.DedupedIsFirstOccurrences` | src/services/rules.js:7-20 | de-duplication keeps exactly the first occurrence of each rule, in input order |
| `Rules.DedupedOfDuplicateFree` | src/services/rules.js:7-20 | a list without repeats comes back unchanged |
| `Rules.DedupedIdempotent` | src/services/rules.js:7-20 | de-duplicating twice is the same as de-duplicating once |
| `Rules.DedupedExtends` | src/services/rules.js:7-20 | appending rules to the input only appends to the output, and by at most as many rules as were appended |
| `Ramda.Remove` | src/components/rules/Rules.js:39 | `remove(start, count, list)` drops the entries from the splice start onwards, at most `count` of them and no further than the end; everything before and after is kept in order |
| `RuleEditor.NewRules` | src/components/rules/Rules.js:14-33 | `newRules` is the requested `[origin, target, direction]` rule, followed, exactly when `addSymmetricRule` is set, by the mirror `[target, origin, getOppositeDirection(direction)]`; nothing else (the earlier editor, src/components/Rules.js:14-33, builds the same list) |
| `RuleEditor.AddRule` | src/components/rules/Rules.js:13-36 | the new list has no repeats, contains the requested rule and, when symmetric, its mirror; it keeps every old rule and adds nothing else; a duplicate-free old list is a prefix of the new one, which grows by at most the number of new rules |
| `RuleEditor.AddPresentRuleIsNoOp` | src/components/rules/Rules.js:13-36 | adding rules that are all already present leaves a duplicate-free list unchanged |
| `RuleEditor.RemoveRule` | src/components/rules/Rules.js:38-40 | a valid index removes exactly that rule and keeps the others in order; an index past the end changes nothing |
| `LegacyRuleEditor.AddRule` | src/components/Rules.js:13-36 | the old rules are kept as a prefix, followed by the requested rule and, when symmetric, its mirror |
| `LegacyRuleEditor.AddPresentRuleDuplicates` | src/components/Rules.js:13-36 | adding a rule that is already present creates a repeat |
| `LegacyRuleEditor.RemoveRule` | src/components/Rules.js:38-40 | a valid index removes exactly that rule and keeps the others in order; an index past the end changes nothing |
| `WaveFunctionCollapse.DirectionalOptions` | src/services/waveFunctionCollapse.js:22-48 | the result of `evaluateRuleInDirection` is empty for an out-of-bounds origin, and otherwise holds exactly the tiles some rule in that direction leads to from one of the origin's options |
| `WaveFunctionCollapse.EvaluateRuleInDirection` | src/services/waveFunctionCollapse.js:22-48 | the nested loops over rules and origin options return the matching targets of an in-bounds origin, and nothing for an out-of-bounds one |
| `WaveFunctionCollapse.RuleContributionCount` | src/services/waveFunctionCollapse.js:33-44 | one rule adds as many copies of its target as the origin cell holds copies of the rule's origin, and none when it points elsewhere |
| `WaveFunctionCollapse.RuleContributionMembers` | src/services/waveFunctionCollapse.js:33-44 | one rule contributes a tile exactly when that tile is its target, it points in the asked direction and its origin is among the cell's options |
| `WaveFunctionCollapse.MatchingTargetsMembers` | src/services/waveFunctionCollapse.js:22-48 | a tile is a possible option exactly when some rule in that direction leads to it from one of the origin cell's options |
| `WaveFunctionCollapse.EvaluateCellOptionsReadsOnlyUpCell` | src/services/waveFunctionCollapse.js:50-74 | a cell's recomputed options depend only on the rules and on the cell `getUpLocation` gives: the cell above, or the cell itself on row 0 |
| `WaveFunctionCollapse.EvaluateCellOptionsTopRowReadsItself` | src/services/waveFunctionCollapse.js:50-74 | on row 0 the move up stays put, so a cell's recomputed options depend only on the rules and on its own options |
| `WaveFunctionCollapse.EvaluateCellOptions` | src/services/waveFunctionCollapse.js:50-74 | all four votes come from the cell `getUpLocation` gives (the cell above, or the cell itself on row 0); when that cell is out of bounds they are all empty; with an intersection that keeps only common tiles, a recomputed option requires that cell to be in bounds and, in each of the four directions, some rule leading to it from that cell |
| `WaveFunctionCollapse.DefaultOptions` | src/services/waveFunctionCollapse.js:77 | the starting grid has the input grid's shape and every tile type in every cell |
| `WaveFunctionCollapse.Entropy` | src/services/waveFunctionCollapse.js:192-194 | a cell's entropy is its number of options, repeats included; it is zero only for an empty cell, and at most one only for an empty or single-option cell |
| `WaveFunctionCollapse.UncollapsedLocations` | src/services/waveFunctionCollapse.js:198-200 | the filter keeps exactly the locations with more than one option; a row-major input gives a row-major result |
| `WaveFunctionCollapse.LowestEntropyIndex` | src/services/waveFunctionCollapse.js:206-215 | the head of the entropy sort has the least entropy, and every entry before it has strictly more |
| `WaveFunctionCollapse.EarliestOfLeastEntropy` | src/services/waveFunctionCollapse.js:206-215 | in a row-major list, the head of the stable sort comes first among the entries of least entropy |
| `WaveFunctionCollapse.PickLowestEntropyUncollapsedLocation` | src/services/waveFunctionCollapse.js:196-218 | finished exactly when no cell has more than one option; otherwise an in-bounds uncollapsed cell of least entropy, and the first such cell in row-major order |
| `WaveFunctionCollapse.RippleSpec` | src/services/waveFunctionCollapse.js:122-159 | a ripple keeps the grid's shape and only appends to `closed` |
| `WaveFunctionCollapse.RippleNeighbors` | src/services/waveFunctionCollapse.js:141-158 | processing the neighbours keeps the grid's shape and only appends to `closed` |
| `WaveFunctionCollapse.RippleSpecKeeps` | src/services/waveFunctionCollapse.js:122-159 | `closed` stays free of repeats and in bounds; an in-bounds location ends up closed; a cell changes only to a non-empty list and only once closed; `true` comes back exactly for an out-of-bounds or already closed location, and then nothing changes |
| `WaveFunctionCollapse.RippleNeighborsKeeps` | src/services/waveFunctionCollapse.js:141-158 | the `forEach` over neighbours keeps `closed` free of repeats and in bounds, and changes a cell only to a non-empty list and only once it is closed |
| `WaveFunctionCollapse.RippleClosedBound` | src/services/waveFunctionCollapse.js:122-137 | from an empty `closed`, a ripple expands each location at most once: `closed` never holds more entries than the grid has cells |
| `WaveFunctionCollapse.ClosedList.constructor` | src/services/waveFunctionCollapse.js:122 | `closed` starts empty |
| `WaveFunctionCollapse.ClosedList.Push` | src/services/waveFunctionCollapse.js:136 | `closed.push` appends the location |
| `WaveFunctionCollapse.Ripple` | src/services/waveFunctionCollapse.js:122-159 | the in-place ripple leaves the grid, `closed` and the return value exactly as `RippleSpec` describes |
| `WaveFunctionCollapse.RippleNeighborsInPlace` | src/services/waveFunctionCollapse.js:141-158 | the in-place `forEach` leaves the grid and `closed` exactly as `RippleNeighbors` describes |
| `WaveFunctionCollapse.CollapseSelected` | src/services/waveFunctionCollapse.js:169-180 | the selected cell becomes a single option drawn from its own options; every other cell is unchanged |
| `WaveFunctionCollapse.CollapseGrid` | src/services/waveFunctionCollapse.js:161-190 | success exactly when the selector is finished, with the grid untouched; otherwise failure, leaving the grid as the ripple from the collapsed cell left it |
| `WaveFunctionCollapse.CollapseStepKeepsOptions` | src/services/waveFunctionCollapse.js:169-184 | collapsing any uncollapsed cell and rippling from it never empties a cell that had options |
| `WaveFunctionCollapse.StartCollapseGrid` | src/services/waveFunctionCollapse.js:76-80 | the options grid is new and has the input's shape; success exactly when there are at most one tile type or no cells; otherwise the top-left cell is collapsed and rippled from |
| `WaveFunctionCollapse.StartSelectsTopLeft` | src/services/waveFunctionCollapse.js:76-80 | on the starting grid the selector is finished exactly when there are no cells or at most one tile type, and otherwise picks the top-left cell |

## Left out

- The React components (forms, lists, grid painter, tile editor) and `App.js`: they only render and hold state. Only the values `addRule` and `removeRule` pass to `setRules` are modelled.
- `console.log` calls: output only.
- `applyRules`: never called, and it reads an undefined `open`, so it cannot run.
- `intBetweenExclusive` and `pickRandomLocation`: the engine does not use them.
- `createRulesFromGrid`: its body is empty.
- `createRNG` (seeded random generator): not used by the engine. `Math.random()` is the parameter `draw`.
- `functional-game-utils` and ramda: they are not part of this model. Their functions are stated as the engine uses them in `GameUtils` and `Ramda`.
- `Utils.ScaledIndex`: `Math.random() * length` is computed exactly, as a fraction. Floating-point rounding is not modelled.
- `WaveFunctionCollapse.EvaluateCellOptions`: `intersectionMany` is a parameter. Only `IntersectionSound` is assumed about it, and only where a lemma needs it; duplicates and order in its result are not modelled.
- `RuleEditor.AddRule`: `getOppositeDirection` is a parameter. Nothing is assumed about the mirrored direction.
- `WaveFunctionCollapse.PickLowestEntropyUncollapsedLocation`: the in-place `sort` is represented by its first entry, the only one used. The rest of the sorted order is not computed. Array sorting is stable, so the first entry is the earliest location of least entropy.
- `Rules.Direction`: directions are four fixed values. The source's strings could hold any other value, which no rule would then match in the engine.
- Grids are assumed rectangular (every row as long as the first). Grid dimensions are taken from the options grid itself.
- `WaveFunctionCollapse.Ripple`: JavaScript's `closed = []` default argument is the caller's fresh `ClosedList`. The value returned by each `forEach` callback is discarded, as in the source.
