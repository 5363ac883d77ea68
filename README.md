# Cellular-Automata-Toolbox: a verified model of the simulation core

The toolbox runs three families of two-dimensional cellular automata on a
flat, row-major grid of integer states:

- **cyclic** automata, where a cell advances to the next state when enough
  neighbours already hold that state;
- **generation** automata, with dead, alive and decaying states;
- **life-like** automata, with binary birth and survival rules.

Each rule can be written as a short ASCII *rulestring* and read back.

This project models that core in Dafny:

- the grid, its two fill strategies and its two boundary samplers (`Grid`,
  `grid.dfy`);
- the neighbourhood kernels and neighbour counts (`Kernel`);
- the three update rules (`CyclicCa`, `GenerationCa`, `LifelikeCa`);
- the three rulestring codecs (`CyclicCaRulestring`, `GenerationCaRulestring`,
  `LifelikeCaRulestring`);
- the pattern-toggling helper (`Pattern`);
- the supporting pieces: `mod`/`clamp` (`Math`), the ASCII and hexadecimal
  predicates (`Ascii`), the hex-triplet colour codec (`Color`), the `{{name}}`
  message interpolator (`Interpolate`) and the family-name parser (`CaFamily`).

The ECMAScript built-ins the code relies on are written out in
`EcmaScript`:

- `trim`, `split` and `join`;
- `Number.prototype.toString(radix)`;
- `parseInt`, including its leading-whitespace, sign, `0x` and
  longest-digit-prefix rules.

The array helpers `unique`, `add`, `remove` and the `numericAscending` order
are in `Sequences`. `Wrappers` holds `Option` (a JavaScript `null`,
`undefined` or `NaN` is `None`), `Completion` (a thrown error is `Throw`) and
JavaScript truthiness.

Where the source changes state in place, so does the model. `Grid` is a class
whose `cells` buffer `Fill`, `FillByType` and the three update methods
reassign. The update methods run the source's nested loops:

- the outer loop over rows is in `Update*`;
- the inner loop over columns is in `Append*Row`;
- the per-cell body is in `Next*Cell`;
- the neighbour sums are in `SumNeighbors*`.

Each of these methods is proved against a pure reference function
(`CyclicNext`, `GenerationNext`, `LifelikeNext`, `CountMatches`). The
properties the source promises are then proved about those functions. The
codecs, which the source writes as expressions, are functions, and their
round trips are lemmas.

The samplers read the grid through a function `(x, y) -> Option<int>`, the
sample function of `getGridSampleFunction` bound to one grid. `null` out of
`sampleClosedBoundary` and an `undefined` read past the buffer are both
`None`. `getRandomInt` is an oracle parameter, `randomInt(min, max, position)`,
with one draw per filled position. It is only assumed to return a value in
`[min, max]`.

In several places the code does not do what one might expect of it; the model follows the code:

- **Rulestrings without a `/`.** One might expect a malformed rulestring
  such as `"abc"` to give a null result for every family without throwing.
  In the code:
  - a single part makes `Array.from(undefined)` throw in the generation and
    life-like parsers;
  - fewer than three parts make `undefined.startsWith` throw in the cyclic
    parser.

  The model returns `Throw` in exactly these cases.
- **Closed sampling.** One might expect the closed sampler to check both
  coordinates against the grid's bounds. The code checks only the linear index
  `width * y + x`, so a read off the left edge returns the last cell of the
  row above.
- **Matching a count.** One might expect a cell to be born or to survive
  whenever the count is in the pattern. The code tests the element `find`
  returns, so a listed count of 0 never matches.
- **Life-like sums.** One might expect the life-like update to count live
  neighbours. The code sums neighbour *values* (`null` is 0) instead. The two agree only on a 0/1 grid.
- **Fills and boundaries.** A mirror-wrap boundary and splat fills are
  referred to elsewhere in the toolbox but are not in the grid code. Only `Closed`/`Toroidal`
  and `UniformRandom`/`UniformRandomBinary` are modelled.

## Model

| member | source | states |
|---|---|---|
| Grid.Grid.constructor | Source/Grid.ts:61-65 | a grid holds exactly the given cells, dimension and state count |
| Grid.Fill | Source/Grid.ts:35-43 | after `fill`, the cell at row-major index `width * y + x` holds the fill value of `(x, y)` for every position of the grid; dimension and state count are untouched |
| Grid.FilledAt | Source/Grid.ts:37-40 | the index of `(x, y)` lies inside the filled buffer and holds `fillFunction((x, y))` |
| Grid.RowMajor | Source/Grid.ts:39 | index `width * y + x` with `0 <= x < width` decodes back to the position `(x, y)`: each cell is visited once |
| Grid.FillByType | Source/Grid.ts:45-55 | UniformRandom fills each cell with a draw in `[0, stateCount - 1]` and UniformRandomBinary with a draw in `[0, 1]` |
| Grid.CreateGrid | Source/Grid.ts:57-70 | a fresh grid with the requested dimension and state count, filled by the effective fill type, with one cell per position |
| Grid.InitialCellsInRange | Source/Grid.ts:45-70 | a new grid has `width * height` cells, each in `[0, stateCount)` for UniformRandom and in `[0, 1]` for UniformRandomBinary |
| Grid.DefaultFillIsUniformRandom | Source/Grid.ts:59 | an omitted fill type fills the grid exactly as UniformRandom does |
| Grid.SampleClosedSpec | Source/Grid.ts:72-79 | closed sampling is null exactly when `width * y + x` is outside `[0, width * height)`, and otherwise it is the cell at that index |
| Grid.ClosedBleedsIntoPreviousRow | Source/Grid.ts:74-76 | `(-1, y)` is not null: it is the last cell of row `y - 1` |
| Grid.ClosedNullOutsideRows | Source/Grid.ts:74-78 | a column inside the grid on a row above or below it samples as null |
| Grid.ToroidalIndex | Source/Grid.ts:83-85 | the wrapped index always lies inside the buffer |
| Grid.SampleToroidalSpec | Source/Grid.ts:81-87 | toroidal sampling of a non-empty grid is never null and reads `cells[width * mod(y, height) + mod(x, width)]` |
| Grid.ToroidalShift | Source/Grid.ts:81-87 | toroidal sampling is unchanged when `x` is shifted by any multiple of the width and `y` by any multiple of the height, negative multiples included |
| Grid.Sampler | Source/Grid.ts:89-98 | `getGridSampleFunction` gives the closed sampler for Closed and the toroidal sampler for Toroidal |
| Grid.SampleInside | Source/Grid.ts:72-87 | inside the grid, both samplers read the cell at `width * y + x` |
| Grid.SampleInCells | Source/Grid.ts:72-87 | a sample that is not null is one of the grid's cells |
| Math.JsRem | Source/Math.ts:20 | JavaScript `%` truncates: the remainder has the sign of the dividend and is smaller than the divisor in magnitude |
| Math.Mod | Source/Math.ts:19-21 | for `m > 0`, `mod(n, m)` lies in `[0, m)`, negative `n` included |
| Math.ModIsEuclidean | Source/Math.ts:19-21 | for `m > 0`, `mod` is the Euclidean remainder |
| Math.ModShift | Source/Math.ts:19-21 | `mod(n + k * m, m) == mod(n, m)` for every integer `k` |
| Math.ModExamples | Source/Math.ts:19-21 | `mod` leaves `[0, m)` alone and maps -1 to `m - 1` |
| Math.Clamp | Source/Math.ts:1-3 | when `min <= max`, the result is in `[min, max]`: `x` itself when inside, else the nearer bound |
| Kernel.MooreOffsetsMembers | Source/CyclicCa.ts:92-104 | the Moore loops visit exactly the offsets of `[-r, r]²` other than `(0, 0)` |
| Kernel.MooreOffsetsDistinct | Source/CyclicCa.ts:92-104 | no Moore offset is visited twice |
| Kernel.MooreOffsetsLength | Source/CyclicCa.ts:92-104 | the Moore loops visit `(2r + 1)² - 1` offsets, none for a negative range |
| Kernel.VonNeumannOffsetsMembers | Source/CyclicCa.ts:130-152 | the top rows, the middle row without the centre and the bottom rows visit exactly the offsets with `0 < abs(kx) + abs(ky) <= r` |
| Kernel.VonNeumannOffsetsDistinct | Source/CyclicCa.ts:130-152 | no von Neumann offset is visited twice |
| Kernel.VonNeumannOffsetsLength | Source/CyclicCa.ts:130-152 | the von Neumann loops take `2r(r + 1)` samples |
| Kernel.TopRowsMembers | Source/CyclicCa.ts:131-136 | the first loop visits the rows above the centre, each as wide as its distance from the top vertex allows |
| Kernel.BottomRowsMembers | Source/CyclicCa.ts:147-152 | the last loop visits the rows below the centre, narrowing towards the bottom vertex |
| Kernel.MiddleRowMembers | Source/CyclicCa.ts:139-144 | the middle loops visit the centre row from `-r` to `r` without the centre |
| Kernel.CountAtMost | Source/CyclicCa.ts:107-108 | a neighbour count never exceeds the number of offsets sampled |
| Kernel.CountAppend | Source/CyclicCa.ts:91-110 | counting over consecutive loops adds their counts |
| Kernel.Neighbors8IsMooreOne | Source/GenerationCa.ts:56-63 | the eight samples of the generation and life-like updates are the Moore offsets of range 1 |
| Kernel.CountNeighbors8 | Source/GenerationCa.ts:56-63 | the count over the eight neighbours is the sum of eight one-or-zero hits, in the source's order |
| CyclicCa.SumMooreRow | Source/CyclicCa.ts:97-109 | the inner Moore loop adds the number of matching samples in one kernel row, skipping the centre |
| CyclicCa.SumNeighborsMoore | Source/CyclicCa.ts:84-112 | `sumNeighborsMoore` counts the Moore offsets whose sample equals `nextState`; a null sample never counts |
| CyclicCa.AddSampleRow | Source/CyclicCa.ts:123-128 | a run of `addSample` calls along one row adds the number of matching samples in that row |
| CyclicCa.SumTopRows | Source/CyclicCa.ts:131-136 | the top-half loop adds the count over the top rows of the diamond |
| CyclicCa.SumBottomRows | Source/CyclicCa.ts:147-152 | the bottom-half loop adds the count over the bottom rows of the diamond |
| CyclicCa.SumNeighborsVonNeumann | Source/CyclicCa.ts:114-155 | `sumNeighborsVonNeumann` counts the diamond's offsets whose sample equals `nextState` |
| CyclicCa.SumNeighbors | Source/CyclicCa.ts:157-164 | the summation function of the rule's neighbourhood counts matches over that neighbourhood's kernel, and the sum is between 0 and the kernel's size |
| CyclicCa.CyclicNext | Source/CyclicCa.ts:185-201 | the next buffer has one cell per old cell |
| CyclicCa.CyclicNextAt | Source/CyclicCa.ts:189-198 | the new cell at `(x, y)` depends only on its old state and the old grid's samples around it |
| CyclicCa.NextCell | Source/CyclicCa.ts:191-198 | one loop body computes exactly the new cell at its index |
| CyclicCa.AppendCyclicRow | Source/CyclicCa.ts:190-199 | after the inner loop over a row, the new buffer is the next grid up to the end of that row |
| CyclicCa.UpdateCyclicCa | Source/CyclicCa.ts:180-202 | the grid's cells become the next grid computed from the old cells alone, with the same dimension and state count, and stay `width * height` long |
| CyclicCa.CyclicCellAdvances | Source/CyclicCa.ts:193-198 | a cell is either its old state or `(state + 1) % stateCount`, and it advances exactly when the count is at least the threshold |
| CyclicCa.NextStateInRange | Source/CyclicCa.ts:193 | the candidate state of a state in `[0, stateCount)` is in range: the next one, or 0 after the last |
| CyclicCa.CyclicNextInRange | Source/CyclicCa.ts:185-201 | states in `[0, stateCount)` stay in range and the buffer keeps its length |
| CyclicCa.ParseNeighborhood | Source/CyclicCa.ts:170-178 | VonNeumann exactly for `"VonNeumann"`, Moore for every other string |
| CyclicCa.ParseNeighborhoodName | Source/CyclicCa.ts:12-15 | each neighbourhood's string value parses back to it |
| CyclicCa.CopyCyclicCaRule | Source/CyclicCa.ts:166-168 | the copy has the same four field values |
| GenerationCa.AliveSumRange | Source/GenerationCa.ts:46-63 | the sum is the number of the eight neighbours whose sample is exactly 1, so it is between 0 and 8 |
| GenerationCa.SumAlive | Source/GenerationCa.ts:55-63 | the eight `sampleAlive` additions compute that sum |
| GenerationCa.GenerationCellCases | Source/GenerationCa.ts:64-70 | 0 becomes 1 exactly when the count is a listed nonzero birth count, else 0; 1 stays 1 exactly when the count is a listed nonzero survival count, else 2; a state of 2 or more becomes `(state + 1) % stateCount` whatever the neighbours |
| GenerationCa.LonelyCell | Source/GenerationCa.ts:64-67 | with no live neighbours a dead cell stays dead and a live one starts to decay, even when 0 is listed in a pattern |
| GenerationCa.GenerationCellInRange | Source/GenerationCa.ts:64-70 | with at least three states, a state in range stays in range |
| GenerationCa.TwoStatesLeaveRange | Source/GenerationCa.ts:67 | with two states, a live cell that does not survive becomes 2, outside the state range |
| GenerationCa.GenerationNext | Source/GenerationCa.ts:44-73 | the next buffer has one cell per old cell |
| GenerationCa.GenerationNextAt | Source/GenerationCa.ts:51-71 | the new cell at `(x, y)` is the transition of its old state under the old grid's live-neighbour count |
| GenerationCa.GenerationNextInRange | Source/GenerationCa.ts:43-74 | with at least three states, a grid of in-range states steps to one, of the same length |
| GenerationCa.NextGenerationCell | Source/GenerationCa.ts:53-70 | one loop body computes exactly the new cell at its index |
| GenerationCa.AppendGenerationRow | Source/GenerationCa.ts:52-71 | after the inner loop over a row, the new buffer is the next grid up to the end of that row |
| GenerationCa.UpdateGenerationCa | Source/GenerationCa.ts:43-74 | the grid's cells become the next grid computed from the old cells alone; dimension and state count are unchanged and the length stays `width * height` |
| LifelikeCa.ValueSumNeighbors8 | Source/LifelikeCa.ts:39-47 | the sum is the eight neighbour samples added up, in the source's order, a null sample counting 0 |
| LifelikeCa.ValueSumOfBinary | Source/LifelikeCa.ts:30-33 | where every sample is null, 0 or 1, the sum of values is the number of live samples |
| LifelikeCa.LiveNeighbourSum | Source/LifelikeCa.ts:30-47 | on a 0/1 grid the sum is the live-neighbour count, between 0 and 8 |
| LifelikeCa.LifelikeCellCases | Source/LifelikeCa.ts:48-49 | every new cell is 0 or 1; a centre above 0 lives exactly when the sum is a listed nonzero survival count, any other centre exactly when it is a listed nonzero birth count |
| LifelikeCa.GameOfLifeStep | Source/LifelikeCa.ts:15-20 | under the Game of Life's rule a 0/1 cell is alive next exactly with three neighbours, or with two if already alive |
| LifelikeCa.LifelikeNext | Source/LifelikeCa.ts:34-52 | the next buffer has one cell per old cell |
| LifelikeCa.LifelikeNextAt | Source/LifelikeCa.ts:35-50 | the new cell at `(x, y)` is the rule applied to its old value and the old grid's neighbour sum |
| LifelikeCa.LifelikeNextBinary | Source/LifelikeCa.ts:34-52 | whatever the old states, the next grid is all 0s and 1s and keeps its length |
| LifelikeCa.SumNeighbourValues | Source/LifelikeCa.ts:39-47 | the eight `sample` additions compute the neighbour sum |
| LifelikeCa.NextLifelikeCell | Source/LifelikeCa.ts:37-49 | one loop body computes exactly the new cell at its index |
| LifelikeCa.AppendLifelikeRow | Source/LifelikeCa.ts:36-50 | after the inner loop over a row, the new buffer is the next grid up to the end of that row |
| LifelikeCa.UpdateLifelikeCa | Source/LifelikeCa.ts:27-53 | the grid's cells become the next grid computed from the old cells alone; dimension and state count are unchanged and the length stays `width * height` |
| Pattern.FindIndex | Source/Pattern.ts:4 | `findIndex` gives the first index whose element satisfies the test, or -1 exactly when none does |
| Pattern.IndexOf | Source/Pattern.ts:17 | `indexOf` gives the first index holding the value, or -1 exactly when it is absent |
| Pattern.MatchPattern | Source/GenerationCa.ts:39-41 | `find` yields the value exactly when it is listed, and undefined otherwise |
| Pattern.Matches | Source/LifelikeCa.ts:23-25 | the truthiness test on `matchPattern` holds exactly for a listed, nonzero count |
| Pattern.AddAscendingOrder | Source/Pattern.ts:3-10 | the value is added once and nothing else changes; an ascending list stays ascending, and a strictly ascending list without the value stays strictly ascending |
| Pattern.InsertKeepsOrder | Source/Pattern.ts:4-8 | inserting before the first larger element, or at the end, keeps the order |
| Pattern.RemoveKeepsOrder | Source/Pattern.ts:27-28 | removing one index keeps the other elements in their order, so sortedness survives |
| Pattern.UpdatePattern | Source/Pattern.ts:12-31 | if the value's membership already matches the checkbox, the pattern is returned as it is; otherwise exactly that value is added or one occurrence of it is removed; on an ascending pattern the order is kept |
| Pattern.UpdatePatternMembership | Source/Pattern.ts:12-31 | on a list without repeats, the value is listed afterwards exactly when the box is checked, and the list still has no repeats |
| Pattern.UpdatePatternIdempotent | Source/Pattern.ts:12-31 | toggling twice to the same state equals toggling once |
| Sequences.Unique | Source/GenerationCaRulestring.ts:7 | `unique` keeps each element once and keeps every element |
| Sequences.Add | Source/Pattern.ts:8 | `add` inserts the value at the index and shifts the rest one place right |
| Sequences.Remove | Source/Pattern.ts:28 | `remove` deletes the element at the index and shifts the rest one place left |
| Sequences.SortAscending | Source/GenerationCaRulestring.ts:11 | `sort(numericAscending)` gives an ascending permutation |
| Sequences.SortedUnique | Source/GenerationCaRulestring.ts:11 | two ascending permutations of each other are equal, so the sort is determined by its input's elements |
| Sequences.SameMembersStrictlyAscending | Source/GenerationCaRulestring.ts:7-11 | two strictly ascending lists with the same members are equal |
| Ascii.FirstMatch | Source/Ascii.ts:1-9 | the result is none exactly when no character matches, and otherwise it is the first matching character |
| Ascii.FindChar | Source/Ascii.ts:1-9 | the loop returns that first match |
| Ascii.IsAscii | Source/Ascii.ts:11-18 | true exactly when every character is at most 0x7f, the empty string included |
| Ascii.IsDigitChar | Source/Ascii.ts:20-22 | true exactly for `'0'` to `'9'` |
| Ascii.IsHexadecimalChar | Source/Ascii.ts:32-38 | true exactly for a digit, `A`-`F` or `a`-`f` |
| Ascii.IsHexadecimal | Source/Ascii.ts:24-30 | true exactly when every character is hexadecimal, the empty string included |
| Ascii.JoinAscii | Source/CyclicCaRulestring.ts:43 | joining ASCII parts with an ASCII separator gives ASCII text |
| CaFamily.ParseFamily | Source/CaFamily.ts:7-24 | a family exactly when the value is present and trims to `"Cyclic"`, `"Generation"` or `"Lifelike"`, case-sensitively, and then the family whose string value that is; null and the empty string give null |
| CaFamily.ParseFamilyName | Source/CaFamily.ts:1-5 | each family's string value, with any whitespace around it, parses to that family |
| CaFamily.ParseTrimmedName | Source/CaFamily.ts:12-20 | a non-empty value that trims to a family name parses to that family |
| CyclicCaRulestring.NeighborhoodFromMarker | Source/CyclicCaRulestring.ts:13-22 | a neighbourhood exactly for `"NM"` and `"NN"`, the one whose marker it is; null otherwise |
| CyclicCaRulestring.NeighborhoodMarkerRoundTrip | Source/CyclicCaRulestring.ts:4-22 | a neighbourhood's marker reads back as that neighbourhood |
| CyclicCaRulestring.NumericPart | Source/CyclicCaRulestring.ts:24-33 | a value only when the part starts with its marker letter |
| CyclicCaRulestring.NumericPartLenient | Source/CyclicCaRulestring.ts:26 | the marker, an integer and any text not starting with a digit read as that integer, so `"R3x"` is 3 |
| CyclicCaRulestring.ParseParts | Source/CyclicCaRulestring.ts:56-72 | a parsed rule has nonzero range, threshold and state count; a missing fourth part gives null |
| CyclicCaRulestring.ParseRulestring | Source/CyclicCaRulestring.ts:48-73 | non-ASCII text after trimming gives null; the source throws exactly when ASCII text has fewer than three parts; any rule is read from the parts of the trimmed text |
| CyclicCaRulestring.ParsePartsIgnoresExtra | Source/CyclicCaRulestring.ts:55-59 | parts after the fourth do not change the result |
| CyclicCaRulestring.GetRulestringParts | Source/CyclicCaRulestring.ts:35-46 | the rulestring splits back into `R<range>`, `T<threshold>`, `C<stateCount>` and the marker, in that order |
| CyclicCaRulestring.GetRulestringPlain | Source/CyclicCaRulestring.ts:35-46 | a rulestring is ASCII and unchanged by trimming |
| CyclicCaRulestring.ParsePartsOfRule | Source/CyclicCaRulestring.ts:56-72 | the four parts of a rule with nonzero fields read back as that rule |
| CyclicCaRulestring.ParseRulestringRoundTrip | Source/CyclicCaRulestring.ts:35-73 | a rule with nonzero integer fields survives being written and read back |
| CyclicCaRulestring.ParseRulestringRejectsZero | Source/CyclicCaRulestring.ts:61-63 | a rule with a zero field is written, but reads back as null |
| CyclicCaRulestring.ParsedRuleIsCanonical | Source/CyclicCaRulestring.ts:35-73 | whatever parses is written as a rulestring that parses to it again |
| GenerationCaRulestring.DigitArrayPart | Source/GenerationCaRulestring.ts:6-12 | a part gives a pattern exactly when every character is a decimal digit, so a space or any other character gives null and the empty part gives `[]` |
| GenerationCaRulestring.DigitArrayPartSpec | Source/GenerationCaRulestring.ts:6-12 | a digit part reads as its distinct digit values in strictly ascending order |
| GenerationCaRulestring.DigitArrayPartSameDigits | Source/GenerationCaRulestring.ts:6-12 | parts with the same digits read alike, so `"32"` and `"233"` both give `[2, 3]` |
| GenerationCaRulestring.DigitArrayPartCanonical | Source/GenerationCaRulestring.ts:6-12 | what a part reads as is strictly ascending with counts 0 to 9 |
| GenerationCaRulestring.PatternStringOfDigits | Source/GenerationCaRulestring.ts:19-21 | a pattern of counts 0 to 9 is written as one digit character per count |
| GenerationCaRulestring.DigitArrayPartOfPatternString | Source/GenerationCaRulestring.ts:6-21 | a strictly ascending pattern of counts 0 to 9 is read back from its text unchanged |
| GenerationCaRulestring.ParseParts | Source/GenerationCaRulestring.ts:45-59 | a rule exactly when both pattern parts are digit strings and a third part parses to a nonzero number; a missing third part gives null |
| GenerationCaRulestring.ParseRulestring | Source/GenerationCaRulestring.ts:35-60 | non-ASCII text after trimming gives null; the source throws exactly when ASCII text has no `/`; any rule is read from the parts of the trimmed text |
| GenerationCaRulestring.ParsePartsIgnoresExtra | Source/GenerationCaRulestring.ts:44-47 | parts after the third do not change the result |
| GenerationCaRulestring.ParsedRuleIsCanonical | Source/GenerationCaRulestring.ts:35-60 | a parsed rule has strictly ascending digit patterns and a nonzero state count |
| GenerationCaRulestring.GetRulestringParts | Source/GenerationCaRulestring.ts:23-33 | the rulestring splits back into the survival digits, the birth digits and the state count |
| GenerationCaRulestring.GetRulestringPlain | Source/GenerationCaRulestring.ts:23-33 | a rulestring is ASCII and unchanged by trimming |
| GenerationCaRulestring.ParseRulestringRoundTrip | Source/GenerationCaRulestring.ts:19-60 | a rule with strictly ascending digit patterns and a nonzero state count survives being written and read back |
| LifelikeCaRulestring.ParseParts | Source/LifelikeCaRulestring.ts:37-47 | a rule exactly when both pattern parts are digit strings, empty ones included |
| LifelikeCaRulestring.ParseRulestring | Source/LifelikeCaRulestring.ts:29-50 | non-ASCII text after trimming gives null; the source throws exactly when ASCII text has no `/`; any rule is read from the parts of the trimmed text |
| LifelikeCaRulestring.ParsePartsIgnoresExtra | Source/LifelikeCaRulestring.ts:36-38 | parts after the second do not change the result |
| LifelikeCaRulestring.ParsedRuleIsCanonical | Source/LifelikeCaRulestring.ts:29-50 | a parsed rule has strictly ascending digit patterns |
| LifelikeCaRulestring.GetRulestringParts | Source/LifelikeCaRulestring.ts:18-27 | the rulestring splits back into the survival digits and the birth digits |
| LifelikeCaRulestring.GetRulestringPlain | Source/LifelikeCaRulestring.ts:18-27 | a rulestring is ASCII and unchanged by trimming |
| LifelikeCaRulestring.ParseRulestringRoundTrip | Source/LifelikeCaRulestring.ts:14-50 | a rule with strictly ascending digit patterns survives being written and read back |
| LifelikeCaRulestring.GameOfLifeRulestring | Source/LifelikeCa.ts:15-20 | the Game of Life's rule is written as a rulestring that reads back as it (`"23/3"`) |
| Interpolate.ClosingIndex | Source/Interpolate.ts:19 | `indexOf("}}", from)` gives the first `}}` at or after `from`, or -1 exactly when there is none |
| Interpolate.Interpolate | Source/Interpolate.ts:5-40 | the loop, with its index jumps, ends with the result of the reference function `InterpolateFrom` |
| Interpolate.NoPlaceholderUnchanged | Source/Interpolate.ts:7-37 | a key without `{{` (in particular one without `{`) comes back unchanged; lone braces of either kind are copied |
| Interpolate.NoPlaceholderCopied | Source/Interpolate.ts:10-17 | from any point with no `{{` after it, the rest of the key is copied as it is |
| Interpolate.PlaceholderReplaced | Source/Interpolate.ts:18-29 | `{{name}}` is replaced by the option named by the trimmed name ("undefined" when it is missing), and the character right after `}}` is dropped |
| Interpolate.UnclosedThrows | Source/Interpolate.ts:19-24 | a first `{{` with no `}}` after it throws, whatever came before it |
| Color.IsHexTripletValid | Source/Color.ts:170-172 | true exactly when the text has six characters and each is a hexadecimal digit |
| Color.HexTripletShape | Source/Color.ts:136-152 | for components 0 to 255 the triplet is six lower-case hex digits, two zero-padded digits per component |
| Color.RgbHexStringShape | Source/Color.ts:154-156 | the hex string is `#` followed by the triplet |
| Color.PadHexOfByte | Source/Color.ts:137-149 | a byte is written as two lower-case digits, the high one first |
| Color.ParsedTriplet | Source/Color.ts:127-134 | a valid triplet reads as the values of the digit pairs at `[0, 2)`, `[2, 4)` and `[4, 6)` in base 16 |
| Color.RgbRoundTrip | Source/Color.ts:127-152 | rgb to hex to rgb is the identity for components 0 to 255 |
| Color.ValidTripletRoundTrip | Source/Color.ts:127-172 | a valid triplet reads as components 0 to 255, which are written back as the triplet in lower case |
| EcmaScript.Trim | Source/CaFamily.ts:12 | `trim` leaves no whitespace at either end |
| EcmaScript.TrimPadded | Source/CyclicCaRulestring.ts:49 | trimming removes exactly the whitespace around an unpadded text |
| EcmaScript.Split | Source/CyclicCaRulestring.ts:55 | `split` gives at least one part and no part contains the separator |
| EcmaScript.SplitCount | Source/GenerationCaRulestring.ts:44-46 | splitting gives a second part exactly when the separator occurs |
| EcmaScript.SplitJoin | Source/CyclicCaRulestring.ts:43-55 | splitting a join of separator-free parts gives the parts back |
| EcmaScript.NatToString | Source/Color.ts:137 | `toString(radix)` writes at least one digit of that radix, with no leading zero, and a single digit exactly below the radix |
| EcmaScript.ParseIntOfIntToString | Source/CyclicCaRulestring.ts:26 | `parseInt` reads back a decimal `toString` and stops at the first character that is not a digit |
| EcmaScript.ParseIntOfChar | Source/GenerationCaRulestring.ts:7 | `parseInt` of one character is its value for a decimal digit, and NaN otherwise |
| EcmaScript.ParseIntOfHexPair | Source/Color.ts:129-131 | `parseInt(s, 16)` of two hex digits is sixteen times the first plus the second |

## Left out

- Source/App.ts, the controllers and the components (page bootstrap, DOM, URL parameters, the animation loop) are user-interface glue and are not part of this model. So is the `getStateCount` dispatch.
- Source/Random.ts is not part of this model. `getRandomInt` is an oracle parameter that is only known to return a value in its range, so the model says nothing about the distribution of the draws.
- The floating-point parts of Color.ts (HSV, `lerpColor`, gradients, `unpackUByte4`) and of Math.ts (`lerp`, `unlerp`, `linearRemap`, `roundToNearestMultiple`, `triangleWave`) are left out, because the model has no floating point. Ciede2000.ts, Geometry.ts, VideoContext.ts and Key.ts are left out for the same reason, or because they drive the page.
- Array.ts and Compare.ts are not part of this model. `unique`, `add`, `remove` and `numericAscending` are given their evident meanings in `Sequences`.
- Numbers are unbounded integers. JavaScript numbers are doubles, so `parseInt` of more than 15 or 16 digits, and `toString` of values of 1e21 and above, lose the exactness the codec round trips assume. Grid dimensions are natural numbers.
- Strings are sequences of code points, whereas JavaScript strings are UTF-16 code units. This only matters for characters beyond U+FFFF. Such a character is non-ASCII either way, so every codec still rejects it.
- The named cyclic presets refer to `BoundaryRule.Wrap`, which the shown Grid.ts does not define, so they are left out. The generation and life-like presets are kept without their `name` and `boundaryRule` fields (all four are Toroidal in the source): the model's rule datatypes carry neither.
- GenerationCa.UpdateGenerationCa: takes the boundary rule as a separate parameter instead of reading `rule.boundaryRule`, because the rule the rulestring codec builds has no boundary rule. The same holds for LifelikeCa.UpdateLifelikeCa.
- CyclicCa.UpdateCyclicCa: requires a nonzero state count. With zero states the source computes `NaN` cells, which integers cannot represent.
- GenerationCa.UpdateGenerationCa: requires a nonzero state count for the same reason, although in the source only decaying cells would become `NaN`.
- CyclicCa.UpdateCyclicCa, GenerationCa.UpdateGenerationCa, LifelikeCa.UpdateLifelikeCa: require a buffer of exactly `width * height` cells. `createGrid` builds such a buffer and every update keeps it. A shorter buffer would make the source read `undefined` states, which the model does not represent.
- Grid.Fill: an index past the end of the buffer is written by appending. The loop writes indices in increasing order, so no hole of a sparse JavaScript array can arise. The update methods build `nextCells` by appending for the same reason.
- CyclicCa.CopyCyclicCaRule: a value copy. That `Object.assign` returns a new object, not an alias of its argument, is not modelled.
- CyclicCa.SumNeighbors: the summation functions take the sample function already bound to the grid, instead of the grid and the unused rule fields. The rule's range is passed on.
- Interpolate.Interpolate: the options are a map from strings to strings. A missing option is appended as the text "undefined". Options of other types are not modelled.
