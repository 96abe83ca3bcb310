# penciloid-rust, modelled in Dafny

penciloid-rust is a library of pencil-puzzle engines: Numberlink, Slitherlink, Kakuro, Tapa,
Yajilin, Nurimisaki, Endview and Double Choco. It has solvers, generators, problem readers and
command-line front ends, and a WebAssembly entry point that hands a generated Numberlink problem
to JavaScript. This project models the shared containers, the loop-chain engine of src/grid_loop/mod.rs, the Kakuro run dictionary and run
shapes, the Kakuro candidate field with its propagation, the Kakuro generator's connectivity
score, clue placement and initial answer, the Numberlink frontier solver, the second Numberlink solver
with its undo log, the Numberlink placement generator with its answer field, the Tapa clue
table and solver field, the Nurimisaki propagation field, the Yajilin field's arrow-clue rule,
the Yajilin generator's candidate list, dead-end test and clue bookkeeping, the Slitherlink generator's search invariant, prohibited-pattern count and symmetric
clue placement, the cell and candidate types of
several puzzles, every line-based problem reader, the Double Choco URL decoder, the
command-line option parsers and the Rust/JavaScript byte-buffer contract. It proves what each
of them promises.

Layout: one module per source file, under the same name (`kakuro_dictionary.dfy` is
src/kakuro/dictionary.rs). Where a proof needed room, one source file is split over a few
modules. There are also some shared helpers:

- `Wrappers`: `Option` and `Result`.
- `Text`: the parts of Rust's string library the readers use (`split`, `trim`, `parse::<i32>`).
- `GridReader`: the reader shape shared by the Numberlink and Slitherlink formats.
- `ReadErrors`: the error type of the `io` module.

Modelling conventions:

- A `Grid` is a value: a height, a width and a row-major `seq`.
- An object whose methods update it in place is a `class`: `FiniteSearchQueue`, the loop
  engine `GridLoop` with its `FixVec`,
  `LinePlacement`, the second Numberlink solver's `SolverField`, the Numberlink generator's
  `AnswerField`, the Kakuro, Tapa, Yajilin, Endview and Nurimisaki `Field`s and the Yajilin
  `UnionFind`.
- Each algorithm that loops is a `method`, proved against a specification function, and each
  array it fills in place stays an `array`.
- A panic of the source (an index out of range, an unsigned underflow, an `unwrap` of `None`)
  is an explicit outcome: `None`, `Panics`, or `ok == false`.
- A reader is modelled as the sequence of results its successive `read_line` calls give.
  `next_valid_line`, which never returns at end of input, gets a `Hangs` outcome of its own.
- Integers are unbounded. The source's `i32` range is modelled where parsing decides it
  (`parse::<i32>`), and the `as u8` truncation is explicit. Arithmetic overflow elsewhere is
  not modelled.

The Kakuro field (src/kakuro/field.rs) is a class whose invariant is the same at every call
boundary. The counters match the cells. While the field is consistent, every decided cell holds
its digit alone, and every group's `unmet_num`, `unmet_sum` and `unused` are those of its cells.
Each step of the propagation narrows candidates and keeps decided cells, and it lowers a measure
or queues the groups it moved. That measure is the undecided cells plus the candidates left, and
it is what makes the mutual recursion of `decide_int` and `limit_cand` terminate. When the queue
runs empty, every group has a dictionary entry that is not `IMPOSSIBLE`, or the field is
inconsistent. At that point every group can still be completed from its free digits
(`SettledGroups`). Each technique of `check_group` is split into a scan over values and the
narrowing it drives. The soundness of a technique's limits is a lemma about the scan:
`TwoLimitSound`, `NakedPairSound`, `MinMaxSound` and `OnePlace`.

The second Numberlink solver (src/numberlink/solver2.rs) decides the edges between cells one at
a time and keeps an undo log. `NumberlinkHistory` states the log's meaning: undoing an entry
restores what it recorded, and `rollback` undoes entries latest first through the most recent
checkpoint. Every stretch of `decide_edge` work is a `Step`: the log only grows, every change
apart from one unlogged flag is logged, and no decided edge changes. So a checkpoint, any
decisions and a rollback give back the chain-end table and the edges (`CheckpointRestores`). The
mutual recursion of `decide_edge` and `inspect` terminates because every write decides an
undecided edge. The chain-end table keeps its partner invariant (`LinkedPaired`), and `search`
returns only drawings of fully decided edge grids reached from its entry state. The degree rule
says that a cell whose four sides are decided has a clue plus Line sides of 0 or 2. `inspect`
enforces it on the cell it looks at, and no decision breaks it for a cell that kept it
(`DegreesKept`). A complete grid then gives every clue one segment and every other cell none or
two (`CompleteBalanced`, `Solve2`).

The Numberlink generator's answer field (src/numberlink/generator_field.rs) decides the edges of
the lattice of `2h - 1` by `2w - 1` positions, whose even positions are cells and whose mixed
positions are edges. Every decision queues the cells it touches, and `queue_pop_all` inspects
them until the queue is empty or the field is invalid. The model gives every step one relation,
`Follows`: decided edges and set endpoint constraints keep their values, `invalid` is never
reset, and the undecided edges plus the open constraints, counted with the queue, never grow.
That measure is what makes the mutual recursion of `decide`, `inspect_int` and
`update_endpoint_constraint` terminate. Each chain's two ends point at each other (`chain_union`)
and carry its length; `chain_connectivity` is a union-find by size over the chain ends, and
the model keeps its roots as a ghost table (`UnionFind`). A line that would close a chain on
itself makes the field invalid. After a line, the canonization rule holds on both sides of it:
of three related edges, one line blanks the other two. The seed list and its index grid always
hold the same set, and after an inspection that leaves the field valid, a vertex is in that set exactly
when it is a seed.

The Numberlink generator (src/numberlink/generator.rs) is modelled in the parts of `generate`
that decide: the normalised symmetry, the reserved cells of the template constraint grid, the
choice, application and denial of an update, `check_invalidity` with its clue limit,
entanglement test and symmetry test, and `check_answer_validity` with its labelling of lines.
The labels of `check_answer_validity` are proved to be the lines themselves: two cells share a
label exactly when a walk along lines joins them (`Connected`), and every label in `1..n` is
carried by some cell. `CheckAnswerValidity` therefore accepts exactly the fields in which every
line has two line ends and two adjacent cells of one line are joined by a line, and its verdict
depends on the edges alone, not on how the labels are numbered (`ValidityDetermined`). The
random draws are parameters.

The Tapa field (src/tapa/field.rs) is a class whose every operation satisfies one relation,
`Progress`. The clues and the checking region stay, `inconsistent` is never reset, and cells are
only decided, and only inside the region. No black 2x2 block appears unless the field is
inconsistent; `decide` keeps this through `avoid_cluster`. `inspect` applies the dictionary entry
of a clue's eight neighbours. `solve` repeats the two connectivity passes until a round decides
nothing, and the passes themselves are parameters: `inspect_connectivity` as a function of
a separation oracle, `inspect_connectivity_advanced` as a whole. `trial_and_error` tries each
undecided cell both ways on a copy limited to the 5x5 square around it, and ends because every
round that reports an update decides a cell.

The Yajilin field (src/yajilin/field.rs) keeps the board's cells as the vertices of the
loop engine's lattice, and two tables of adjacent pairs of which at least one cell is known to
be shaded. `set_cell_internal` shades a cell by putting its neighbours on the loop and closing
its edges. `inspect_clue` walks from an arrow clue to the board edge or the next clue of the
same arrow, builds the `dp_left` and `dp_right` tables of bounds on the shaded cells before and
after each position, and decides from them. The model states each table as a recursive
function (`LeftDp`, `RightDp`) and proves the loops compute it; the rules of the final loop are
proved to hold on the board afterwards.

## Model

| member | source | states |
|---|---|---|
| Common.CoordAdd | src/common/mod.rs:18-26 | `Coord + Dir` moves each component by the direction's component |
| Common.CoordSub | src/common/mod.rs:27-35 | `Coord - Dir` moves each component back by the direction's component |
| Common.LoopCoordAdd | src/common/mod.rs:36-44 | `LoopCoord + Dir` is componentwise |
| Common.LoopCoordSub | src/common/mod.rs:45-53 | `LoopCoord - Dir` is componentwise |
| Common.DirAdd | src/common/mod.rs:54-62 | `Dir + Dir` is componentwise |
| Common.DirSub | src/common/mod.rs:63-71 | `Dir - Dir` is componentwise |
| Common.DirScale | src/common/mod.rs:72-80 | `Dir * k` scales both components by `k` |
| Common.CoordAddSubInverse | src/common/mod.rs:18-53 | subtracting a direction undoes adding it, for cells and lattice points |
| Common.DirScaleStep | src/common/mod.rs:18-26 | moving by `d * (k + 1)` is moving by `d * k` and then by `d` |
| Common.OperatorExamples | src/common/mod.rs:231-257 | the operator values of the unit tests |
| Common.Grid.Set | src/common/mod.rs:116-121 | writing a cell keeps the grid's shape and row-major layout |
| Common.Grid.IndexInRange | src/common/mod.rs:102-104 | a valid cell's slot `y * width + x` lies inside the data |
| Common.Grid.IndexCoordOf | src/common/mod.rs:102-104 | every slot is the slot of exactly the cell `(i / width, i % width)` |
| Common.Grid.CoordOfIndex | src/common/mod.rs:102-104 | a valid cell is recovered from its slot |
| Common.Grid.IndexInjective | src/common/mod.rs:102-104 | two valid cells share a slot only when they are equal |
| Common.NewGrid | src/common/mod.rs:89-95 | `Grid::new(h, w, d)` holds exactly `h * w` copies of `d` |
| Common.GetSet | src/common/mod.rs:109-121 | reading after writing a cell gives the written value there and the old value elsewhere |
| Common.GridExample | src/common/mod.rs:260-271 | on a 3x3 grid `LoopCoord{1,1}` is slot 4 and reads what `Coord{1,1}` wrote |
| Common.FiniteSearchQueue.constructor | src/common/mod.rs:156-165 | `new(max_elem)` is empty, not started, with `max_elem` marks and `max_elem + 1` slots |
| Common.FiniteSearchQueue.IsStarted | src/common/mod.rs:166-168 | returns the started flag |
| Common.FiniteSearchQueue.Start | src/common/mod.rs:169-171 | sets only the started flag |
| Common.FiniteSearchQueue.Finish | src/common/mod.rs:172-174 | clears only the started flag |
| Common.FiniteSearchQueue.Push | src/common/mod.rs:175-185 | a queued value is not queued again and leaves the buffer alone; a new one is appended at the back, keeping the ring invariant |
| Common.FiniteSearchQueue.PushAll | src/kakuro/field.rs:134-136 | pushing `0` to `n - 1` in turn leaves each of them queued |
| Common.FiniteSearchQueue.Pop | src/common/mod.rs:186-194 | returns the oldest value and removes it, keeping the ring invariant |
| Common.FiniteSearchQueue.Empty | src/common/mod.rs:195-197 | `top == end` holds exactly when nothing is queued |
| Common.RingPush | src/common/mod.rs:175-185 | writing an unmarked value at `end` and advancing `end` modulo `size` appends it and marks it |
| Common.RingPop | src/common/mod.rs:186-194 | reading at `top`, clearing the mark and advancing `top` modulo `size` drops the front |
| Common.SlotInjective | src/common/mod.rs:175-194 | distinct positions in the ring map to distinct slots |
| Common.BelowCard | src/common/mod.rs:156-165 | there are exactly `n` values below `n` |
| Common.DistinctCard | src/common/mod.rs:175-185 | a queue without repeats has as many distinct values as entries |
| Common.QueueBound | src/common/mod.rs:156-185 | pigeonhole: a value can only be pushed while fewer than `max_elem` are queued, so the `max_elem + 1` slots never overwrite an unread entry |
| Cli.Lower | src/cli/mod.rs:96 | `to_ascii_lowercase` keeps the length and lowers each character on its own |
| Cli.LowerOfLower | src/cli/mod.rs:96-107 | lowering is idempotent, so a lowered token matches the same names |
| Cli.PuzzleNamesRead | src/cli/mod.rs:96-102 | `nl`/`numberlink`, `sl`/`slitherlink`, `kk`/`kakuro`, `tp`/`tapa` in any case read as their puzzle |
| Cli.ModeNamesRead | src/cli/mod.rs:103-107 | `sol`/`solver` and `gen`/`generator` in any case read as their mode |
| Cli.NamesOnly | src/cli/mod.rs:96-107 | a token names a puzzle or mode only when it is one of those names in some case |
| Cli.ParseSubcommandJoin | src/cli/mod.rs:89-113 | `a-b` is accepted exactly when `a` names a puzzle and `b` a mode, and yields that pair |
| Cli.ParseSubcommandShape | src/cli/mod.rs:89-113 | any accepted subcommand has exactly one `-`; other token counts are `InvalidSubcommand` |
| Cli.ParseIntegerArgument | src/cli/mod.rs:115-134 | the value parses as an `i32` at or above the bound, or the default is used when the option is absent; missing with no default is `MissingOption`, unparsable or too small is `UnrecognizedArgument` |
| Cli.MaxClueOption | src/cli/nl_generator.rs:56-69 | `--max-clue` absent is no bound, present must be a positive `i32`, anything else is `UnrecognizedArgument("max-clue")` |
| CliNlGenerator.NamesStep | src/cli/nl_generator.rs:28-40 | after one more token, a symmetry is named exactly when it was named before or the new token names it |
| CliNlGenerator.ParseSymmetry | src/cli/nl_generator.rs:25-42 | the loop fails with `UnrecognizedArgument("symmetry")` exactly when some comma-separated token names no symmetry, and otherwise turns on exactly the symmetries the tokens name |
| CliNlGenerator.Axes | src/cli/nl_generator.rs:29-36 | lists exactly the symmetries a value has |
| CliNlGenerator.ShortName | src/cli/nl_generator.rs:29-36 | `d`, `t`, `h`, `v` read back as their symmetry and hold no comma |
| CliNlGenerator.ShortNames | src/cli/nl_generator.rs:29-36 | one short name per symmetry present, in order |
| CliNlGenerator.ShortNamesNames | src/cli/nl_generator.rs:28-40 | the short names of a value name exactly its symmetries |
| CliNlGenerator.ShowSymmetryRead | src/cli/nl_generator.rs:25-42 | every symmetry other than none, written as its short names, parses back to itself |
| CliNlGenerator.EmptySymmetry | src/cli/nl_generator.rs:25-42 | an empty `--symmetry` value is one empty token and is rejected |
| Text.SplitTwo | src/cli/nl_generator.rs:27 | `a` and `b` joined by a separator that neither contains split back into `a` and `b`; it serves the `-` of a subcommand (src/cli/mod.rs:90) and the `,` of a symmetry list |
| CliNlGenerator.SymmetrySwap | src/cli/nl_generator.rs:25-42 | the order of two tokens does not change the result |
| CliNlGenerator.SymmetryRepeat | src/cli/nl_generator.rs:25-42 | naming a symmetry twice is naming it once |
| CliNlGenerator.CornerOption | src/cli/nl_generator.rs:72-90 | `--corner` absent is none; present must be exactly two `i32`s with `1 <= lo <= hi`, else `UnrecognizedArgument("corner")` |
| CliNlGenerator.ParseOptionsSpec | src/cli/nl_generator.rs:43-104 | the options are accepted exactly when each is, and each setting is the value its option gives, within its bound |
| CliNlGenerator.SizeRequired | src/cli/nl_generator.rs:44-45 | leaving out `--height` or `--width` is `MissingOption` for the first one missing |
| CliNlGenerator.Defaults | src/cli/nl_generator.rs:46-71 | without optional settings: one job, minimum path length 1, empty width 0, no symmetry, no corner, no clue bound, flags off |
| CliTapaGenerator.TokenRuns | src/cli/tapa_generator.rs:25-28 | each character becomes its low byte minus 48, as `c as u8 as i32 - '0' as u8 as i32` computes |
| CliTapaGenerator.KindsUpToMembers | src/cli/tapa_generator.rs:24-33 | the mask after `i` tokens holds exactly the kinds those tokens name |
| CliTapaGenerator.ParseCluePatternsIn | src/cli/tapa_generator.rs:21-35 | the loop over any kind table returns the mask of the named kinds, or `None` at a token that names none |
| CliTapaGenerator.ParseCluePatterns | src/cli/tapa_generator.rs:21-35 | `parse_clue_patterns` over `CLUE_VALUES` returns exactly the specified mask |
| CliTapaGenerator.CluePatternsInSpec | src/cli/tapa_generator.rs:21-35 | for any table of distinct ascending kinds, a mask is returned iff every token names a kind, and its bits are exactly those kinds |
| CliTapaGenerator.CluePatternsSpec | src/cli/tapa_generator.rs:21-35 | the same for `CLUE_VALUES`: bits below 23, and a token whose runs are a kind's in any order sets that kind |
| CliTapaGenerator.EmptyTokenKind | src/cli/tapa_generator.rs:24-30 | an empty token (as in `1,,2`) names kind 0 |
| CliTapaGenerator.TokenNames | src/cli/tapa_generator.rs:24-30 | a token whose runs are those of kind `i`, in any order, names kind `i` |
| CliTapaGenerator.TokenZero | src/cli/tapa_generator.rs:207-209 | the token `0` names kind 0 |
| CliTapaGenerator.TokenOne | src/cli/tapa_generator.rs:203-205 | the token `1` names kind 1 |
| CliTapaGenerator.TokenTwo | src/cli/tapa_generator.rs:203-205 | the token `2` names kind 12 |
| CliTapaGenerator.TokenThree | src/cli/tapa_generator.rs:203-205 | the token `3` names kind 16 |
| CliTapaGenerator.TokenFourOnes | src/cli/tapa_generator.rs:207-209 | the token `1111` names kind 4 |
| CliTapaGenerator.TokenTwoOneOne | src/cli/tapa_generator.rs:211-213 | the token `211`, runs out of order, names kind 5 |
| CliTapaGenerator.TokenThreeOne | src/cli/tapa_generator.rs:211-213 | the token `31`, runs out of order, names kind 9 |
| CliTapaGenerator.TokenLetter | src/cli/tapa_generator.rs:215 | the token `a` names no kind |
| CliTapaGenerator.TokenOneSix | src/cli/tapa_generator.rs:216 | the token `16` names no kind |
| CliTapaGenerator.SplitThree | src/cli/tapa_generator.rs:203-204 | `1,2,3` splits at commas into `1`, `2`, `3` |
| CliTapaGenerator.SplitZeroFour | src/cli/tapa_generator.rs:207-208 | `0,1111` splits into `0`, `1111` |
| CliTapaGenerator.SplitUnsorted | src/cli/tapa_generator.rs:211-212 | `211,31` splits into `211`, `31` |
| CliTapaGenerator.MaskOfTwo | src/cli/tapa_generator.rs:21-35 | a list of two tokens naming kinds `i` and `j` gives the mask of exactly `{i, j}` |
| CliTapaGenerator.MaskOfThree | src/cli/tapa_generator.rs:21-35 | a list of three tokens naming kinds `i`, `j`, `k` gives the mask of exactly `{i, j, k}` |
| CliTapaGenerator.MaskThreeKinds | src/cli/tapa_generator.rs:203-206 | `1,2,3` gives the mask of kinds 1, 12 and 16 |
| CliTapaGenerator.MaskZeroAndFour | src/cli/tapa_generator.rs:207-210 | `0,1111` gives the mask of kinds 0 and 4 |
| CliTapaGenerator.MaskUnsorted | src/cli/tapa_generator.rs:211-214 | `211,31` gives the mask of kinds 5 and 9 |
| CliTapaGenerator.MaskBad | src/cli/tapa_generator.rs:215-216 | `a` and `16` give `None` |
| CliTapaGenerator.ParseCluePatternsTest | src/cli/tapa_generator.rs:201-217 | the five cases of the `parse_clue_patterns` test: three masks and two rejections |
| CliTapaGenerator.Complement | src/cli/tapa_generator.rs:76 | `((1 << 23) - 1) ^ q` holds exactly the 23 kinds not in `q` |
| CliTapaGenerator.MaskOption | src/cli/tapa_generator.rs:59-72 | an absent mask option is no mask; a value is accepted iff `parse_clue_patterns` accepts it, else `UnrecognizedArgument` |
| CliTapaGenerator.AllowedClues | src/cli/tapa_generator.rs:74-79 | the allowed mask as given, or the complement of the disallowed one, or none; giving both panics |
| CliTapaGenerator.ParseOptionsSpec | src/cli/tapa_generator.rs:37-90 | `parse_options` panics iff every option before the masks is accepted and both masks are given; a returned setting has a size of at least 1x1, at least one job, a positive maximum clue, kinds below 23 and the flags as given |
| DoubleChocoUrl.ConvertHex | src/bin/doublechoco_sol.rs:38-44 | digits read as 0 to 9, letters from `a` as 10 on, and any other character by the same letter formula |
| DoubleChocoUrl.TDiv | src/bin/doublechoco_sol.rs:27 | Rust's truncating `/` on `i32`, equal to floor division for a non-negative dividend and positive divisor |
| DoubleChocoUrl.TMod | src/bin/doublechoco_sol.rs:28 | Rust's `%`: what truncating division leaves, equal to `%` for non-negative operands |
| DoubleChocoUrl.ColorChars | src/bin/doublechoco_sol.rs:17 | `(height * width + 4) / 5` characters hold all cells, five per character, with fewer than five to spare |
| DoubleChocoUrl.ColorSection | src/bin/doublechoco_sol.rs:16-37 | a decoded colour section has one colour per cell and never reads past the body |
| DoubleChocoUrl.ColorsStep | src/bin/doublechoco_sol.rs:25-36 | one more cell of the colour loop writes that cell's bit when its row is inside the grid, and changes nothing else |
| DoubleChocoUrl.ColorsFinal | src/bin/doublechoco_sol.rs:17-37 | past the last cell the loop's colours are the section's |
| DoubleChocoUrl.DecodeColors | src/bin/doublechoco_sol.rs:16-37 | the colour loop returns the colour section, and panics exactly where it reads past the body or writes past the grid |
| DoubleChocoUrl.DecodeClues | src/bin/doublechoco_sol.rs:45-62 | the clue loop returns what the clue scan gives: skips for `g` on, values from one or three characters, a panic on a short `-` value, a zero width or a cell past the grid |
| DoubleChocoUrl.ParseUrl | src/bin/doublechoco_sol.rs:7-64 | `parse_url` returns the decoded colour and clue grids, or panics where the source does (fewer than three segments, a non-`i32` size, a negative size, a short body, a cell past the grid) |
| DoubleChocoEncode.HexChar | src/bin/doublechoco_sol.rs:38-44 | the inverse of `convert_hex` below 36: it reads back as the value and is never `/` or `-` |
| DoubleChocoEncode.EncodeColors | src/bin/doublechoco_sol.rs:17-37 | one character per five cells, which `convert_hex` reads as their bits |
| DoubleChocoEncode.SkipChars | src/bin/doublechoco_sol.rs:47-49 | a run of empty cells is written only with characters `g` to `z` |
| DoubleChocoEncode.ValueChars | src/bin/doublechoco_sol.rs:51-58 | a byte clue is written without `/` |
| DoubleChocoEncode.EncodeClues | src/bin/doublechoco_sol.rs:45-62 | the clue section contains no `/` |
| DoubleChocoEncode.SkipScan | src/bin/doublechoco_sol.rs:47-49 | a run of empty cells decodes to moving the position past them |
| DoubleChocoEncode.ValueScan | src/bin/doublechoco_sol.rs:50-60 | a written value decodes to storing it at the position and moving one cell on |
| DoubleChocoEncode.CluesRoundTrip | src/bin/doublechoco_sol.rs:45-62 | the clue section decodes back to the clues, empty cells being `NO_CLUE` |
| DoubleChocoEncode.BitAt | src/bin/doublechoco_sol.rs:30 | `bits & (1 << k)` reads the bit at place `k` |
| DoubleChocoEncode.FiveCellsBit | src/bin/doublechoco_sol.rs:25-35 | bit `4 - j` of a colour character is cell `j` of its five |
| DoubleChocoEncode.WrittenInGrid | src/bin/doublechoco_sol.rs:26-29 | with a positive width, the loop writes exactly the cells inside the grid |
| DoubleChocoEncode.EncodedColor | src/bin/doublechoco_sol.rs:17-37 | each cell's decoded colour is its own |
| DoubleChocoEncode.ColorsRoundTrip | src/bin/doublechoco_sol.rs:16-37 | the colour section decodes back to the colours |
| DoubleChocoEncode.SplitAppend | src/bin/doublechoco_sol.rs:8 | splitting `x / y` is splitting `x` and then `y` |
| DoubleChocoEncode.NoSep | src/bin/doublechoco_sol.rs:8 | a part without `/` is one segment |
| DoubleChocoEncode.ShowIntNoSlash | src/bin/doublechoco_sol.rs:9-10 | a written size contains no `/` |
| DoubleChocoEncode.UrlTokens | src/bin/doublechoco_sol.rs:8-11 | the URL's last three segments are the width, the height and the body |
| DoubleChocoEncode.ParseUrlRoundTrip | src/bin/doublechoco_sol.rs:7-64 | every puzzle with a positive width and byte clues decodes from its URL back into its own colour and clue grids |
| EndviewBase.Singleton | src/endview/mod.rs:11-13 | `Cand::singleton(n)` is a well-formed 32-bit set |
| EndviewBase.Members | src/endview/mod.rs:11-16 | a singleton holds exactly its letter, `(1 << n) - 1` exactly the letters below `n`, and `Cand(0)` none |
| EndviewBase.SetOperations | src/endview/mod.rs:24-51 | `&`, `\|` and `!` are intersection, union and complement of the letter sets |
| EndviewBase.Extensionality | src/endview/mod.rs:7-8 | two sets with the same letters are the same word |
| EndviewBase.CountBelowBounds | src/endview/mod.rs:17-19 | counting letters below `k` gives 0 exactly when none is set and `k` exactly when all are |
| EndviewBase.CountSetCandsBounds | src/endview/mod.rs:17-19 | `count_ones` is at most 32, and 0 exactly for `Cand(0)` |
| EndviewBase.CountBelowSingleton | src/endview/mod.rs:11-19 | a singleton counts one letter once `k` passes it |
| EndviewBase.SingletonCount | src/endview/mod.rs:11-22 | a singleton has exactly one letter, which is also its smallest |
| EndviewBase.CountBelowFirstLetters | src/endview/mod.rs:17-19 | the first `n` letters count `n` |
| EndviewBase.FirstFromSpec | src/endview/mod.rs:20-22 | the scan from `k` finds the first set letter at or after `k`, or 32 |
| EndviewBase.SmallestSetCandSpec | src/endview/mod.rs:20-22 | `trailing_zeros` is the least set letter, and 32 exactly for `Cand(0)` |
| EndviewState.Group | src/endview/field.rs:56-62 | line `gid` below `size` is a row and the rest are columns; every position of a line is a cell of the board |
| EndviewState.WithValue | src/endview/field.rs:37 | `self.value[cell] = val` changes that cell's value and nothing else |
| EndviewState.WithCand | src/endview/field.rs:71 | `self.cand[cell] = new_cand` changes that cell's candidates and nothing else |
| EndviewState.FollowsTrans | src/endview/field.rs:28-124 | a state that follows one that follows `s` follows `s`: candidates only narrow and values only get decided, along any chain of calls |
| EndviewState.FollowsMeasure | src/endview/field.rs:28-124 | a later state never has a larger measure, the open values plus the candidates left |
| EndviewState.MeasureDrops | src/endview/field.rs:28-124 | one cell lowering its measure while no other raises its own lowers the board's measure |
| EndviewState.CountWithin | src/endview/mod.rs:17-19 | a narrower set counts no more letters, and strictly fewer when it lacks one the wider set has |
| EndviewState.SetValueDrops | src/endview/field.rs:37 | giving an undecided cell a value, or a `SOME` cell a letter, follows and lowers the measure |
| EndviewState.SetCandDrops | src/endview/field.rs:66-71 | narrowing a cell to a strictly smaller set follows and lowers the measure, which is why the recursion ends |
| EndviewState.CountImplies | src/endview/field.rs:95-102 | a line whose flags imply another's counts no more, and with equal counts the flags coincide |
| EndviewState.CountComplement | src/endview/field.rs:95-102 | the cells with and without a flag add up to the line |
| EndviewState.AllowsWithValue | src/endview/field.rs:37 | setting a value that a solved board agrees with keeps that board allowed |
| EndviewState.AllowsWithCand | src/endview/field.rs:63-71 | narrowing by a limit that keeps the solved cell's letter keeps the board allowed, and an empty result means the solved cell is empty |
| EndviewState.LetterOnce | src/endview/field.rs:44-53 | in a solved row or column a letter occurs once, so the rest of the line may lose it |
| EndviewState.EmptyCount | src/endview/field.rs:112 | every solved row and column has `size - n_alpha` empty cells |
| EndviewState.OnlyLetter | src/endview/field.rs:79-80 | with one letter left, `smallest_set_cand` names it |
| EndviewState.NarrowedWithin | src/endview/field.rs:70 | `current_cand & lim` lies within both sets |
| EndviewState.DecideStepAsWritten | src/endview/field.rs:29-35 | the guard as written: only an undecided cell proceeds, an equal value is kept, and anything else is a clash |
| EndviewState.DecideStep | src/endview/field.rs:29-35 | the corrected guard: an undecided cell, or a `SOME` cell given a letter, proceeds; the same value, or `SOME` on a lettered cell, is kept; anything else clashes |
| EndviewState.ConflictRulesOut | src/endview/field.rs:29-35 | the corrected guard only clashes when no allowed solved board agrees with the value |
| EndviewState.ProceedDrops | src/endview/field.rs:37 | a proceeding step with a real value follows and lowers the measure |
| EndviewState.AsWrittenRejectsSolution | src/endview/field.rs:29-35 | on a 1 x 1 board with one letter, after `decide((0,0), SOME)`, the solved board is still allowed, `inspect_cell` picks letter 0, and the guard as written clashes while the corrected guard proceeds |
| EndviewState.EmptySnapshot | src/endview/field.rs:16-27 | the empty board is well formed, of the given size and letters, and consistent |
| EndviewState.EmptyAllowsAll | src/endview/field.rs:16-27 | the empty board allows every solved board of its size and letters |
| EndviewState.DecidedFollows | src/endview/field.rs:104-119 | a decided cell of a line stays decided in every later state |
| EndviewState.ForcedAgrees | src/endview/field.rs:104-119 | the value `inspect_row` forces on an undecided cell agrees with every allowed solved board |
| EndviewState.FullLineEmpty | src/endview/field.rs:104-111 | with `n_alpha` cells of a line holding `SOME` or a letter, every other cell is empty in every allowed solved board |
| EndviewState.FullLineSome | src/endview/field.rs:112-119 | with `size - n_alpha` empty cells in a line, every other cell holds a letter in every allowed solved board |
| EndviewState.GoneFollows | src/endview/field.rs:47-53 | a letter taken out of a line stays out in every later state |
| EndviewState.GoneStep | src/endview/field.rs:47-53 | one more cell of the line losing the letter, or being the cell itself, extends the removal by one |
| EndviewState.LetterChain | src/endview/field.rs:43-53 | the letter branch chained over its three steps leaves the cell with that letter alone and the letter gone from the rest of its row and column |
| EndviewState.KeepsOwn | src/endview/field.rs:44 | a letter's singleton keeps the solved cell that agrees with it |
| EndviewState.KeepsOthers | src/endview/field.rs:47-53 | every other cell of a letter's row and column may lose it without losing an allowed solved board |
| EndviewField.Field.constructor | src/endview/field.rs:16-27 | `empty_board`: every cell undecided with the first `n_alpha` letters, no clues, consistent and not solved |
| EndviewField.Field.Decide | src/endview/field.rs:28-55 | with the corrected guard: a clash sets only `inconsistent`, the same value changes nothing, and otherwise the cell takes the value: `EMPTY` clears it, a letter is alone in the cell and gone from its row and column; always a later state, and an allowed solved board that agrees with the value stays allowed |
| EndviewField.Field.Assign | src/endview/field.rs:37-54 | the part past the guard: the value is set, then propagated as `Decide` states |
| EndviewField.Field.AssignLetter | src/endview/field.rs:43-53 | the letter branch: the cell keeps only its letter, and no other cell of its column or its row keeps it |
| EndviewField.Field.StrikeLine | src/endview/field.rs:47-53 | one of the two loops: every other cell of the line loses the letter, and allowed solved boards stay allowed |
| EndviewField.Field.LimitCand | src/endview/field.rs:63-77 | the cell's candidates end within `lim`, nothing changes when they already were, and a limit that keeps the solved letter keeps the board allowed |
| EndviewField.Field.InspectCell | src/endview/field.rs:78-87 | a `SOME` cell with one letter left ends with a letter; a later state that keeps every allowed solved board |
| EndviewField.Field.DecideLastLetter | src/endview/field.rs:79-82 | a `SOME` cell with one letter left takes that letter, without losing an allowed solved board |
| EndviewField.Field.CountLine | src/endview/field.rs:92-102 | `n_some` and `n_empty` are the numbers of cells of the line with `SOME` or a letter, and with `EMPTY` |
| EndviewField.Field.InspectRow | src/endview/field.rs:88-119 | when a line has `n_alpha` cells with a letter or `SOME`, or `size - n_alpha` empty ones, no cell of it is left undecided; every allowed solved board stays allowed |
| EndviewField.Field.FillLine | src/endview/field.rs:104-119 | one of the two loops: every undecided cell of the line is decided, and allowed solved boards stay allowed |
| Format.FromIoError | src/format/mod.rs:31-35 | an I/O error converts to `Error::Io` carrying it |
| Format.FromParseIntError | src/format/mod.rs:37-41 | every parse failure converts to `Error::Format` |
| Format.NextValidLine | src/format/mod.rs:47-56 | the loop returns the first line that is neither blank nor a comment, an I/O error as soon as one comes, or never returns |
| Format.NextValidFound | src/format/mod.rs:47-56 | a found line is valid and every line skipped before it was blank or a comment |
| Format.NextValidEndless | src/format/mod.rs:47-56 | `next_valid_line` never returns exactly when only blank lines and comments remain |
| Format.EndlessSkipsAll | src/format/mod.rs:47-56 | a read that never ends sees only blank lines and comments |
| Format.SkipsAllEndless | src/format/mod.rs:47-56 | only blank lines and comments left means the read never ends |
| Format.NextValidExtend | src/format/mod.rs:47-56 | the lines after the one it stops at are never looked at |
| Format.CommentExamples | src/format/mod.rs:43-45 | only a raw first `#` makes a comment; blank lines are skipped and others kept |
| Format.ReadLinesLoop | src/numberlink/format.rs:30-42 | the counted loop of the readers: `count` valid lines, each handed to the line step, stopping at the first I/O error or failing step |
| Format.ReadLinesFold | src/numberlink/format.rs:30-42 | a loop that finishes read exactly `count` valid lines and applied the step to them in order |
| Format.ReadLinesExtend | src/numberlink/format.rs:30-42 | appending input changes no outcome of the loop |
| Format.ReadLinesMap | src/kakuro/io.rs:42-65 | two readers whose steps differ only by an error translation read every input alike up to that translation |
| Format.Field | src/numberlink/format.rs:16-25 | the `k`-th space-separated field, trimmed and parsed as `i32`; a missing or unparsable field is `Error::Format` |
| Format.NewReaderGrid | src/numberlink/format.rs:28 | `Grid::new` of `height * width` copies, which panics for a negative product |
| Format.WriteCell | src/numberlink/format.rs:39 | writing `(y, x)` changes slot `y * width + x` and panics outside the data |
| GridReader.ParseHeader | src/numberlink/format.rs:13-26 | a header is two `i32` fields; anything else is `Error::Format` |
| GridReader.ReadRows | src/numberlink/format.rs:7-45 | the reader method returns the specified outcome: the header, a `NO_CLUE` grid of that size, then one row per valid line |
| GridReader.FillRowSpec | src/numberlink/format.rs:34-41 | filling a row in range writes the clue items of its columns and nothing else |
| GridReader.FoldRows | src/numberlink/format.rs:30-42 | reading the row lines fills each row from its own line and leaves earlier rows alone |
| GridReader.RowStepSpec | src/numberlink/format.rs:31-41 | one row line sets its row's clue cells and keeps every other slot |
| GridReader.FillRowSpecAny | src/numberlink/format.rs:34-41 | the same from column 0, also for a grid with no columns |
| GridReader.ReadCells | src/numberlink/format.rs:7-45 | a parsed grid has the header's size, `height` row lines were read, every row line had `width` items, and cell `(y, x)` holds item `x` of line `y` when it is a clue and `NO_CLUE` otherwise |
| GridReader.LoopCells | src/numberlink/format.rs:30-44 | the same for the row loop alone, from the all-`NO_CLUE` grid |
| GridReader.SlotInRange | src/numberlink/format.rs:39 | a cell inside the grid has its slot inside the data |
| NumberlinkFormat.TokenCells | src/numberlink/format.rs:32-41 | one item per space-separated token of a row line |
| NumberlinkFormat.ReadPenciloidProblem | src/numberlink/format.rs:7-45 | the reader returns exactly the specified outcome |
| NumberlinkFormat.ReadCells | src/numberlink/format.rs:7-45 | a parsed grid has the header's size; every row line had `width` tokens, and cell `(y, x)` is `Clue(n)` exactly when token `x` of line `y` parses as `n`, else `NO_CLUE` |
| SlitherlinkFormat.CharClue | src/slitherlink/format.rs:37-40 | exactly the characters `0` to `3` write a clue, of their digit value |
| SlitherlinkFormat.CharCells | src/slitherlink/format.rs:33-41 | one item per character of a row line |
| SlitherlinkFormat.ReadPenciloidProblem | src/slitherlink/format.rs:8-45 | the reader returns exactly the specified outcome |
| SlitherlinkFormat.ReadCells | src/slitherlink/format.rs:8-45 | a parsed grid has the header's size; every row line had `width` characters, and cell `(y, x)` is the digit 0 to 3 at position `x` of line `y`, else `NO_CLUE` |
| GridLoop.EdgeSafe | src/grid_loop/mod.rs:129-135 | `get_edge_safe` reads the lattice inside it and `Blank` everywhere outside |
| GridLoopChains.EdgeTable | src/grid_loop/mod.rs:58-61 | slot `i` holds an edge exactly when its row and column differ in parity |
| GridLoopChains.EdgeEnds | src/grid_loop/mod.rs:65-69 | the end vertices of a new edge are the slots left and right of it on an even row, above and below it on an odd one |
| GridLoopChains.EdgeEndsBound | src/grid_loop/mod.rs:65-69 | on a lattice with odd sides both end vertices of every edge lie on the lattice |
| GridLoopChains.InitialItems | src/grid_loop/mod.rs:49-75 | the table `new` fills before its corner joins has one item per lattice slot, each as `InitialItem` gives it |
| GridLoopChains.InitialChains | src/grid_loop/mod.rs:57-75 | that table is a chain partition of one-edge cycles of size 1, with no edge decided and no line |
| GridLoopChains.InChain | src/grid_loop/mod.rs:20-26 | every edge is listed in the chain it is labelled with |
| GridLoopChains.EndIff | src/grid_loop/mod.rs:196-199 | `is_end_of_chain` holds of an edge exactly when it is one of its chain's two end edges |
| GridLoopChains.EndsApart | src/grid_loop/mod.rs:273-278 | two chain ends that do not name each other lie in different chains |
| GridLoopChains.ChainStatus | src/grid_loop/mod.rs:230-246 | every edge of a chain has the status of any one of them |
| GridLoopChains.JoinEnds | src/grid_loop/mod.rs:269-301 | when `join`'s guard holds, the chains differ, the other-end pointers name their chains' far ends, and those carry the chains' sizes and in-range end vertices |
| GridLoopChains.ChainFrom | src/grid_loop/mod.rs:230-241 | following `chain_next` from an edge lists its whole chain as a cycle without repeats |
| GridLoopChains.PaintChain | src/grid_loop/mod.rs:230-246 | painting an undecided chain keeps the partition, adds exactly the chain to the decided edges and, for `Line`, to the line edges, and changes no link |
| GridLoopChains.PaintChainCounts | src/grid_loop/mod.rs:242-245 | the decided, line and undecided counts move by exactly the chain's length |
| GridLoopChains.PaintPlan | src/grid_loop/mod.rs:230-246 | the cycle walked from an undecided edge is exactly its chain, and painting it keeps the partition and moves the counters by its length |
| GridLoopChains.RotateCycle | src/grid_loop/mod.rs:344-345 | a cycle listed from another start is the same cycle through the same edges |
| GridLoopChains.JoinedCycle | src/grid_loop/mod.rs:344-345 | swapping the `chain_next` links of two ends of disjoint cycles makes one cycle through the edges of both, without repeats |
| GridLoopChains.MergeCycle | src/grid_loop/mod.rs:339-360 | that cycle has the summed length and exactly the edges of the two |
| GridLoopChains.MergeNewChain | src/grid_loop/mod.rs:339-360 | after the splice the joined edges form one chain whose ends are the two far end edges |
| GridLoopChains.MergeOtherChain | src/grid_loop/mod.rs:339-360 | every other chain keeps its shape |
| GridLoopChains.MergeChains | src/grid_loop/mod.rs:339-360 | joining two chains of one status at their ends keeps the partition with one chain fewer, holding the edges of both, and changes no status |
| GridLoopChains.SpliceTable | src/grid_loop/mod.rs:339-360 | the splice keeps the whole table valid, with the same counters and no edge newly decided |
| GridLoopEngine.InitialTable | src/grid_loop/mod.rs:57-75 | the double loop of `new` writes exactly the initial item of every slot |
| GridLoopEngine.EdgeItem | src/grid_loop/mod.rs:62-72 | the item written at an edge is a one-edge chain of size 1 between the vertices beside it |
| GridLoopEngine.GridLoop.constructor | src/grid_loop/mod.rs:48-111 | `new` leaves a valid engine, idle, on a lattice of `2h + 1` by `2w + 1` slots |
| GridLoopEngine.GridLoop.JoinCorners | src/grid_loop/mod.rs:86-107 | the corner joins, the drain and the stop leave the engine valid and idle |
| GridLoopEngine.GridLoop.Height | src/grid_loop/mod.rs:114-119 | the lattice has `2 * height + 1` rows and `2 * width + 1` columns |
| GridLoopEngine.GridLoop.GetEdgeSafe | src/grid_loop/mod.rs:126-135 | the status at a position on the lattice, `Undecided` at a vertex or a cell, and `Blank` off the lattice |
| GridLoopEngine.IsVertex | src/grid_loop/mod.rs:139-141 | a vertex has both coordinates even, for any sign |
| GridLoopEngine.IsEdge | src/grid_loop/mod.rs:142-144 | on the lattice an edge is a position whose coordinates differ in parity; Rust's signed `%` also calls `(-1, 1)` an edge |
| GridLoopEngine.Rem2 | src/grid_loop/mod.rs:139-144 | `%` by 2 on `i32` is 0 for even numbers and takes the dividend's sign for odd ones |
| GridLoopEngine.GridLoop.NumDecidedEdges | src/grid_loop/mod.rs:145-147 | `decided_edge` is the number of decided edges |
| GridLoopEngine.GridLoop.NumDecidedLines | src/grid_loop/mod.rs:148-150 | `decided_line` is the number of line edges, and never exceeds `decided_edge` |
| GridLoopEngine.GridLoop.SetInconsistent | src/grid_loop/mod.rs:153-155 | sets the flag and changes nothing else |
| GridLoopEngine.GridLoop.DecideEdge | src/grid_loop/mod.rs:156-177 | off the lattice only a non-blank status is an inconsistency; a decided edge stays and a different status flags it; otherwise the edge ends up with the status or the field inconsistent, decisions only grow and chains only merge, and the queue is back in its old running state |
| GridLoopEngine.GridLoop.Check | src/grid_loop/mod.rs:178-186 | a position off the lattice changes nothing; with the queue running a position on it is queued once; with the queue idle it is inspected at once |
| GridLoopEngine.GridLoop.QueuePopAll | src/grid_loop/mod.rs:206-215 | pops until the queue is empty, inspecting each vertex popped; decisions only grow, chains only merge, and the loop ends because each round decides, merges or shortens the queue |
| GridLoopEngine.GridLoop.DecideEdgeInternal | src/grid_loop/mod.rs:216-229 | the same status changes nothing, another decided status flags the field, and an undecided edge has its whole chain painted with nothing else changed |
| GridLoopEngine.GridLoop.DecideChain | src/grid_loop/mod.rs:230-246 | paints exactly the chain of the edge and adds the chain's length to `decided_edge`, and to `decided_line` for `Line` |
| GridLoopEngine.PaintCycle | src/grid_loop/mod.rs:232-241 | the `chain_next` walk paints exactly the cycle from the edge and counts its length |
| GridLoopEngine.GridLoop.CheckNeighborhood | src/grid_loop/mod.rs:445-453 | the two end vertices of the edge are queued, and nothing else is |
| GridLoopEngine.GridLoop.Enqueue | src/grid_loop/mod.rs:178-183 | with the queue running, a position on the lattice is pushed by its slot and one off it is ignored |
| GridLoopEngine.GridLoop.CheckChainNeighborhood | src/grid_loop/mod.rs:247-257 | the end vertices of every edge of the chain are queued, and nothing queued before is lost |
| GridLoopEngine.GridLoop.HasFullySolved | src/grid_loop/mod.rs:258-268 | afterwards no edge is undecided, and only undecided edges changed, to blank |
| GridLoopEngine.NoneUndecided | src/grid_loop/mod.rs:258-268 | once every row is swept, no edge is left undecided |
| GridLoopEngine.GridLoop.Join | src/grid_loop/mod.rs:269-365 | without the guard nothing changes; with it, unless the field turns inconsistent, the two edges end up in one chain or both blank |
| GridLoopEngine.GridLoop.JoinAdopt | src/grid_loop/mod.rs:301-312 | the undecided chain takes the other's status first and the join is tried again |
| GridLoopEngine.GridLoop.JoinSame | src/grid_loop/mod.rs:319-364 | an undecided loop once a line exists makes both chains blank, a line loop short of every line is an inconsistency, and otherwise the chains are spliced |
| GridLoopEngine.GridLoop.CloseLoop | src/grid_loop/mod.rs:332-335 | a line loop holding every line sets `fully_solved` and leaves no edge undecided |
| GridLoopEngine.GridLoop.BlankPair | src/grid_loop/mod.rs:320-327 | both chains end up blank |
| GridLoopEngine.GridLoop.Splice | src/grid_loop/mod.rs:339-360 | the two chains become one, the table stays valid and no status changes |
| GridLoopEngine.GridLoop.SpliceAt | src/grid_loop/mod.rs:339-364 | after the splice the two edges share a chain and the new end vertices are queued |
| GridLoopEngine.Collect | src/grid_loop/mod.rs:367-381 | the line and undecided edges around the vertex, in the order `(1,0), (0,1), (-1,0), (0,-1)` |
| GridLoopEngine.VertexEdges | src/grid_loop/mod.rs:367-381 | the neighbours of a vertex are edges, each listed once |
| GridLoopEngine.AroundEdges | src/grid_loop/mod.rs:370-374 | every in-range neighbour of a vertex is an edge slot one step away, without repeats |
| GridLoopEngine.ScanFrom | src/grid_loop/mod.rs:403-418 | a ruled-out edge and a candidate are undecided chain ends at the vertex, and there is no candidate exactly when none ends there |
| GridLoopEngine.GridLoop.FindCandidate | src/grid_loop/mod.rs:403-418 | the loop computes the scan |
| GridLoopEngine.GridLoop.InspectVertex | src/grid_loop/mod.rs:366-434 | three lines flag the field; two make every undecided edge at the vertex decided; with one, the ruled-out edge becomes blank and no candidate flags the field; with none, a lone undecided edge becomes blank |
| GridLoopEngine.GridLoop.InspectTwo | src/grid_loop/mod.rs:388-394 | every undecided edge at the vertex ends up decided before the lines are joined |
| GridLoopEngine.GridLoop.InspectOne | src/grid_loop/mod.rs:396-425 | the ruled-out edge becomes blank and no candidate is an inconsistency |
| GridLoopEngine.GridLoop.InspectNone | src/grid_loop/mod.rs:427-433 | a lone undecided edge becomes blank |
| GridLoopEngine.GridLoop.BlankAll | src/grid_loop/mod.rs:389-391 | every listed edge ends up decided |
| GridLoopEngine.FixVec.constructor | src/grid_loop/mod.rs:502-507 | a new buffer holds nothing |
| GridLoopEngine.FixVec.Push | src/grid_loop/mod.rs:508-512 | appends the edge after those pushed before |
| GridLoopEngine.FixVec.Len | src/grid_loop/mod.rs:513-515 | the number of pushes |
| GridLoopEngine.FixVec.At | src/grid_loop/mod.rs:517-522 | entry `i` below the length is the `i`-th pushed edge |
| GridLoopLegacy.LegacyJoin | src/common/grid_loop.rs:233-329 | `join` of the older engine does nothing without the guard and otherwise splices as the newer one does |
| GridLoopLegacy.StaleCountAtEnd | src/common/grid_loop.rs:206-212 | started from an end of a chain, the older `decide_chain` adds the chain's length |
| GridLoopLegacy.StaleCountExample | src/common/grid_loop.rs:206-221 | after the older `new(1, 1)` edge 1 stores size 2 in a cycle of four edges, so deciding it counts two of the four |
| SlitherlinkGenerator.HasZeroNearby | src/slitherlink/generator.rs:145-155 | true exactly when some cell of the board in the 3x3 block around the position, the position included, holds `Clue(0)` |
| SlitherlinkGenerator.ClueCandidates | src/slitherlink/generator.rs:53-59 | the clues tried are exactly 0 (only when no zero is near) to 3, except the clue already there, in ascending order |
| SlitherlinkGenerator.HasUndecidedNearby | src/slitherlink/generator.rs:122-143 | true exactly when some edge position within Manhattan distance 7 of the cell's centre on the lattice is `Undecided`, positions off the lattice reading `Blank` |
| SlitherlinkGenerator.PosCandidates | src/slitherlink/generator.rs:36-44 | a position is a candidate exactly when the placement marks it and it has no clue yet or has an undecided edge near it |
| SlitherlinkGenerator.MainDiagonalCorners | src/slitherlink/generator.rs:182-189 | the first test of a 2 reads the two outer edges of its lower-right and of its upper-left corner |
| SlitherlinkGenerator.AntiDiagonalCorners | src/slitherlink/generator.rs:190-197 | the second test of a 2 reads the two outer edges of its upper-right and of its lower-left corner |
| SlitherlinkGenerator.CornerStep | src/slitherlink/generator.rs:202-213 | step `d` of the corner loop reads the outer edges of the corner between sides `d` and `d + 1` and counts it as blank or entered |
| SlitherlinkGenerator.CheckZeroBlocked | src/slitherlink/generator.rs:166-175 | true exactly when the cell is marked, has no clue, has a zero near it and all four of its sides are blank |
| SlitherlinkGenerator.CheckIsolated | src/slitherlink/generator.rs:176-179 | true exactly when no orthogonal neighbour on the board holds a clue |
| SlitherlinkGenerator.CheckTwo | src/slitherlink/generator.rs:181-197 | true exactly when the outer edges of two opposite corners are all blank |
| SlitherlinkGenerator.CheckCorners | src/slitherlink/generator.rs:199-217 | true exactly when at least one corner has one blank and one line edge leaving it and at least two corners have both blank |
| SlitherlinkGenerator.CellProhibited | src/slitherlink/generator.rs:166-218 | a cell is counted exactly when it is `ZeroBlocked`, or has no clue beside it and is a 2 with two blank opposite corners or is clueless with an entered corner and two blank ones |
| SlitherlinkGenerator.RowPatterns | src/slitherlink/generator.rs:165-219 | the prohibited cells among the first `k` cells of a row are at most `k` |
| SlitherlinkGenerator.RowStep | src/slitherlink/generator.rs:165-219 | each cell of the row adds one to the count exactly when it shows a prohibited pattern |
| SlitherlinkGenerator.PatternsAbove | src/slitherlink/generator.rs:164-220 | the prohibited cells of the first `r` rows are at most the cells of those rows |
| SlitherlinkGenerator.CountRow | src/slitherlink/generator.rs:165-219 | the inner loop counts the prohibited cells of its row |
| SlitherlinkGenerator.CountProhibited | src/slitherlink/generator.rs:156-222 | the count is the number of cells of the board showing a prohibited pattern |
| SlitherlinkGenerator.Unplaced | src/slitherlink/generator.rs:24-31 | the marked cells without a clue are at most the cells |
| SlitherlinkGenerator.UnplacedInit | src/slitherlink/generator.rs:20-31 | on the empty problem every marked cell is unplaced |
| SlitherlinkGenerator.UnplacedSet | src/slitherlink/generator.rs:99-101 | writing a clue where none was lowers the count by one, rewriting a clue leaves it |
| SlitherlinkGenerator.UnplacedZero | src/slitherlink/generator.rs:103 | a count of zero means every marked cell holds a clue |
| SlitherlinkGenerator.CountPlacement | src/slitherlink/generator.rs:24-31 | `unplaced_clues` starts as the number of marked cells |
| SlitherlinkGenerator.ZerosKept | src/slitherlink/generator.rs:51-59 | a zero put only where no zero is near keeps every two touching cells from both being zero |
| SlitherlinkGenerator.PlaceKeeps | src/slitherlink/generator.rs:72-101 | a candidate clue at a candidate position keeps clues on marked cells, each 0 to 3, no touching zeros, and the unplaced count right |
| SlitherlinkGenerator.FinishedMatchesPlacement | src/slitherlink/generator.rs:103-104 | with nothing left to place the problem holds a clue exactly on the marked cells, each 0 to 3 |
| SlitherlinkGenerator.InitialSearch | src/slitherlink/generator.rs:20-33 | the empty problem satisfies the search invariant with every marked cell unplaced |
| SlitherlinkGenerator.TryPosition | src/slitherlink/generator.rs:50-115 | keeps the invariant; when no clue is accepted nothing changes; an accepted clue is a candidate written at the position and nothing else; solved only with nothing left to place |
| SlitherlinkGenerator.GenerateRound | src/slitherlink/generator.rs:36-116 | keeps the invariant; an update writes one marked cell; without one nothing changes |
| SlitherlinkGenerator.Generate | src/slitherlink/generator.rs:15-120 | a returned problem has the placement's size, a clue exactly on the marked cells, each from 0 to 3, and no two touching zeros |
| SlitherlinkPlacement.Normalise | src/slitherlink/generator.rs:228-229 | a quarter turn is kept only on a square board and brings the half turn; the mirrors are kept |
| SlitherlinkPlacement.NormaliseProjects | src/slitherlink/generator.rs:228-229 | normalising is idempotent and leaves a normalised symmetry alone |
| SlitherlinkPlacement.MovesAre | src/slitherlink/generator.rs:297-308 | the recursive calls of `update_grp` go to the quarter turn, or else the half turn, and to the two mirror images, each when its flag is set |
| SlitherlinkPlacement.MovesInBoard | src/slitherlink/generator.rs:297-308 | under a normalised symmetry every recursive call stays on the board |
| SlitherlinkPlacement.ReachRefl | src/slitherlink/generator.rs:291-309 | a cell is in its own orbit |
| SlitherlinkPlacement.ReachMove | src/slitherlink/generator.rs:297-308 | a move of a cell is in its orbit |
| SlitherlinkPlacement.ReachTrans | src/slitherlink/generator.rs:291-309 | the orbit relation is transitive |
| SlitherlinkPlacement.ReachInClosed | src/slitherlink/generator.rs:291-309 | a set closed under the moves holds the orbit of each of its cells |
| SlitherlinkPlacement.PathInBoard | src/slitherlink/generator.rs:291-309 | the orbit of a cell of the board stays on the board |
| SlitherlinkPlacement.InverseMarked | src/slitherlink/generator.rs:297-308 | every move is undone by moves, so in a closed marking a cell is marked when its move is |
| SlitherlinkPlacement.FreshTrans | src/slitherlink/generator.rs:291-296 | cells newly marked in two growths were unmarked at the start, and the two lists share no cell |
| SlitherlinkPlacement.CoversTrans | src/slitherlink/generator.rs:291-296 | every cell marked by two growths is in one of their lists |
| SlitherlinkPlacement.MarkedTrans | src/slitherlink/generator.rs:297-308 | the moves of listed cells stay marked after a further growth |
| SlitherlinkPlacement.OrbitTrans | src/slitherlink/generator.rs:297-308 | a growth from a cell of the orbit adds only cells of the orbit |
| SlitherlinkPlacement.GrewTrans | src/slitherlink/generator.rs:297-308 | two growths in a row, the second from a move of the first's root, are one growth |
| SlitherlinkPlacement.GrewStart | src/slitherlink/generator.rs:294-296 | marking the unmarked cell and pushing it starts a growth |
| SlitherlinkPlacement.GrewClose | src/slitherlink/generator.rs:297-308 | once every move of the root is marked, no listed cell has an unmarked move |
| SlitherlinkPlacement.UpdateGrp | src/slitherlink/generator.rs:291-309 | `update_grp` only marks cells, appends each newly marked cell to `sto` once, in the orbit of the start cell with its moves marked, starting with that cell when it was unmarked |
| SlitherlinkPlacement.Visit | src/slitherlink/generator.rs:297-308 | one recursive call continues the growth and marks its target |
| SlitherlinkPlacement.UnmarkedClosed | src/slitherlink/generator.rs:236-243 | in a closed marking the unmarked cells are closed under the moves too |
| SlitherlinkPlacement.ClosedGrowth | src/slitherlink/generator.rs:236-243 | a growth whose listed cells have their moves marked keeps a marking closed |
| SlitherlinkPlacement.ReachedAdded | src/slitherlink/generator.rs:236-243 | a cell of the orbit of the start cell is among the cells `update_grp` pushed |
| SlitherlinkPlacement.OrbitExact | src/slitherlink/generator.rs:236-243 | from an unmarked cell of a closed marking, `sto` is exactly the orbit of that cell, and the marking stays closed |
| SlitherlinkPlacement.PartStart | src/slitherlink/generator.rs:231-234 | the all-false `grp_ids` with no groups starts the partition |
| SlitherlinkPlacement.PartMembers | src/slitherlink/generator.rs:238-241 | after pushing `sto`, the marked cells are exactly those of some group |
| SlitherlinkPlacement.PartMember | src/slitherlink/generator.rs:238-241 | the same for one cell |
| SlitherlinkPlacement.PartDisjoint | src/slitherlink/generator.rs:238-241 | a group of previously unmarked cells keeps the groups disjoint |
| SlitherlinkPlacement.PartStep | src/slitherlink/generator.rs:238-241 | one `update_grp` call from an unmarked cell extends the partition by its orbit |
| SlitherlinkPlacement.Orbits | src/slitherlink/generator.rs:224-244 | `clue_positions` is a partition of the board into disjoint orbits of the normalised symmetry, each listed once from its first cell |
| SlitherlinkPlacement.OrbitsRow | src/slitherlink/generator.rs:237-243 | one row of the scan keeps the groups a disjoint partition into orbits of the marked cells, and leaves every cell of the row marked |
| SlitherlinkPlacement.SwapRemove | src/slitherlink/generator.rs:280 | `swap_remove(i)` puts the last element at `i` and drops one |
| SlitherlinkPlacement.SwapRemoveMultiset | src/slitherlink/generator.rs:280 | `swap_remove(i)` removes exactly element `i`, as a multiset |
| SlitherlinkPlacement.OrbitClosed | src/slitherlink/generator.rs:276-280 | the moves of a cell of an orbit stay in the orbit |
| SlitherlinkPlacement.InSomeSwap | src/slitherlink/generator.rs:280 | after `swap_remove(i)` a cell lies in a remaining group exactly when it lay in one other than group `i` |
| SlitherlinkPlacement.SwapKeeps | src/slitherlink/generator.rs:280 | the remaining groups stay disjoint orbits |
| SlitherlinkPlacement.MarkGroup | src/slitherlink/generator.rs:276-279 | marks exactly the cells of the group, raising the marked count by its size and lowering `num_clues` by the same |
| SlitherlinkPlacement.SelStep | src/slitherlink/generator.rs:276-280 | marking a whole group and removing it keeps the marking closed and the marked cells exactly those of no remaining group |
| SlitherlinkPlacement.GroupUnmarked | src/slitherlink/generator.rs:276-279 | the cells of a remaining group are on the board, unmarked, and listed once |
| SlitherlinkPlacement.SelStart | src/slitherlink/generator.rs:246 | the empty placement with all orbits remaining starts the selection |
| SlitherlinkPlacement.AllMarked | src/slitherlink/generator.rs:247 | with no group left every cell is marked |
| SlitherlinkPlacement.GeneratePlacement | src/slitherlink/generator.rs:224-289 | the placement is closed under the normalised symmetry, holds at least `num_clues` cells unless it is the whole board, and is empty when `num_clues <= 0` |
| NurimisakiBase.CellClasses | src/nurimisaki/mod.rs:14-25 | a cape is white-like; black and undecided cells are neither white-like nor capes |
| DecidedGrid.CountOf | src/nurimisaki/field.rs:9 | the number of entries equal to a value is at most the length |
| DecidedGrid.CountOfUpdate | src/nurimisaki/field.rs:71-72 | writing one entry changes the count by what it removed and what it wrote |
| DecidedGrid.CountOfAll | src/nurimisaki/field.rs:17 | a grid filled with one value counts all its entries |
| DecidedGrid.CountOfNone | src/nurimisaki/field.rs:52-54 | the count is zero exactly when no entry holds the value |
| DecidedGrid.CountMono | src/nurimisaki/field.rs:58-78 | deciding entries never raises the undecided count, and keeps it only when nothing changed |
| DecidedGrid.SettledRefl | src/nurimisaki/field.rs:58-78 | a grid follows itself |
| DecidedGrid.SettledTrans | src/nurimisaki/field.rs:58-78 | following is transitive along a chain of calls |
| DecidedGrid.SettledAt | src/nurimisaki/field.rs:58-69 | a decided cell keeps its value in every later grid |
| DecidedGrid.SettledCount | src/nurimisaki/field.rs:58-78 | a later grid has no more undecided cells, and as many only when it is the same grid |
| DecidedGrid.SetDecides | src/nurimisaki/field.rs:71-72 | writing an undecided cell keeps the others, leaves one undecided cell fewer, and reads back the value |
| NurimisakiState.ProgressRefl | src/nurimisaki/field.rs:58-78 | a state follows itself |
| NurimisakiState.ProgressTrans | src/nurimisaki/field.rs:58-78 | decided cells and the `inconsistent` flag are kept along any chain of calls |
| NurimisakiState.SegmentValid | src/nurimisaki/field.rs:293-299 | with the cape and the far end on the board, every cell between them is too |
| NurimisakiState.AcceptsMeets | src/nurimisaki/field.rs:61-67 | on a decided cell, `decide_cell` accepts black on black, white on white or on a cape, and clashes on anything else |
| NurimisakiState.MeetsKept | src/nurimisaki/field.rs:58-78 | a cell that is black (white-like) stays so |
| NurimisakiState.Keeps | src/nurimisaki/field.rs:58-69 | a decided cell keeps its value |
| NurimisakiState.BlackOrOutsideKept | src/nurimisaki/field.rs:184-186 | a black or outside cell stays black or outside |
| NurimisakiState.BlockCellValid | src/nurimisaki/field.rs:155-159 | the four cells of a block that passes the range test are on the board |
| NurimisakiState.BlockCounts | src/nurimisaki/field.rs:160-168 | the black and white-like cells of a block number at most its size |
| NurimisakiState.OneUndecided | src/nurimisaki/field.rs:170-182 | a block with three decided cells has exactly one undecided cell, so the rule decides that one only |
| NurimisakiState.BadKept | src/nurimisaki/field.rs:258-285 | a bad direction stays bad as cells get decided |
| NurimisakiState.DirectionKept | src/nurimisaki/field.rs:286-304 | a decided cape direction stays decided |
| NurimisakiState.FirstWhite | src/nurimisaki/field.rs:307-313 | a direction found leads to a white neighbour on the board |
| NurimisakiState.GoodCount | src/nurimisaki/field.rs:317-326 | the good directions among the first `k` number at most `k` |
| NurimisakiState.OnlyGoodCount | src/nurimisaki/field.rs:317-329 | with exactly one good direction, the count is one once it passes it |
| NurimisakiState.NoGoodCount | src/nurimisaki/field.rs:317-332 | with every direction bad, the count is zero |
| NurimisakiState.BlackenedStep | src/nurimisaki/field.rs:317-326 | scanning one more direction blackens it when it is bad and keeps the earlier ones black |
| NurimisakiState.AroundCounts | src/nurimisaki/field.rs:339-351 | the white-like and undecided neighbours number at most the neighbours scanned |
| NurimisakiState.OthersBlackKept | src/nurimisaki/field.rs:187-197 | three partners black or outside stay so |
| NurimisakiState.AvoidedKept | src/nurimisaki/field.rs:187-206 | a cup pattern avoided stays avoided as the propagation goes on |
| NurimisakiState.AvoidedFrom | src/nurimisaki/field.rs:187-206 | a pattern avoided from a later state is avoided from every earlier one |
| NurimisakiState.CupPattern | src/nurimisaki/field.rs:219-254 | each cup pattern has four cells |
| NurimisakiField.Field.constructor | src/nurimisaki/field.rs:14-36 | every number becomes a cape of that number and every other cell is undecided; the decided count is the number of capes; the field is consistent |
| NurimisakiField.InitialCells | src/nurimisaki/field.rs:17-29 | the row-by-row loops give each cell the cape of its number or undecided, and count the numbers |
| NurimisakiField.InitData | src/nurimisaki/field.rs:20-29 | the cells after some slots keep the problem's length |
| NurimisakiField.InitStep | src/nurimisaki/field.rs:24-27 | one slot of the loop writes the cape of a number and nothing for an empty entry |
| NurimisakiField.CountSnoc | src/nurimisaki/field.rs:24-27 | counting one more entry adds one exactly when it matches |
| NurimisakiField.CountMatch | src/nurimisaki/field.rs:24-27 | the undecided cells are as many as the empty entries, so `decided_cells` counts the capes |
| NurimisakiField.Field.FullySolved | src/nurimisaki/field.rs:52-54 | `decided_cells == height * width` exactly when no cell is undecided |
| NurimisakiField.Field.DecideCell | src/nurimisaki/field.rs:58-78 | a decided cell only sets `inconsistent` when the value clashes; an undecided cell takes the value and is counted; the cell satisfies the value while consistent; the field only moves forward |
| NurimisakiField.Field.AvoidCluster | src/nurimisaki/field.rs:153-183 | a block off the board or not three of a kind is left alone; three black cells make the fourth white, three white-like cells make it black |
| NurimisakiField.Field.CountBlock | src/nurimisaki/field.rs:159-168 | the counts are those of the block's cells |
| NurimisakiField.Field.FillBlock | src/nurimisaki/field.rs:170-182 | the block's undecided cell takes the forced value |
| NurimisakiField.Field.IsBadCapeDirection | src/nurimisaki/field.rs:258-285 | the result is exactly `BadDirection`: the neighbour black or outside for `n <= 0`, otherwise the far end outside, a white-like cell past it, or a black cell or foreign cape on the way |
| NurimisakiField.Field.DecideCapeDirection | src/nurimisaki/field.rs:286-304 | a far end off the board is a contradiction; otherwise the other neighbours are black, the cape's arm white and the cell past it black |
| NurimisakiField.Field.BlackenOthers | src/nurimisaki/field.rs:287-291 | every other in-grid neighbour is black |
| NurimisakiField.Field.WhitenRun | src/nurimisaki/field.rs:297-299 | cells 1 to `n - 1` along the direction are white-like |
| NurimisakiField.Field.InspectClue | src/nurimisaki/field.rs:305-334 | a white neighbour fixes the direction; otherwise bad directions are blackened, no good direction is a contradiction and a single one is taken |
| NurimisakiField.Field.FindWhite | src/nurimisaki/field.rs:307-313 | the first in-grid white neighbour, in the scan order |
| NurimisakiField.Field.ScanDirections | src/nurimisaki/field.rs:315-326 | the count of good directions and the last one found, with every bad direction's neighbour black |
| NurimisakiField.ClueSteps | src/nurimisaki/field.rs:315-333 | the scan and the final decision together give the clue rule |
| NurimisakiField.Field.Inspect | src/nurimisaki/field.rs:335-369 | a cape is inspected as a clue; a cell with at most one neighbour that can be white becomes black (or the field is inconsistent); for a white cell with exactly two, no neighbour is left undecided and the first one undecided in scan order is white; otherwise nothing changes |
| NurimisakiField.Field.CountAround | src/nurimisaki/field.rs:339-351 | the white-like and undecided in-grid neighbours |
| NurimisakiField.Field.WhitenAround | src/nurimisaki/field.rs:355-364 | no in-grid neighbour is left undecided, and the first neighbour (in the order of `FOUR_NEIGHBOURS`) that was undecided at the start ends white |
| NurimisakiField.Field.WhitenStep | src/nurimisaki/field.rs:357-363 | one neighbour of the sweep: it is decided if it was undecided, the neighbours already swept stay decided, and until the first undecided neighbour is reached the cells are untouched |
| NurimisakiField.Field.InspectAllCell | src/nurimisaki/field.rs:79-88 | inspecting every cell only moves the field forward |
| NurimisakiField.Field.AvoidForbiddenPatternSimple | src/nurimisaki/field.rs:207-257 | the cup sweep only moves the field forward |
| NurimisakiField.Field.CupAt | src/nurimisaki/field.rs:213-255 | every cup pattern that applies at the cell is avoided, and nothing changes when none applies |
| NurimisakiField.Field.TryCup | src/nurimisaki/field.rs:219-253 | one more pattern avoided, the earlier ones kept |
| NurimisakiField.Field.SingleForbiddenPattern | src/nurimisaki/field.rs:187-206 | a cell whose three partners are black or outside becomes white, or the field inconsistent when it is off the board |
| NurimisakiField.Field.AllOthersBlack | src/nurimisaki/field.rs:189-197 | the flag is exactly "the three partners are black or outside" |
| YajilinBase.SameShapeArrow | src/yajilin/mod.rs:16-24 | `same_shape` holds exactly for two arrows in one direction, is symmetric, and never holds for `NoClue` or `Empty` |
| YajilinBase.ClueNumberArrow | src/yajilin/mod.rs:25-30 | an arrow's number is its field; `NoClue` and `Empty` read -1 |
| YajilinGenerator.ArrowClue | src/yajilin/generator.rs:28-39 | the pushed clue `Up(i)`, `Left(i)`, `Down(i)` or `Right(i)` has the loop's direction and number |
| YajilinGenerator.ArrowClueUnique | src/yajilin/generator.rs:28-39 | an arrow clue is determined by its direction and number, so each loop pushes each clue once |
| YajilinGenerator.MaxBlocksHalf | src/yajilin/generator.rs:28-39 | a row of `n` cells with no two blocked cells touching holds at most ⌈n/2⌉ blocked cells |
| YajilinGenerator.NumberBoundIsMax | src/yajilin/generator.rs:28-39 | the candidate numbers of each arrow run from 1 to the most blocked cells the cells it sees can hold |
| YajilinGenerator.DownBoundShort | src/yajilin/generator.rs:34-36 | as written, the Down loop's bound is one short of that maximum while the other three are exact |
| YajilinGenerator.DownBoundExample | src/yajilin/generator.rs:34-36 | on a 3x1 board `Down(1)` is never offered at the top cell, though `Up(1)` is offered at the bottom one |
| YajilinGenerator.ArrowCandidates | src/yajilin/generator.rs:28-39 | one arrow loop pushes exactly the arrows in its direction with numbers from 1 below the bound |
| YajilinGenerator.CellCandidates | src/yajilin/generator.rs:27-43 | the candidates of one cell are exactly its in-range arrows, and removing its clue when it has one |
| YajilinGenerator.UpdateCandidates | src/yajilin/generator.rs:24-43 | the candidate list holds exactly the in-range arrows of every cell and the removal of every clue |
| YajilinGenerator.OpenAround | src/yajilin/generator.rs:105-111 | counts the in-grid neighbours without a clue, at most the number looked at |
| YajilinGenerator.DeadEndPairs | src/yajilin/generator.rs:101-112 | at most one open neighbour means no two distinct neighbours are both open; a cell off the board is never a dead end |
| YajilinGenerator.IsDeadEnd | src/yajilin/generator.rs:101-112 | `is_dead_end` is false off the board, and on it holds exactly when at most one neighbour is on the board without a clue |
| YajilinGenerator.HasDeadEndNearby | src/yajilin/generator.rs:94-100 | holds exactly when `loc` or one of its four neighbours is a dead end |
| YajilinGenerator.EmptyNoDeadEnd | src/yajilin/generator.rs:101-112 | a clueless board at least 2x2 has no dead end |
| YajilinGenerator.DeadEndLocal | src/yajilin/generator.rs:94-100 | rewriting one cell's mark cannot change whether a cell more than one step away is a dead end |
| YajilinGenerator.NoDeadEndKept | src/yajilin/generator.rs:51-55 | a write that passes the nearby check keeps a board without dead ends free of them |
| YajilinGenerator.ClueMask | src/yajilin/generator.rs:51-55 | `has_clue` marks exactly the cells holding a clue |
| YajilinGenerator.ClueMaskSet | src/yajilin/generator.rs:51-55 | writing a clue writes its mark, and the mark of a cell is whether it holds a clue |
| YajilinGenerator.ClueCountSet | src/yajilin/generator.rs:62-63 | `new_n_clues` is `n_clues`, less one if a clue was removed, plus one if one was put in |
| YajilinGenerator.WellCluedSet | src/yajilin/generator.rs:57 | putting in a candidate keeps every clue an in-range arrow |
| YajilinGenerator.SetBack | src/yajilin/generator.rs:78-80 | writing back the previous value restores the grid |
| YajilinGenerator.TryCandidate | src/yajilin/generator.rs:49-81 | a rejected candidate, through a dead end, a contradiction or the draw, leaves `problem`, `has_clue` and `n_clues` as they were. An accepted one is put in without contradiction, with the score `decided edges - 25 * n_clues` above the current one or passing the draw, and with no dead end near it when they are disallowed. Both keep `has_clue` and `n_clues` in step with the problem |
| YajilinGenerator.RunRound | src/yajilin/generator.rs:47-86 | a round that accepts nothing leaves the state as it was; otherwise the state is one candidate applied, with its score, and `solved` means the solver decided everything |
| YajilinGenerator.InitialState | src/yajilin/generator.rs:15-21 | the empty problem, the empty mask and `n_clues = 0` satisfy the bookkeeping invariant |
| YajilinGenerator.GenerateRound | src/yajilin/generator.rs:24-86 | a round keeps the invariant and no-dead-end, and reports solved only for a consistent, fully solved problem |
| YajilinGenerator.Generate | src/yajilin/generator.rs:9-92 | a returned problem has the board's size, was fully solved by the solver without contradiction, holds only in-range arrows, and has no dead end when dead ends are disallowed and the empty board has none |
| NumberlinkBase.LinePlacement.constructor | src/numberlink/mod.rs:19-24 | `new(h, w)`: an all-false `h x (w - 1)` right grid and `(h - 1) x w` down grid |
| NumberlinkBase.LinePlacement.Right | src/numberlink/mod.rs:25-27 | `right(cd)` is false outside the grid |
| NumberlinkBase.LinePlacement.Down | src/numberlink/mod.rs:31-33 | `down(cd)` is false outside the grid |
| NumberlinkBase.LinePlacement.SetRight | src/numberlink/mod.rs:28-30 | `set_right` writes slot `y * (width - 1) + x`, and changes no other edge |
| NumberlinkBase.LinePlacement.SetDown | src/numberlink/mod.rs:34-36 | `set_down` writes one slot of the down grid, and changes no other edge |
| JsBridge.ToByte | src/js/mod.rs:33 | `val.0 as u8` keeps a clue of 0 to 255 and otherwise agrees with it modulo 256 |
| JsBridge.ProblemBytes | src/js/mod.rs:30-35 | one byte per cell, in row-major order |
| JsBridge.Filled | src/js/mod.rs:30-35 | the shared array after the first `limit` cells are written: their bytes first, the old contents after |
| JsBridge.FilledStep | src/js/mod.rs:33 | writing one more cell is a single-slot update of the array |
| JsBridge.WriteProblem | src/js/mod.rs:29-36 | the copy loop succeeds exactly when `height * width` fits the 65536-byte array (it panics otherwise), and then the array holds the problem's bytes in front of its old contents |
| JsBridge.WriteRow | src/js/mod.rs:31-34 | one row of the copy loop writes that row's `width` bytes, or panics when they pass the end of the array |
| JsBridge.FirstAccepted | src/js/mod.rs:19-28 | the round chosen is accepted and no earlier one is; none is chosen exactly when no round is accepted |
| JsBridge.NumberlinkGenerate | src/js/mod.rs:7-41 | the loop goes on exactly when no round is accepted; otherwise it writes the first accepted round's problem and returns offset 0, or panics when the problem does not fit the array |
| JsBridge.Reshape | wasm-bridge/bridge.js:30-36 | `height` rows of `width` entries each |
| JsBridge.View | wasm-bridge/bridge.js:27 | the `Uint8Array` view exists exactly when `height * width` bytes from the address lie inside the memory, and then it has that many bytes |
| JsBridge.GenerateNumberlink | wasm-bridge/bridge.js:23-43 | throws exactly when the view does not fit; otherwise returns the arguments and the view read row by row into `board[y][x]` |
| JsBridge.RowEntry | wasm-bridge/bridge.js:33 | the inner loop's read `problemData[y * width + x]` lies inside the view and is entry `x` of row `y` |
| JsBridge.FlattenLength | wasm-bridge/bridge.js:30-36 | `height` rows of `width` entries flatten to `height * width` entries |
| JsBridge.FlattenEntry | wasm-bridge/bridge.js:33 | entry `(y, x)` of the rows is entry `y * width + x` once flattened |
| JsBridge.FlattenReshape | wasm-bridge/bridge.js:30-36 | reading the view into rows and flattening them gives the view back |
| JsBridge.ReshapeFlatten | wasm-bridge/bridge.js:30-36 | flattening rows of equal width and reading them back gives the rows |
| JsBridge.BridgeRoundTrip | src/js/mod.rs:30-36 | after the Rust side writes a problem, the JavaScript side reads a board of the problem's size whose entry `(y, x)` is the low byte of cell `(y, x)`, and which flattens to exactly the bytes written |
| NumberlinkFrontier.Internal | src/numberlink/solver.rs:17-24 | a clue becomes a value below -1 (never a closed end or a column), an empty cell 0 |
| NumberlinkFrontier.InternalInjective | src/numberlink/solver.rs:17-24 | distinct clues keep distinct internal values |
| NumberlinkFrontier.Joined | src/numberlink/solver.rs:134-166 | `join` keeps the frontier's length |
| NumberlinkFrontier.Join | src/numberlink/solver.rs:134-166 | `join` reports an inconsistency exactly when an end is closed, two different numbers meet, or two ends of one chain close a loop, and leaves the frontier `Joined` describes |
| NumberlinkFrontier.JoinPaired | src/numberlink/solver.rs:134-166 | a consistent join keeps the ends paired and links the far ends of the two chains, and changes no other column |
| NumberlinkFrontier.ForgetPaired | src/numberlink/solver.rs:170-172 | when `forget` finds no inconsistency the column's end has no partner elsewhere, so replacing it by a fresh end or a number keeps the ends paired |
| NumberlinkFrontier.Connected | src/numberlink/solver.rs:176-190 | `connect_to_number` keeps the frontier's length |
| NumberlinkFrontier.ConnectToNumber | src/numberlink/solver.rs:176-190 | `connect_to_number` reports an inconsistency exactly when the end is closed or already leads to another number, and leaves the frontier `Connected` describes |
| NumberlinkFrontier.ConnectPaired | src/numberlink/solver.rs:176-190 | a consistent connection closes the end, hands the number to its partner column, keeps the ends paired, and changes no other column |
| NumberlinkFrontier.StepsInRange | src/numberlink/solver.rs:134-190 | joining and connecting never write a column index outside the frontier |
| NumberlinkSolver.RunLength | src/numberlink/solver.rs:84-87 | the run length counted by the `while` loop is at least where it started |
| NumberlinkSolver.CheckUTurn | src/numberlink/solver.rs:83-100 | the loops report the last forbidden pattern exactly when `UTurn` holds: a line comes down into the cell from a run of `right` segments above, entered from above at its left end, with no `right` segment and no clue below the run |
| NumberlinkSolver.CloneFrontier | src/numberlink/solver.rs:56 | `frontier.clone()` is a fresh array with the frontier's contents |
| NumberlinkSolver.Search | src/numberlink/solver.rs:37-130 | keeps every answer recorded before, adds only answers in which every cell has degree 0 or 2, and leaves the placement as it found it |
| NumberlinkSolver.Branch | src/numberlink/solver.rs:45-129 | one `(h, v)` choice keeps those three guarantees, whichever `continue` it takes |
| NumberlinkSolver.FrontierStep | src/numberlink/solver.rs:102-120 | a step that does not fail leaves a frontier of the same width whose columns stay in range, and keeps paired ends paired |
| NumberlinkSolver.Descend | src/numberlink/solver.rs:122-129 | placing the cell's segments, searching on and taking them back keeps the three guarantees of `Search` |
| NumberlinkSolver.WithEdge | src/numberlink/mod.rs:28-36 | writing one edge keeps the shape of the segment grid |
| NumberlinkSolver.Placed | src/numberlink/solver.rs:122-123 | placing an edge or not keeps the shape of the segment grid |
| NumberlinkSolver.WithEdgeAt | src/numberlink/mod.rs:28-36 | writing one edge changes that edge and no other |
| NumberlinkSolver.PlacedAt | src/numberlink/solver.rs:122-123 | placing a missing edge changes that edge and no other |
| NumberlinkSolver.WithEdgeUndo | src/numberlink/solver.rs:127-128 | clearing an edge just placed gives back the grid from before |
| NumberlinkSolver.Place | src/numberlink/solver.rs:122-123 | the placement gains the cell's `right` segment when `h` holds and its `down` segment when `v` holds |
| NumberlinkSolver.Unplace | src/numberlink/solver.rs:127-128 | clearing those segments restores both grids from before the placement |
| NumberlinkSolver.DegreeKept | src/numberlink/solver.rs:122-123 | placing the cell's segments leaves every earlier cell's degree unchanged |
| NumberlinkSolver.DegreeHere | src/numberlink/solver.rs:48-53 | once the segments are placed, the cell's degree is the `deg` the search computed |
| NumberlinkSolver.DegreeAfter | src/numberlink/solver.rs:48-54 | when `deg` is 0 or 2, placing the segments extends both search invariants to the next cell |
| NumberlinkSolver.BuildInternal | src/numberlink/solver.rs:16-24 | `internal_problem` holds `-c - 1` for a clue `c > 0` and 0 elsewhere |
| NumberlinkSolver.BuildRow | src/numberlink/solver.rs:18-23 | one row of that loop fills that row's slots and no later ones |
| NumberlinkSolver.InitialFrontier | src/numberlink/solver.rs:26-29 | one entry per column: the column itself under an empty cell, the internal value of its clue under a clue; with no negative clue in the top row the ends are paired |
| NumberlinkSolver.Solve | src/numberlink/solver.rs:13-35 | answers exactly when both dimensions are at least 1 (it panics otherwise), and each answer is a complete placement of the internal problem |
| NumberlinkSolver.CompleteDegrees | src/numberlink/solver.rs:48-54 | in a complete answer, a number cell ends exactly one segment, and any other cell has 0 or 2 |
| NumberlinkHistory.EdgeAt | src/numberlink/solver2.rs:54-60 | an edge outside the grid reads Blank, so only an edge inside the grid is Line or Undecided |
| NumberlinkHistory.EndsInBoard | src/numberlink/solver2.rs:116-128 | an edge inside the grid joins two distinct cells of the board: left and right for an even row, top and bottom for an odd one |
| NumberlinkHistory.AroundIsEdge | src/numberlink/solver2.rs:263-273 | each of the four sides `inspect` looks at is an edge position |
| NumberlinkHistory.SideCountOne | src/numberlink/solver2.rs:266-273 | a side in the counted state is counted |
| NumberlinkHistory.SideCountMono | src/numberlink/solver2.rs:266-273 | counting more of the sides never counts fewer |
| NumberlinkHistory.EdgeKept | src/numberlink/solver2.rs:107-114 | an edge once decided keeps its state through any later run of decisions |
| NumberlinkHistory.UnwindAgree | src/numberlink/solver2.rs:94-103 | undoing the same entries from two agreeing states gives agreeing states |
| NumberlinkHistory.UnwindSplit | src/numberlink/solver2.rs:94-103 | undoing down to an earlier mark is undoing down to a later mark and then on |
| NumberlinkHistory.RevertsRefl | src/numberlink/solver2.rs:94-103 | undoing nothing reverts a state to itself |
| NumberlinkHistory.RevertsTrans | src/numberlink/solver2.rs:94-103 | two stretches whose changes were all logged make one such stretch |
| NumberlinkHistory.RevertsAgree | src/numberlink/solver2.rs:94-103 | a state that agrees with a reverting one reverts too |
| NumberlinkHistory.RevertsPush | src/numberlink/solver2.rs:81-88 | a write logged by an entry that undoes it keeps the stretch revertible |
| NumberlinkHistory.RevertsUnlogged | src/numberlink/solver2.rs:108-111 | the flag set without a log entry keeps the stretch revertible up to the flag |
| NumberlinkHistory.UndoAnotherEnd | src/numberlink/solver2.rs:85-88 | `update_another_end` logs the old value, so undoing its entry restores the table |
| NumberlinkHistory.UndoEdge | src/numberlink/solver2.rs:175-177 | undoing the `Edge` entry of a newly decided edge restores it to Undecided |
| NumberlinkHistory.RollbackToCheckpoint | src/numberlink/solver2.rs:94-103 | after a checkpoint and entries without one, `rollback` undoes exactly those entries, latest first, and pops the checkpoint |
| NumberlinkHistory.CheckpointRestores | src/numberlink/solver2.rs:90-103 | `add_checkpoint`, fully logged changes, then `rollback`: the log is as before the checkpoint, and the table and edges are as they were there |
| NumberlinkHistory.StepRefl | src/numberlink/solver2.rs:106-114 | doing nothing is a stretch of forward work |
| NumberlinkHistory.StepTrans | src/numberlink/solver2.rs:106-257 | two stretches of forward work make one: the log only grows, with no checkpoint, every change is logged, decided edges stay |
| NumberlinkHistory.StepLogged | src/numberlink/solver2.rs:85-88 | a write logged by an entry that undoes it is a stretch of forward work |
| NumberlinkHistory.StepUnlogged | src/numberlink/solver2.rs:108-111 | setting the flag without a log entry is a stretch of forward work |
| NumberlinkHistory.LinkedPaired | src/numberlink/solver2.rs:131-173 | a Line that passes the guards keeps every non-negative entry pointing at an end that points back |
| NumberlinkHistory.LinkedEnds | src/numberlink/solver2.rs:139-172 | a Line closes two clue ends; otherwise each far end of an empty chain learns the far end at the other side, the two cells are closed unless a cell is a chain on its own, and no other entry changes |
| NumberlinkHistory.InitialPaired | src/numberlink/solver2.rs:34-45 | the table of a new field, with non-negative clues, keeps the partner invariant |
| NumberlinkHistory.SideCountFour | src/numberlink/solver2.rs:264-273 | counting all four sides in a state counts the side below, right, above and left of the cell |
| NumberlinkHistory.SideEnds | src/numberlink/solver2.rs:116-128 | the side below or right of a cell has the cell as its first end, the side above or left as its second |
| NumberlinkHistory.WrittenDegrees | src/numberlink/solver2.rs:175-177 | writing one edge changes whether a cell keeps the degree rule only for the edge's two end cells |
| NumberlinkHistory.DecidedSidesKept | src/numberlink/solver2.rs:107-114 | a cell whose four sides are decided keeps those sides through any later run of decisions |
| NumberlinkHistory.LoneCellSides | src/numberlink/solver2.rs:54-60 | the one cell of a 1x1 board has no side that is Line or Undecided |
| NumberlinkSolver2.CompleteEdges | src/numberlink/solver2.rs:319-331 | when every cell has its right and down edges decided, every edge position of the grid is decided |
| NumberlinkSolver2.DecidedBeforeKept | src/numberlink/solver2.rs:377-389 | cells decided before a position stay decided through further decisions |
| NumberlinkSolver2.DecidedBeforeNext | src/numberlink/solver2.rs:319-326 | passing a decided cell keeps every cell before the position decided |
| NumberlinkSolver2.DecidedBeforeRow | src/numberlink/solver2.rs:315-322 | the end of a row is the start of the next |
| NumberlinkSolver2.SolutionSettled | src/numberlink/solver2.rs:380-386 | an answer reached from a state after more decisions is an answer of the earlier state |
| NumberlinkSolver2.RowSquares | src/numberlink/solver2.rs:181-214 | around a horizontal edge, the six edges of the squares above and below and the L-chain cells are where `decide_edge` looks |
| NumberlinkSolver2.ColumnSquares | src/numberlink/solver2.rs:215-248 | the same around a vertical edge |
| NumberlinkSolver2.InitialTables | src/numberlink/solver2.rs:34-45 | an empty cell gets its own index and no clue mark; a clue `c` gets `-(c + 1)` and the mark |
| NumberlinkSolver2.SolverField.constructor | src/numberlink/solver2.rs:29-53 | the tables as `InitialTables` gives them, a `(2h - 1) x (2w - 1)` grid of Undecided edges, the flag off and an empty log, with the partner invariant |
| NumberlinkSolver2.SolverField.GetEdge | src/numberlink/solver2.rs:54-60 | Blank outside the edge grid, the stored state inside |
| NumberlinkSolver2.SolverField.SetInconsistent | src/numberlink/solver2.rs:80-84 | logs the old flag, sets it and returns true |
| NumberlinkSolver2.SolverField.UpdateAnotherEnd | src/numberlink/solver2.rs:85-88 | logs the old entry, then writes the new one, and changes nothing else |
| NumberlinkSolver2.SolverField.AddCheckpoint | src/numberlink/solver2.rs:90-92 | appends a `Checkpoint` and changes nothing else |
| NumberlinkSolver2.SolverField.Rollback | src/numberlink/solver2.rs:94-103 | the state and log are those the specified rollback gives: entries undone latest first, through the most recent checkpoint |
| NumberlinkSolver2.SolverField.LinkEnds | src/numberlink/solver2.rs:131-173 | a Line between two cells fails exactly on a closed end, a chain closed on itself or two different clues, and then only the flag changes; otherwise the table becomes `Linked`, every change logged |
| NumberlinkSolver2.SolverField.LinkToClue | src/numberlink/solver2.rs:148-161 | a chain meeting a clue: its far end takes the clue, and the two cells are closed |
| NumberlinkSolver2.SolverField.LinkChains | src/numberlink/solver2.rs:162-171 | two chains meeting: each far end names the other, and the two cells are closed |
| NumberlinkSolver2.SolverField.WriteEdge | src/numberlink/solver2.rs:175-177 | an undecided edge gets its state, with an `Edge` entry in the log, and one fewer edge is undecided |
| NumberlinkSolver2.SolverField.DecideEdge | src/numberlink/solver2.rs:106-257 | a decided edge is a clash exactly when the state differs, and nothing but the flag changes; a Line that fails the guards changes no edge; a consistent return leaves the edge in the state; every change apart from the flag is logged and no decided edge changes; on a consistent return every cell that kept the degree rule (four decided sides: clue plus Line sides is 0 or 2) still keeps it |
| NumberlinkSolver2.SolverField.Propagate | src/numberlink/solver2.rs:179-257 | after a write, the canonical form and the two end cells are enforced, keeping the edge's state on a consistent return; the two end cells keep the degree rule and no cell loses it |
| NumberlinkSolver2.SolverField.Canonical | src/numberlink/solver2.rs:179-250 | the canonical-form rules of a new Line, the squares on both sides of it, keep every change logged |
| NumberlinkSolver2.SolverField.SquareAbove | src/numberlink/solver2.rs:182-191 | the square above a horizontal Line is resolved as `Square` states |
| NumberlinkSolver2.SolverField.SquareBelow | src/numberlink/solver2.rs:193-214 | the square below a horizontal Line, with its L-chain extensions |
| NumberlinkSolver2.SolverField.SquareLeft | src/numberlink/solver2.rs:216-231 | the square left of a vertical Line, with its L-chain extension |
| NumberlinkSolver2.SolverField.SquareRight | src/numberlink/solver2.rs:233-248 | the square right of a vertical Line, with its L-chain extension |
| NumberlinkSolver2.SolverField.Square | src/numberlink/solver2.rs:182-214 | a Line on the parallel side blanks the two others; otherwise a Line on one of them blanks the other two and, without a clue at the corner, draws the L-chain extension; with none of them Line nothing changes |
| NumberlinkSolver2.SolverField.Forbid | src/numberlink/solver2.rs:183-184 | both edges end Blank on a consistent return |
| NumberlinkSolver2.SolverField.Extend | src/numberlink/solver2.rs:200-204 | both extension edges end Line on a consistent return; with a clue at the corner nothing changes |
| NumberlinkSolver2.SolverField.CountSides | src/numberlink/solver2.rs:264-273 | the line count is the clue's one plus the Line sides, and the undecided count the Undecided sides |
| NumberlinkSolver2.SolverField.Inspect | src/numberlink/solver2.rs:261-298 | three or more lines, or one line with no undecided side, is inconsistent; two lines decide every side; one line with one undecided side makes that side Line; otherwise nothing changes; on a consistent return the cell keeps the degree rule and no cell loses it |
| NumberlinkSolver2.SolverField.CloseRest | src/numberlink/solver2.rs:277-284 | every side is decided on a consistent return |
| NumberlinkSolver2.SolverField.ForceLast | src/numberlink/solver2.rs:285-292 | the one undecided side becomes Line on a consistent return |
| NumberlinkSolver2.SolverField.GetLinePlacement | src/numberlink/solver2.rs:63-78 | a new placement whose segments are exactly the Line edges |
| NumberlinkSolver2.SolverField.DecideCell | src/numberlink/solver2.rs:378-383 | the right edge, then the down edge unless that clashed: on a consistent return both of the cell's edges are decided |
| NumberlinkSolver2.PlaceCell | src/numberlink/solver2.rs:69-74 | one cell's segments are drawn from its down and right edges, and nothing else changes |
| NumberlinkSolver2.Draw | src/numberlink/solver2.rs:63-78 | the nested loop draws exactly the Line edges |
| NumberlinkSolver2.ClueDownRight | src/numberlink/solver2.rs:352-362 | succeeds exactly when a cell down and to the right on the diagonal holds a clue |
| NumberlinkSolver2.ClueDownLeft | src/numberlink/solver2.rs:364-374 | succeeds exactly when a cell down and to the left, starting beside the cell, holds a clue |
| NumberlinkSolver2.NextOpen | src/numberlink/solver2.rs:313-326 | the first cell from the position on with an undecided edge, or the end of the board, with every cell before it decided |
| NumberlinkSolver2.Search | src/numberlink/solver2.rs:312-391 | keeps earlier answers; every new answer is a new placement drawing a fully decided edge grid that keeps every edge decided on entry, and, when every cell kept the degree rule on entry, gives each clue one segment and every other cell none or two; a complete grid on entry gives exactly one answer; the table, edges and log come back as they were |
| NumberlinkSolver2.Branch | src/numberlink/solver2.rs:340-390 | one choice of the cell's right and down edges keeps the same guarantees, whichever `continue` it takes |
| NumberlinkSolver2.Trial | src/numberlink/solver2.rs:377-389 | the checkpoint, the decisions, the search on and the rollback restore the table, edges and log |
| NumberlinkSolver2.SearchOn | src/numberlink/solver2.rs:385-387 | the search on from the next cell restores the state and keeps its answers answers of the earlier state |
| NumberlinkSolver2.Solve2 | src/numberlink/solver2.rs:301-331 | every answer draws a fully decided edge grid of the board; each clue ends exactly one segment and every other cell lies on none or two, except on a 1x1 board holding a clue, whose single answer leaves the clue without a segment |
| NumberlinkSolver2.ClueFlags | src/numberlink/solver2.rs:33-43 | a board's clue marks: a cell is marked exactly when it holds a clue |
| NumberlinkSolver2.InitialDegreesOk | src/numberlink/solver2.rs:49 | in the new all-Undecided edge grid every cell keeps the degree rule, except the lone cell of a 1x1 board holding a clue |
| NumberlinkSolver2.ShownDegree | src/numberlink/solver2.rs:63-78 | a cell's clue plus the segments the answer draws at it equals its clue plus its Line sides |
| NumberlinkSolver2.CompleteSides | src/numberlink/solver2.rs:313-331 | when every cell has its right and down edges decided, all four sides of every cell are decided |
| NumberlinkSolver2.CompleteBalanced | src/numberlink/solver2.rs:327-331 | an answer recorded from a complete edge grid where every cell keeps the degree rule gives each clue exactly one segment and every other cell none or two |
| NumberlinkSolver2.LoneComplete | src/numberlink/solver2.rs:313-331 | a 1x1 board has no edge, so its edge grid is complete from the start |
| NumberlinkSolver2.LoneClue | src/numberlink/solver2.rs:264-273 | the lone cell of a 1x1 board holding a clue counts one line and no undecided side, so it breaks the degree rule |
| NumberlinkSolver2.LoneUnbalanced | src/numberlink/solver2.rs:301-331 | the answer drawn for a 1x1 board holding a clue leaves the clue with no segment |
| TapaBase.Unpadded | src/tapa/mod.rs:63 | `filter(\|&&x\| x != -1)` keeps no padding entry |
| TapaBase.UnpaddedFrom | src/tapa/mod.rs:63 | the filter from entry `k` on keeps no padding entry |
| TapaBase.InsertSpec | src/tapa/mod.rs:53-54 | inserting into an ascending sequence keeps it ascending and adds exactly the new element |
| TapaBase.SortSpec | src/tapa/mod.rs:53-54 | `sorted.sort()` is ascending and a permutation of the pattern |
| TapaBase.CluePatternToIdIn | src/tapa/mod.rs:60-69 | the loop returns the first kind of the table whose runs equal the sorted pattern, or `None` |
| TapaBase.CluePatternToId | src/tapa/mod.rs:52-70 | the single run `[0]` is kind 0; otherwise the first kind of `CLUE_VALUES` whose runs equal the sorted pattern |
| TapaBase.AscendingUnique | src/tapa/mod.rs:53-54 | two ascending sequences with the same elements are equal, so sorting decides whether two patterns have the same runs |
| TapaBase.MatchFromSpec | src/tapa/mod.rs:60-67 | the search from row `k` finds a row equal to the pattern, with no earlier such row, and finds one whenever there is one |
| TapaBase.SortedMatches | src/tapa/mod.rs:53-66 | the sorted pattern equals a row exactly when the pattern has that row's runs, in any order |
| TapaBase.KindOfSpec | src/tapa/mod.rs:52-70 | over any table of distinct ascending kinds, a pattern has the kind whose runs it has, in any order, and no kind when there is none |
| TapaBase.Padding | src/tapa/mod.rs:23-47 | `n` entries of -1 |
| TapaBase.TableShape | src/tapa/mod.rs:23-50 | each row of `CLUE_VALUES` is ascending runs of at least 1, padded with -1 to five entries, and `CLUE_MAX` bounds its runs |
| TapaBase.TableDistinct | src/tapa/mod.rs:23-47 | no two kinds of `CLUE_VALUES` have the same runs |
| TapaBase.ClueValuesKinds | src/tapa/mod.rs:23-47 | `CLUE_VALUES` is a table of distinct ascending kinds |
| TapaBase.PatternToIdSpec | src/tapa/mod.rs:52-70 | `clue_pattern_to_id` gives the kind whose runs the pattern has, in any order, `[0]` gives kind 0, and any other pattern gives `None` |
| TapaBase.OrderInsensitive | src/tapa/mod.rs:52-70 | the kind depends only on the multiset of runs, not on their order |
| TapaBase.EmptyPattern | src/tapa/mod.rs:24 | the empty pattern, no black neighbour, is kind 0 |
| TapaBase.MixedZeroPattern | src/tapa/mod.rs:56-69 | every pattern of two or more runs that contains a 0 has no kind: 0 only stands alone |
| TapaBase.KindByRuns | src/tapa/mod.rs:52-70 | a pattern with the runs of row `i`, in any order, is kind `i` |
| TapaBase.ClueMaxBounds | src/tapa/mod.rs:49-50 | every entry of `CLUE_MAX` is at most 8, and only kinds 20 to 22 reach 6 |
| TapaBase.RunWithinMax | src/tapa/mod.rs:23-50 | a run of a pattern of kind `id` is at most `CLUE_MAX[id]` |
| TapaBase.NoKindLongRun | src/tapa/mod.rs:52-70 | a pattern holding a run longer than 8 has no kind |
| TapaBase.NoKindSixWithOthers | src/tapa/mod.rs:52-70 | a pattern of two or more runs holding a run of 6 or more has no kind |
| TapaIo.DigitRuns | src/tapa/io.rs:14-20 | one number from 0 to 9 per decimal digit of the token |
| TapaIo.DigitRunsEmpty | src/tapa/io.rs:22 | a token gives no run exactly when it has no digit |
| TapaIo.TokenClueSpec | src/tapa/io.rs:10-31 | a token reads as `NO_CLUE` exactly when it has no digit; otherwise as the kind of its digits in any order, or `InvalidValue` exactly when they form no kind |
| TapaIo.TokenOrderInsensitive | src/tapa/io.rs:14-29 | tokens with the same digits, in any order and among any other characters, read alike |
| TapaDictionary.DecodeEncode | src/tapa/dictionary.rs:241-268 | `id_to_pattern` undoes `pattern_to_id`: decoding the base-3 code of a pattern gives the pattern back |
| TapaDictionary.EncodeDecode | src/tapa/dictionary.rs:241-268 | `pattern_to_id` undoes `id_to_pattern` on every code below `3^8` |
| TapaDictionary.PatternToId | src/tapa/dictionary.rs:255-268 | the loop returns the base-3 code of the first eight cells (undecided 0, black 1, white 2), which is below 6561 |
| TapaDictionary.IdToPattern | src/tapa/dictionary.rs:241-254 | the loop gives the eight base-3 digits of `pat_id as u32`, least significant first |
| TapaDictionary.RingRuns | src/tapa/dictionary.rs:218-234 | the loop over the ring rotated to `top` returns the lengths of its maximal black runs in order |
| TapaDictionary.NeighborChain | src/tapa/dictionary.rs:208-240 | `neighbor_chain` returns the sorted run lengths of the ring, or `[8]` when every cell is black |
| TapaDictionary.ChainSpec | src/tapa/dictionary.rs:208-240 | the chains are ascending, each at least 1, and together hold exactly the ring's black cells |
| TapaDictionary.EntryBit | src/tapa/dictionary.rs:49-76 | a bit of an entry is set iff it is set in the leaf entry of every completion of the pattern |
| TapaDictionary.EntryInconsistent | src/tapa/dictionary.rs:49-76 | an entry is `DICTIONARY_INCONSISTENT` iff no completion of the pattern fits the clue |
| TapaDictionary.EntryCell | src/tapa/dictionary.rs:49-76 | when some completion fits, bit `2i` says every fitting completion has cell `i` black and bit `2i + 1` that every one has it white |
| TapaDictionary.EntrySplit | src/tapa/dictionary.rs:49-57 | the entry of a pattern with an undecided cell is the AND of the entries with that cell black and white |
| TapaDictionary.FindUndecided | src/tapa/dictionary.rs:41-47 | the scan returns the first undecided cell, or `None` |
| TapaDictionary.PatternBin | src/tapa/dictionary.rs:64-71 | `pat_id_bin` holds, for each decided cell `i`, 1 (black) or 2 (white) at bit `2i` |
| TapaDictionary.LeafEntry | src/tapa/dictionary.rs:58-76 | a decided pattern's entry is its `pat_id_bin` when its chains equal the clue's runs, else `DICTIONARY_INCONSISTENT` |
| TapaDictionary.FillEntry | src/tapa/dictionary.rs:38-77 | one entry of block `ty` is written from the already-filled higher codes, and no other slot changes |
| TapaDictionary.FillBlock | src/tapa/dictionary.rs:35-78 | block `ty`, filled from the highest code down, holds every entry of its clue kind, and the other blocks are unchanged |
| TapaDictionary.BuildNeighborPattern | src/tapa/dictionary.rs:34-79 | the neighbour table holds, at slot `ty * 6561 + id`, the entry of pattern `id` for clue kind `ty` |
| TapaDictionary.DisconnectionSpec | src/tapa/dictionary.rs:85-103 | bit `i` of a disconnection mask is set iff neither cell `i` nor cell `i + 1` is white and no completion with both black fits the clue |
| TapaDictionary.Disconnection | src/tapa/dictionary.rs:84-103 | the loop reads the mask of one pattern off the neighbour table |
| TapaDictionary.FillDisconnectionBlock | src/tapa/dictionary.rs:82-104 | block `ty` of `virtual_disconnection` holds every mask of its kind, and the other blocks are unchanged |
| TapaDictionary.BuildVirtualDisconnection | src/tapa/dictionary.rs:81-105 | `virtual_disconnection` holds every mask, at slot `ty * 6561 + id` |
| TapaDictionary.BackMod | src/tapa/dictionary.rs:129 | `(i - j + 8) % 8` never goes negative for `j <= 8` and is the cell `j` steps back |
| TapaDictionary.RingMod | src/tapa/dictionary.rs:123 | `(i + ori) % 8` is the cell `i` steps on from `ori` |
| TapaDictionary.QuadsOf | src/tapa/dictionary.rs:113-125 | the two-bit codes `(pat_id >> 2i) & 3` of the eight cells |
| TapaDictionary.TernaryId | src/tapa/dictionary.rs:134-141 | `ternary_pat_id` is the base-3 code of the cells the two-bit codes stand for, below 6561 |
| TapaDictionary.BlackenChain | src/tapa/dictionary.rs:127-132 | `pat_id_blackened` has code 2 (black) on the `n` cells from `i` backwards, the rest unchanged |
| TapaDictionary.OrChain | src/tapa/dictionary.rs:147-150 | the mask gains the bits of the `len` cells before `i` |
| TapaDictionary.BlackenedId | src/tapa/dictionary.rs:127-141 | the id decodes to the pattern with the chain and both its ends made black |
| TapaDictionary.ChainIgnored | src/tapa/dictionary.rs:127-151 | a chain is ignored iff its blackened pattern has the entry `DICTIONARY_INCONSISTENT` |
| TapaDictionary.EndChain | src/tapa/dictionary.rs:125-154 | a chain ended by a cell not of degree two adds its cells to the mask when ignored, and the next chain starts empty |
| TapaDictionary.IgnoredMask | src/tapa/dictionary.rs:119-161 | the nine-step scan from the first cell not of degree two returns the specified mask |
| TapaDictionary.FillIgnored | src/tapa/dictionary.rs:110-161 | one slot of `virtually_ignored_cell`: the mask, or 0 when every cell has degree two |
| TapaDictionary.FillIgnoredBlock | src/tapa/dictionary.rs:108-162 | block `ty` of `virtually_ignored_cell` holds every mask of its kind, and the other blocks are unchanged |
| TapaDictionary.BuildVirtuallyIgnored | src/tapa/dictionary.rs:107-163 | `virtually_ignored_cell` holds every mask, at slot `ty * 65536 + id` |
| TapaDictionary.IgnoredDegreeTwo | src/tapa/dictionary.rs:122-158 | only cells of degree two are ever marked virtually ignored |
| TapaDictionary.IgnoredChains | src/tapa/dictionary.rs:122-158 | a marked cell lies on a chain of degree-two cells which, made black with both its ends, leaves the clue no fitting ring |
| TapaDictionary.NewDictionary | src/tapa/dictionary.rs:33-170 | `Dictionary::new` builds the three tables, each holding for every kind of `CLUE_VALUES` what its definition gives |
| TapaDictionary.NeighborPatternRaw | src/tapa/dictionary.rs:172-176 | the lookup returns the neighbour-table entry of the pattern for the clue |
| TapaDictionary.VirtuallyIgnoredCell | src/tapa/dictionary.rs:197-201 | the lookup returns the virtually-ignored mask of the pattern for the clue |
| TapaDictionary.VirtualDisconnection | src/tapa/dictionary.rs:202-206 | the lookup returns the disconnection mask of the pattern for the clue |
| TapaDictionary.NeighborPattern | src/tapa/dictionary.rs:177-195 | returns `true` iff the entry is `DICTIONARY_INCONSISTENT`, and then leaves the cells alone; otherwise each undecided cell becomes what the entry decides, and cells past the eighth never change |
| TapaDictionary.ApplyEntry | src/tapa/dictionary.rs:184-192 | the loop sets each undecided cell as the entry's two bits say (1 black, 2 white, else undecided) |
| TapaDictionary.ApplyForced | src/tapa/dictionary.rs:177-195 | a cell `neighbor_pattern` decides is forced: it becomes black (white) iff every fitting completion has it black (white) |
| TapaDictionary.ApplyKeeps | src/tapa/dictionary.rs:177-195 | `neighbor_pattern` loses no solution: every fitting completion of the old cells completes the new ones |
| TapaConsecutive.BitsOf | src/tapa/dictionary.rs:290-301 | the loop reads the eight bits `(pat_id >> i) & 1` |
| TapaConsecutive.AllSet | src/tapa/dictionary.rs:373 | only the pattern 255 has all eight bits set |
| TapaConsecutive.Top | src/tapa/dictionary.rs:290-296 | `top` is a clear bit with every bit before it set, or 0 when every bit is set |
| TapaConsecutive.FindTop | src/tapa/dictionary.rs:290-296 | the loop with its `break` returns `top` |
| TapaConsecutive.CollectChains | src/tapa/dictionary.rs:297-313 | the two loops return the chains of the scan from `top`, the chain still open at the end closed at `top` |
| TapaConsecutive.CollectCells | src/tapa/dictionary.rs:299-309 | during the scan the open chain is set cells, every cell of a closed chain is set, and every set cell already passed lies on a closed chain |
| TapaConsecutive.ChainsCover | src/tapa/dictionary.rs:290-313 | a cell is set iff it lies on one of the chains |
| TapaConsecutive.ExcludeRun | src/tapa/dictionary.rs:318-322 | the loop flips the bits of the chain's cells |
| TapaConsecutive.FlipBits | src/tapa/dictionary.rs:318-322 | excluding a chain flips exactly its cells' bits and keeps the rest |
| TapaConsecutive.WhiteId | src/tapa/dictionary.rs:324-331 | `ternary_id` is the neighbour-table code of the pattern with clear bits white and set bits undecided |
| TapaConsecutive.OrRun | src/tapa/dictionary.rs:336-338 | the loop adds the chain's cells to `parts` |
| TapaConsecutive.RunBitsBits | src/tapa/dictionary.rs:336-338 | a bit of the result is set iff it was set before or its cell is on the chain |
| TapaConsecutive.RunNeeded | src/tapa/dictionary.rs:318-335 | a chain is needed iff the neighbour-table entry of the pattern with it excluded is `DICTIONARY_INCONSISTENT` |
| TapaConsecutive.NeededMeans | src/tapa/dictionary.rs:318-335 | a chain is needed iff no completion of the pattern with it all white fits the clue |
| TapaConsecutive.RegionParts | src/tapa/dictionary.rs:290-342 | one entry of `dic`: the cells of the needed chains of the pattern |
| TapaConsecutive.PartsBits | src/tapa/dictionary.rs:315-340 | a bit of `parts` is set iff its cell lies on a needed chain |
| TapaConsecutive.RegionEntryBits | src/tapa/dictionary.rs:287-343 | entry `(ty, id)` marks cell `j` iff `j` lies on a chain of `id` that cannot be all white under clue `ty` |
| TapaConsecutive.RegionEntryWithin | src/tapa/dictionary.rs:287-343 | an entry marks only cells the pattern has set |
| TapaConsecutive.FillRegionBlock | src/tapa/dictionary.rs:289-343 | block `ty` of `dic` holds every entry of its kind, and the other blocks are unchanged |
| TapaConsecutive.BuildRegion | src/tapa/dictionary.rs:287-344 | `dic` holds, at slot `ty * 256 + id`, entry `(ty, id)` |
| TapaConsecutive.DirectionsAdjacent | src/tapa/dictionary.rs:346-361 | `prev_direction[i]` and `next_direction[i]` are sides 0 to 3, each is the one side of neighbour `i` that leads to the neighbour before or after it, and no other side does |
| TapaConsecutive.SidesOf | src/tapa/dictionary.rs:349-360 | the inner loop returns the last side that leads to each of the two neighbours |
| TapaConsecutive.Directions | src/tapa/dictionary.rs:346-361 | the loop fills both tables for all eight neighbours |
| TapaConsecutive.CountStreak | src/tapa/dictionary.rs:376-389 | the counting loop with its `break` counts the set cells met from `nb` before the first clear one |
| TapaConsecutive.ChainRun | src/tapa/dictionary.rs:371-392 | on a pattern other than 255, the chain through a set neighbour is a maximal run: the counted cells are set, a clear cell lies just past each end, and `chain_size` is their total |
| TapaConsecutive.RemovalSides | src/tapa/dictionary.rs:394-401 | a removal entry is non-zero only for a set neighbour of a pattern other than 255, on one of its two chain sides, and is below its chain size |
| TapaConsecutive.FillChainCell | src/tapa/dictionary.rs:367-401 | the loop body writes the chain size and removals of one neighbour, or nothing when its bit is clear |
| TapaConsecutive.BuildChainTables | src/tapa/dictionary.rs:363-403 | `chain_size_dic` and `removal_dic` hold their entries for every pattern, neighbour and side |
| TapaConsecutive.NewConsecutive | src/tapa/dictionary.rs:286-410 | `ConsecutiveRegionDictionary::new` builds all three tables from the neighbour table |
| TapaConsecutive.Consult | src/tapa/dictionary.rs:411-415 | the lookup returns entry `(c, code)` of `dic` |
| TapaConsecutive.ConsultRemoval | src/tapa/dictionary.rs:416-420 | the lookup returns the removal entry of pattern `code`, neighbour `nb`, side `adj` |
| TapaConsecutive.ChainSize | src/tapa/dictionary.rs:421-423 | the lookup returns the chain size of pattern `code` at neighbour `nb` |
| TapaGenerator.BeforeCheckpoint | src/tapa/generator.rs:63-77 | the log `rollback` leaves is no longer than the one it starts from |
| TapaGenerator.NewMarks | src/tapa/generator.rs:34-40 | no cell marked, `n_clues` zero, an empty log, and the invariant holds |
| TapaGenerator.CountSet | src/tapa/generator.rs:46-52 | writing a cell moves the count of marked cells by the old value out and the new value in |
| TapaGenerator.UpdateMarks | src/tapa/generator.rs:42-53 | the cell takes the value; the log gains the overwritten value exactly when the cell changes; `n_clues` still counts the marked cells and the log can still be undone |
| TapaGenerator.ConsistentPush | src/tapa/generator.rs:51-52 | logging the overwritten value keeps the log undoable |
| TapaGenerator.CheckpointMarks | src/tapa/generator.rs:60-62 | the marks are kept and the log up to its last checkpoint is the old log |
| TapaGenerator.RollbackMarks | src/tapa/generator.rs:63-77 | the invariant holds again and the log is cut back to just before its last checkpoint, or emptied when it has none |
| TapaGenerator.ForgetMarks | src/tapa/generator.rs:78-80 | the log is emptied, the marks and `n_clues` kept, the invariant held |
| TapaGenerator.GetChecked | src/tapa/generator.rs:57-59 | a cell outside the grid reads unmarked; inside, the mark |
| TapaGenerator.RollbackUpdate | src/tapa/generator.rs:42-53 | one update followed by a rollback ends where a rollback alone ends |
| TapaGenerator.UpdatesMarks | src/tapa/generator.rs:42-53 | a run of updates keeps the invariant and the board size |
| TapaGenerator.RollbackUpdates | src/tapa/generator.rs:42-77 | any run of updates is undone by the rollback after it |
| TapaGenerator.CheckpointRollback | src/tapa/generator.rs:60-77 | a checkpoint, any updates and a rollback give back the marks, `n_clues` and the log from before the checkpoint |
| TapaGenerator.HasClue.Update | src/tapa/generator.rs:42-53 | the object's new state is `UpdateMarks` of its old one, invariant kept |
| TapaGenerator.HasClue.Get | src/tapa/generator.rs:54-56 | returns the mark of the cell |
| TapaGenerator.HasClue.GetCheckedAt | src/tapa/generator.rs:57-59 | returns `GetChecked` of the marks |
| TapaGenerator.HasClue.AddCheckpoint | src/tapa/generator.rs:60-62 | the object's new state is `CheckpointMarks` of its old one |
| TapaGenerator.HasClue.Rollback | src/tapa/generator.rs:63-77 | the popping loop ends in `RollbackMarks` of the old state, invariant kept |
| TapaGenerator.HasClue.ForgetHistory | src/tapa/generator.rs:78-80 | the object's new state is `ForgetMarks` of its old one |
| TapaGenerator.ForcedUpTo | src/tapa/generator.rs:97-104 | marking the forced cells among the first slots keeps the invariant and the board size |
| TapaGenerator.ForcedMarks | src/tapa/generator.rs:97-104 | from no marks, a slot is marked after the first `k` exactly when it is among them and forced |
| TapaGenerator.ForcedAll | src/tapa/generator.rs:91-104 | after the loop exactly the forced cells are marked and `n_clues` is their number |
| TapaGenerator.MarkForced | src/tapa/generator.rs:91-104 | the nested loop leaves the object in the state `ForcedUpTo` gives for the whole board |
| TapaGenerator.MarkForcedRow | src/tapa/generator.rs:98-103 | one row of that loop advances the state by that row's slots |
| TapaGenerator.CandidateMarks | src/tapa/generator.rs:177-190 | the marks of one candidate keep the invariant and the board size |
| TapaGenerator.CandidateIsOps | src/tapa/generator.rs:177-190 | those marks are a run of updates on cells of the board |
| TapaGenerator.MarkCandidate | src/tapa/generator.rs:177-190 | the object ends in the state `CandidateMarks` gives |
| TapaGenerator.MarkPair | src/tapa/generator.rs:181-186 | two updates in order end in the state the run of both gives |
| TapaGenerator.TryCandidate | src/tapa/generator.rs:176-196 | the candidate is rejected exactly when its marks exceed `max_clue`, and a rejected one is rolled back |
| TapaGenerator.RejectedRestores | src/tapa/generator.rs:176-196 | a rejected candidate leaves the marks, `n_clues` and the log exactly as before its checkpoint |
| TapaGenerator.ClueFilledAsWritten | src/tapa/generator.rs:226-233 | the loop as written reports a clue missing exactly when the candidate's own cell is marked and empty |
| TapaGenerator.ClueFilled | src/tapa/generator.rs:226-233 | the corrected loop reports every marked cell filled exactly when each marked cell holds a clue |
| TapaGenerator.ClueFilledMissesCell | src/tapa/generator.rs:226-233 | on a 1x2 board the loop as written reports filled while a marked cell holds no clue |
| KakuroBase.CandExt | src/kakuro/mod.rs:6-7 | two candidate sets with the same digits are the same mask |
| KakuroBase.EmptyHasNone | src/kakuro/mod.rs:7 | the empty mask holds no digit and `CAND_ALL` holds all nine |
| KakuroBase.Singleton | src/kakuro/field.rs:164 | `Cand::singleton(d)` holds exactly digit `d` |
| KakuroBase.And | src/kakuro/field.rs:227 | `a & b` holds exactly the digits of both |
| KakuroBase.Or | src/kakuro/dictionary.rs:36 | `a \| b` holds exactly the digits of either |
| KakuroBase.Not | src/kakuro/field.rs:182 | `!c` holds exactly the digits not in `c` |
| KakuroBase.Exclude | src/kakuro/field.rs:169 | `exclude(d)` holds the digits of `m` other than `d` |
| KakuroBase.Include | src/kakuro/dictionary.rs:35-36 | `m \| (1 << (d - 1))` holds the digits of `m` and `d` |
| KakuroBase.IncludeExclude | src/kakuro/field.rs:169 | taking out a present digit and putting it back gives the set back |
| KakuroBase.ExcludeInclude | src/kakuro/field.rs:169 | adding a missing digit and taking it out gives the set back |
| KakuroBase.CountBounds | src/kakuro/field.rs:163 | a set counts 0 to 9 digits, summing to 0 to 45 |
| KakuroBase.CountExclude | src/kakuro/field.rs:163-169 | taking out a present digit lowers the count by one and the digit sum by the digit |
| KakuroBase.CountZero | src/kakuro/field.rs:197 | `is_empty` holds exactly when `count_set_cands` is 0 |
| KakuroBase.CountDigit | src/kakuro/field.rs:201 | a set with a digit counts at least one |
| KakuroBase.SomeDigit | src/kakuro/field.rs:201-202 | a set counting at least one digit has a digit |
| KakuroBase.Smallest | src/kakuro/field.rs:202 | `smallest_set_cand` is a digit of the set with none below it |
| KakuroBase.Largest | src/kakuro/field.rs:316 | `largest_set_cand` is a digit of the set with none above it |
| KakuroBase.SingleCount | src/kakuro/field.rs:201-202 | a one-digit set is the singleton of its smallest digit |
| KakuroBase.CountTwo | src/kakuro/field.rs:286 | a set with two different digits counts at least two |
| KakuroBase.LimitUpperBound | src/kakuro/field.rs:330 | `limit_upper_bound(n)` keeps exactly the digits at most `n` |
| KakuroBase.LimitLowerBound | src/kakuro/field.rs:326-331 | `limit_lower_bound(n)` keeps exactly the digits at least `n` |
| KakuroBase.SubMaskHas | src/kakuro/field.rs:189-193 | `m & avail == m` holds exactly when every digit of `m` is in `avail` |
| KakuroBase.ValueBits | src/kakuro/mod.rs:6 | the `n` low bits of a `u32` value |
| KakuroBase.BitsValueBound | src/kakuro/mod.rs:6-7 | `n` flags make a value below `2^n` |
| KakuroBase.ValueBitsRoundTrip | src/kakuro/mod.rs:6 | a value below `2^n` is recovered from its `n` low bits |
| KakuroBase.BitsValueRoundTrip | src/kakuro/mod.rs:6 | flags are recovered from the value they make |
| KakuroBase.BitsValueClear | src/kakuro/dictionary.rs:33 | `v ^ (1 << k)` for a set bit `k` is `v - 2^k` |
| KakuroBase.MaskRoundTrip | src/kakuro/mod.rs:6-7 | masks below 512 and candidate sets correspond one to one |
| KakuroBase.MaskExclude | src/kakuro/dictionary.rs:33 | the mask without digit `d` is the mask minus `1 << (d - 1)` |
| KakuroBase.MaskValues | src/kakuro/mod.rs:7 | `CAND_ALL` is 511 and the empty set is 0 |
| KakuroDictionary.Step | src/kakuro/dictionary.rs:35-36 | one digit's update keeps in `imperative` the digits also forced by the shorter run or equal to the digit, and adds to `allowed` the digit and the shorter run's allowed digits |
| KakuroDictionary.FoldNoneStep | src/kakuro/dictionary.rs:31-39 | the fold stays `IMPOSSIBLE` exactly while no digit has contributed |
| KakuroDictionary.FoldAllowedStep | src/kakuro/dictionary.rs:31-39 | `allowed` so far is the union over contributing digits of the digit and the shorter run's allowed digits |
| KakuroDictionary.FoldImperativeStep | src/kakuro/dictionary.rs:31-39 | `imperative` so far is the intersection over contributing digits of the digit and the shorter run's forced digits |
| KakuroDictionary.FoldCorrect | src/kakuro/dictionary.rs:29-39 | the whole inner loop accumulates exactly those three facts |
| KakuroDictionary.Lift | src/kakuro/dictionary.rs:32-33 | adding digit `j` to a completion of the shorter run with `j` removed completes the run |
| KakuroDictionary.Drop | src/kakuro/dictionary.rs:32-33 | removing a digit from a completion leaves a completion of the run one shorter, `sum - j`, without `j` |
| KakuroDictionary.SolvableIffValid | src/kakuro/dictionary.rs:31-38 | a run has a completion exactly when some digit contributes to the fold |
| KakuroDictionary.AllowedCorrect | src/kakuro/dictionary.rs:36 | a digit is allowed exactly when some completion uses it |
| KakuroDictionary.ImperativeCorrect | src/kakuro/dictionary.rs:35 | a digit is imperative exactly when every completion uses it |
| KakuroDictionary.LengthZero | src/kakuro/dictionary.rs:21-24 | the length-0 entries: `(0, 0)` for sum 0, `IMPOSSIBLE` otherwise, as the specification of an entry says |
| KakuroDictionary.TableCorrect | src/kakuro/dictionary.rs:3-47 | every entry of the table is `IMPOSSIBLE` exactly when the run has no completion from the available digits, and otherwise `allowed` holds the digits of some completion and `imperative` those of every completion |
| KakuroDictionary.SumZeroFold | src/kakuro/dictionary.rs:27 | a run of positive length summing to 0 has no completion, so the unwritten sum-0 slots are right to stay `IMPOSSIBLE` |
| KakuroDictionary.SlotBounds | src/kakuro/dictionary.rs:11 | every in-range `(len, sum, vals)` slot lies inside the table |
| KakuroDictionary.SlotDecode | src/kakuro/dictionary.rs:11 | the slot of `(len, sum, vals)` holds the entry of that triple |
| KakuroDictionary.FilledStart | src/kakuro/dictionary.rs:21-24 | after the length-0 loop the length-0 slots hold their final entries |
| KakuroDictionary.FilledSkip | src/kakuro/dictionary.rs:27 | the sum-0 slots skipped by the loop already hold their final entries |
| KakuroDictionary.FilledWrite | src/kakuro/dictionary.rs:40 | writing the next slot's entry extends the filled prefix by one |
| KakuroDictionary.FilledBuilt | src/kakuro/dictionary.rs:26-46 | a table filled through length 9 is the built dictionary |
| KakuroDictionary.Default | src/kakuro/dictionary.rs:20-47 | `Dictionary::default` stores in every slot the entry the recursion defines |
| KakuroDictionary.ExcludeMask | src/kakuro/dictionary.rs:32-33 | `vals ^ (1 << (i - 1))` for a present digit `i` is the mask of the set without `i` |
| KakuroDictionary.FilledFinal | src/kakuro/dictionary.rs:26-43 | the filled prefix, read by length, sum and mask, holds final entries |
| KakuroDictionary.FillReady | src/kakuro/dictionary.rs:33 | every entry the fill of `(len, sum, vals)` reads was written before, in the loop's order |
| KakuroDictionary.FillDigit | src/kakuro/dictionary.rs:32-38 | one digit of the inner loop advances the fold by that digit |
| KakuroDictionary.Fill | src/kakuro/dictionary.rs:29-40 | the inner loop computes the entry the recursion defines |
| KakuroComponents.BoardOf | src/kakuro/generator.rs:119-144 | a grid of clue flags read as a board: a cell is a clue exactly when it is on the grid and flagged |
| KakuroComponents.BoardOfSet | src/kakuro/generator.rs:147-151 | setting a flag adds exactly that cell to the board's clues |
| KakuroComponents.ReachSym | src/kakuro/generator.rs:122-130 | a path of non-clue cells read backwards is a path, so reaching is symmetric |
| KakuroComponents.ReachTrans | src/kakuro/generator.rs:122-130 | paths joined at a shared cell make a path |
| KakuroComponents.ClosedReach | src/kakuro/generator.rs:122-130 | a visited set closed under free neighbours holds every cell reachable from its members |
| KakuroComponents.CompSame | src/kakuro/generator.rs:122-130 | cells reachable from each other have the same component |
| KakuroComponents.SearchFindsComp | src/kakuro/generator.rs:122-130 | a search that started at a new free cell and left the visited set closed added exactly that cell's component |
| KakuroComponents.DfsExtend | src/kakuro/generator.rs:125-129 | after one more neighbour's search, every cell added since the call began is reachable from the cell, the searched neighbours are visited when free, and the count is the number of cells added |
| KakuroComponents.ScanFound | src/kakuro/generator.rs:136-139 | a `dfs` from an unvisited free cell adds its component's size to `sum` and keeps `largest` the largest size found |
| KakuroComponents.ScanDone | src/kakuro/generator.rs:132-143 | after the scan, `sum - largest` is the number of free cells outside a largest component |
| KakuroComponents.DisconnectionBounds | src/kakuro/generator.rs:119 | the score of one grid lies between 0 and the number of free cells |
| KakuroComponents.DisconnectionZero | src/kakuro/generator.rs:119 | the score is 0 exactly when every two free cells are joined by a path of free cells |
| KakuroComponents.ScoreZero | src/kakuro/generator.rs:145-158 | `disconnectivity_score` is never negative, and is 0 exactly when turning any one free cell into a clue leaves the rest connected |
| KakuroGenerator.Dfs | src/kakuro/generator.rs:120-130 | `dfs` returns how many cells it newly visits; each is a free cell reachable from the start whose free neighbours end up visited, and a free start is visited |
| KakuroGenerator.DfsNeighbour | src/kakuro/generator.rs:125-128 | the guarded call on one neighbour: skipped off the grid, otherwise a `dfs` whose count is added |
| KakuroGenerator.ScanCell | src/kakuro/generator.rs:134-141 | one cell of the scan keeps the visited set the union of the components started so far |
| KakuroGenerator.ScanRow | src/kakuro/generator.rs:133-142 | one row of the scan keeps the same invariant |
| KakuroGenerator.CheckConnectivity | src/kakuro/generator.rs:119-144 | `check_connectivity` returns the number of non-clue cells outside a largest component |
| KakuroGenerator.SetRestore | src/kakuro/generator.rs:150-152 | setting a free cell to a clue and back gives the grid back |
| KakuroGenerator.ScoreRow | src/kakuro/generator.rs:148-155 | one row of `disconnectivity_score` adds the score of each free cell of the row turned into a clue |
| KakuroGenerator.DisconnectivityScore | src/kakuro/generator.rs:145-158 | the sum, over the free cells, of the score with that cell turned into a clue; the grid is unchanged |
| KakuroGenerator.InitialRow | src/kakuro/generator.rs:14-19 | one row of the initial answer: free cells get `(y + x) % 9 + 1`, clue cells keep `-1` |
| KakuroGenerator.InitialAnswer | src/kakuro/generator.rs:12-20 | the initial answer of `generate` holds `(y + x) % 9 + 1` in every free cell and `-1` in every clue cell |
| KakuroGenerator.InitialDigits | src/kakuro/generator.rs:17 | every free cell starts with a digit from 1 to 9 |
| KakuroGenerator.InitialDistinct | src/kakuro/generator.rs:14-19 | two free cells of one row or column fewer than nine apart start with different digits |
| KakuroPlacement.FrameBoard | src/kakuro/generator.rs:163-171 | the framed board has clues exactly on its border |
| KakuroPlacement.FrameProps | src/kakuro/generator.rs:163-171 | the frame is framed and symmetric under a half-turn, and its free cells are exactly the inner ones |
| KakuroPlacement.MirrorProps | src/kakuro/generator.rs:230 | `(height - 1 - y, width - 1 - x)` undoes itself and keeps a cell on the board and on the border |
| KakuroPlacement.MarkKeeps | src/kakuro/generator.rs:229-230 | marking a cell and its mirror keeps the frame and the symmetry and only adds clues |
| KakuroPlacement.MarkMirror | src/kakuro/generator.rs:229-230 | marking the mirror of a cell is the same step as marking the cell |
| KakuroPlacement.GapMirror | src/kakuro/generator.rs:178-181 | on a symmetric board, the test toward one side of a cell is the test toward the other side of its mirror |
| KakuroPlacement.EligibleMirror | src/kakuro/generator.rs:177-185 | on a symmetric board, a cell passes the candidate tests exactly when its mirror does |
| KakuroPlacement.NoSingleRun | src/kakuro/generator.rs:178-181 | marking a candidate never leaves a free neighbour of it as a run of one cell in that direction |
| KakuroPlacement.NoSingleRunMirror | src/kakuro/generator.rs:178-230 | the same next to the mirror of the drawn cell |
| KakuroPlacement.Streak | src/kakuro/generator.rs:249-257 | the counter `con` never exceeds the number of cells read |
| KakuroPlacement.StreakMeaning | src/kakuro/generator.rs:249-257 | `con` reaches `n` exactly when the `n` cells before are all free |
| KakuroPlacement.LongRunLines | src/kakuro/generator.rs:246-281 | the two run loops find no streak of 10 exactly when no row or column has ten free cells in a row |
| KakuroPlacement.CropBoard | src/kakuro/generator.rs:284-289 | the result holds the clues of the top-left `height` by `width` part, and only those |
| KakuroPlacement.SameFree | src/kakuro/generator.rs:284-289 | boards with the same free cells agree on connectivity and on runs of ten |
| KakuroPlacement.CropOk | src/kakuro/generator.rs:159-293 | cropping a framed, symmetric, connected board without runs of ten gives a placement with clues on the top row and left column, a symmetric interior, connected free cells and no run of ten |
| KakuroPlacement.MarkDrawsKeeps | src/kakuro/generator.rs:226-240 | any number of tries of board cells keeps the frame and the symmetry, only adds clues, and holds the last drawn cell |
| KakuroPlacement.MarkDrawsFits | src/kakuro/generator.rs:226-240 | the tries keep every clue on the board and the board's size |
| KakuroPlacement.MarkDrawsShrinks | src/kakuro/generator.rs:224-240 | a round with at least one try of a free cell has strictly fewer free cells, so the main loop ends |
| KakuroPlacement.AgreesIsBoardOf | src/kakuro/generator.rs:163 | a grid of flags agreeing with a board whose clues are on it reads back as that board |
| KakuroPlacement.Write | src/kakuro/generator.rs:165 | `placement[c] = v` makes `c` a clue exactly when `v`, and changes no other cell |
| KakuroPlacement.Frame | src/kakuro/generator.rs:160-171 | the two framing loops yield a `height + 1` by `width + 1` grid with clues exactly on its border |
| KakuroPlacement.GapAt | src/kakuro/generator.rs:179-182 | one side test read off the grid: the cell two steps away is on the grid and a clue, and the one between is free |
| KakuroPlacement.CentreAt | src/kakuro/generator.rs:183-186 | the centre test read off the grid |
| KakuroPlacement.IsCandidate | src/kakuro/generator.rs:176-185 | the `continue` tests pass exactly the free cells without a gap on any side and not blocked by the centre |
| KakuroPlacement.CandidateRow | src/kakuro/generator.rs:175-221 | one row of the candidate loop appends its passing cells in order |
| KakuroPlacement.Candidates | src/kakuro/generator.rs:172-222 | the candidates are exactly the cells passing the tests, in row-major order |
| KakuroPlacement.MarkPair | src/kakuro/generator.rs:229-230 | one try marks the drawn cell and its mirror |
| KakuroPlacement.Try | src/kakuro/generator.rs:227-236 | one try reports success exactly when the marked board's free cells are connected |
| KakuroPlacement.Attempts | src/kakuro/generator.rs:224-244 | the round makes 1 to 10 tries, stops at the first whose board is connected, makes all ten when none is, and keeps every failed mark |
| KakuroPlacement.LineRuns | src/kakuro/generator.rs:247-258 | one line's loop clears `isok` exactly when some streak of the line reaches 10 |
| KakuroPlacement.RunsOk | src/kakuro/generator.rs:246-271 | `isok` stays true exactly when no row or column has ten free cells in a row |
| KakuroPlacement.Crop | src/kakuro/generator.rs:284-290 | the copy holds exactly the top-left `height` by `width` part |
| KakuroPlacement.CropRow | src/kakuro/generator.rs:285-289 | one row of the copy |
| KakuroPlacement.Round | src/kakuro/generator.rs:172-244 | a round that goes on leaves a framed, symmetric, connected board with strictly fewer free cells |
| KakuroPlacement.GeneratePlacement | src/kakuro/generator.rs:159-292 | a returned placement is `height` by `width`, with clues on the top row and left column, symmetric inside under a half-turn, its non-clue cells connected and no row or column with ten of them in a row |
| KakuroDictionary.At | src/kakuro/dictionary.rs:10-12 | `at` finds an entry exactly when the index lies inside the table, and panics otherwise |
| KakuroDictionary.AtCorrect | src/kakuro/dictionary.rs:10-12 | in range, `at` of the built dictionary returns the entry whose meaning `TableCorrect` proves |
| KakuroDictionary.ImperativeAllowedMeaning | src/kakuro/dictionary.rs:13-18 | for a run with a completion, `imperative` holds the digits of every completion and `allowed` the digits of some |
| KakuroDictionary.EntrySubsets | src/kakuro/dictionary.rs:3 | a solvable entry has imperative digits among the allowed ones, and those among the available ones |
| KakuroDictionary.AtMeaning | src/kakuro/dictionary.rs:10-12 | the entry `at` finds means what an entry promises |
| KakuroDictionary.NineDigits | src/kakuro/dictionary.rs:76 | the only nine-digit set is every digit |
| KakuroDictionary.NineInAll | src/kakuro/dictionary.rs:76 | every digit is in every nine-cell completion summing to 45 |
| KakuroDictionary.NineEntry | src/kakuro/dictionary.rs:76 | that run's entry is `(CAND_ALL, CAND_ALL)` |
| KakuroDictionary.AtNine45 | src/kakuro/dictionary.rs:76 | `at(9, 45, CAND_ALL) == (0b111111111, 0b111111111)` |
| KakuroDictionary.AtNine44 | src/kakuro/dictionary.rs:75 | `at(9, 44, CAND_ALL) == IMPOSSIBLE` |
| KakuroDictionary.OneOneSolution | src/kakuro/dictionary.rs:59 | the only one-cell completion summing to 1 is {1} |
| KakuroDictionary.OneOneEntry | src/kakuro/dictionary.rs:59 | that run's entry is `({1}, {1})` |
| KakuroDictionary.AtOne1 | src/kakuro/dictionary.rs:59 | `at(1, 1, CAND_ALL) == (0b1, 0b1)` |
| KakuroDictionary.TwoFivePairs | src/kakuro/dictionary.rs:66 | {1, 4} and {2, 3} complete a two-cell run summing to 5 |
| KakuroDictionary.TwoFiveBound | src/kakuro/dictionary.rs:66 | no digit above 4 fits such a run |
| KakuroDictionary.Low4Mask | src/kakuro/dictionary.rs:66 | `0b1111` is the set {1, 2, 3, 4} |
| KakuroDictionary.TwoFiveAllowed | src/kakuro/dictionary.rs:66 | the digits used by some completion are exactly 1 to 4 |
| KakuroDictionary.TwoFiveImperative | src/kakuro/dictionary.rs:66 | no digit is in every completion |
| KakuroDictionary.TwoFiveEntry | src/kakuro/dictionary.rs:66 | that run's entry is `(0, {1, 2, 3, 4})` |
| KakuroDictionary.AtTwo5 | src/kakuro/dictionary.rs:66 | `at(2, 5, CAND_ALL) == (0b0, 0b1111)` |
| KakuroFieldShape.Size | src/kakuro/field_shape.rs:10-12 | `size` is the number of whole steps that fit in the range |
| KakuroFieldShape.ElementsMembers | src/kakuro/field_shape.rs:14-22 | iterating a group yields exactly the slots on its stride inside its range |
| KakuroFieldShape.InGrpStep | src/kakuro/field_shape.rs:16-21 | a slot on the stride is the first one or on the stride of the advanced group |
| KakuroFieldShape.ElementsIndex | src/kakuro/field_shape.rs:14-22 | the `k`-th slot yielded is `start + k * step`, in increasing order |
| KakuroFieldShape.ElementsSize | src/kakuro/field_shape.rs:10-22 | a group yields `size()` slots when its range is a whole number of steps, as every group `new` builds is |
| KakuroFieldShape.NextElements | src/kakuro/field_shape.rs:16-21 | `next` returns the first slot yielded, or `None` when there is none, and leaves the rest to the advanced group |
| KakuroFieldShape.GrpExamples | src/kakuro/field_shape.rs:106-139 | `{3, 6, 1}` yields 3, 4, 5 and `{4, 16, 3}` yields 4, 7, 10, 13 |
| KakuroFieldShape.RowBounds | src/kakuro/field_shape.rs:44-46 | a row's slots lie inside the board |
| KakuroFieldShape.RowZero | src/kakuro/field_shape.rs:54 | on a board with columns, a row starts at slot 0 exactly when it is the first one, where `s - 1` can underflow |
| KakuroFieldShape.HRunOfRow | src/kakuro/field_shape.rs:47-53 | the run a row closes is a maximal horizontal run |
| KakuroFieldShape.HPassStart | src/kakuro/field_shape.rs:38-41 | before the first row every cell carries `(0, 0)` and there is no group |
| KakuroFieldShape.SlotRowCol | src/kakuro/field_shape.rs:75-84 | slot `y * width + x` lies in row `y` and column `x`, and the slot below it is `width` further on |
| KakuroFieldShape.ColumnInGrp | src/kakuro/field_shape.rs:73-77 | every slot of a column between two rows is on the column group's stride |
| KakuroFieldShape.InGrpColumn | src/kakuro/field_shape.rs:73-77 | every slot of a column group lies in its column, between its rows |
| KakuroFieldShape.VRunOfColumn | src/kakuro/field_shape.rs:71-77 | the run a column closes is a maximal vertical run |
| KakuroFieldShape.SlotOf | src/kakuro/field_shape.rs:71 | a slot lies in its row and column |
| KakuroFieldShape.SlotUnique | src/kakuro/field_shape.rs:71 | the one slot of column `x` and row `y` is `y * width + x` |
| KakuroFieldShape.KeepsRowsPush | src/kakuro/field_shape.rs:73-78 | appending a vertical group keeps the horizontal groups as the prefix |
| KakuroFieldShape.VCellsNextColumn | src/kakuro/field_shape.rs:68 | once a column is done its slots count as visited |
| KakuroFieldShape.VGroupsNextColumn | src/kakuro/field_shape.rs:68 | once a column is done its groups lie among the finished columns |
| KakuroFieldShape.VCellsStart | src/kakuro/field_shape.rs:67-68 | the vertical pass starts with nothing visited |
| KakuroFieldShape.VPassStart | src/kakuro/field_shape.rs:67-68 | the horizontal pass's result is where the vertical pass starts |
| KakuroFieldShape.TopOpenAt | src/kakuro/field_shape.rs:78 | a non-clue top-row cell opens a run at which `s - width` underflows |
| KakuroFieldShape.TopClosed | src/kakuro/field_shape.rs:78 | with clues in every top-row cell no run starts in the top row |
| KakuroFieldShape.ShapeGroups | src/kakuro/field_shape.rs:43-89 | after both passes every group is a maximal run with its clue slot left of or above it; horizontal groups come first, in increasing slot order, and no two vertical groups are equal |
| KakuroFieldShape.ShapeCells | src/kakuro/field_shape.rs:43-89 | after both passes clue cells carry `(0, 0)` and every other cell the horizontal and the vertical group it lies on |
| KakuroFieldShape.ShapeOf | src/kakuro/field_shape.rs:35-97 | both passes together build the shape `new` promises |
| KakuroFieldShapeSteps.HCloseStep | src/kakuro/field_shape.rs:47-57 | a clue or the row's end closes the open run as the next group, with its clue slot `s - 1` |
| KakuroFieldShapeSteps.HSkipStep | src/kakuro/field_shape.rs:47-57 | a clue or the row's end with no run open changes nothing but the column |
| KakuroFieldShapeSteps.HOpenStep | src/kakuro/field_shape.rs:58-62 | a non-clue cell with no run open opens one and joins the next group |
| KakuroFieldShapeSteps.HExtendStep | src/kakuro/field_shape.rs:58-62 | a non-clue cell extends the open run and joins the next group |
| KakuroFieldShapeSteps.VCloseStep | src/kakuro/field_shape.rs:71-81 | a clue or the column's end closes the open run as the next group, with its clue slot `s - width` |
| KakuroFieldShapeSteps.VSkipStep | src/kakuro/field_shape.rs:71-81 | a clue or the column's end with no run open changes nothing but the row |
| KakuroFieldShapeSteps.VOpenStep | src/kakuro/field_shape.rs:82-86 | a non-clue cell with no run open opens one and joins the next group |
| KakuroFieldShapeSteps.VExtendStep | src/kakuro/field_shape.rs:82-86 | a non-clue cell extends the open run and joins the next group |
| KakuroFieldShapeSteps.ColPosUnderflow | src/kakuro/field_shape.rs:78 | a run still open with its first slot in the top row starts at a non-clue top cell |
| KakuroFieldShapeNew.HRowEntry | src/kakuro/field_shape.rs:45-46 | the row loop's invariant holds before column 0 |
| KakuroFieldShapeNew.HRowExit | src/kakuro/field_shape.rs:46-64 | after column `width` every run of the row is closed |
| KakuroFieldShapeNew.VColEntry | src/kakuro/field_shape.rs:69-70 | the column loop's invariant holds before row 0 |
| KakuroFieldShapeNew.VColExit | src/kakuro/field_shape.rs:70-88 | after row `height` every run of the column is closed, and its top cell is a clue |
| KakuroFieldShapeNew.HStep | src/kakuro/field_shape.rs:47-63 | one pass of the row loop keeps its invariant, and fails exactly where `s - 1` underflows |
| KakuroFieldShapeNew.HorizontalRow | src/kakuro/field_shape.rs:45-64 | one row closes all its runs as groups, or panics at slot 0 |
| KakuroFieldShapeNew.HorizontalPass | src/kakuro/field_shape.rs:43-65 | the horizontal pass panics exactly when the board's first cell is not a clue, and otherwise gives every row's runs their groups |
| KakuroFieldShapeNew.VStep | src/kakuro/field_shape.rs:71-87 | one pass of the column loop keeps its invariant, and fails exactly where `s - width` underflows |
| KakuroFieldShapeNew.VerticalColumn | src/kakuro/field_shape.rs:69-88 | one column closes all its runs as groups, or panics at its top cell |
| KakuroFieldShapeNew.VerticalPass | src/kakuro/field_shape.rs:67-89 | the vertical pass panics exactly when a top-row cell is not a clue, and otherwise gives every column's runs their groups |
| KakuroFieldShapeNew.New | src/kakuro/field_shape.rs:35-97 | `FieldShape::new` panics exactly when a top-row cell is not a clue, and otherwise returns the board's maximal runs as groups with their clue slots and every cell's two groups |
| KakuroFieldCounts.InitialCounts | src/kakuro/field.rs:84-89 | with every cell undecided and holding all nine digits, the undecided count is the number of non-clue cells and the candidate total nine times that |
| KakuroFieldCounts.UndecidedUpdate | src/kakuro/field.rs:154-155 | writing one cell moves the undecided count by that cell alone |
| KakuroFieldCounts.CandsUpdate | src/kakuro/field.rs:163-164 | replacing one cell's candidates moves the candidate total by that cell's counts alone |
| KakuroFieldCounts.UndecidedPositive | src/kakuro/field.rs:155 | an undecided non-clue cell is counted, so `undecided_cells -= 1` does not underflow |
| KakuroFieldCounts.UndecidedAtMost | src/kakuro/field.rs:88 | no more cells are undecided than there are non-clue cells |
| KakuroFieldCounts.NonCluePositive | src/kakuro/field.rs:28-37 | a non-clue cell is counted among the non-clue cells |
| KakuroFieldCounts.GUnusedMeaning | src/kakuro/field.rs:169-173 | a group's `unused` holds a digit exactly when none of its cells is decided to it |
| KakuroFieldCounts.ExcludeCommutes | src/kakuro/field.rs:169-173 | excluding two digits gives the same set in either order |
| KakuroFieldCounts.GroupUntouched | src/kakuro/field.rs:166-173 | deciding a cell outside a group leaves that group's counters alone |
| KakuroFieldCounts.GroupDecided | src/kakuro/field.rs:166-173 | deciding an undecided cell of a group to `v` lowers `unmet_num` by one and `unmet_sum` by `v`, and takes `v` out of `unused` |
| KakuroFieldCounts.GroupInitial | src/kakuro/field.rs:69-77 | with every cell undecided a group counts all its cells, its whole clue and every digit |
| KakuroFieldCounts.CountSplit | src/kakuro/field.rs:193 | the digits a limit keeps and the digits it removes add up to the cell's count |
| KakuroFieldCounts.ChangedLoses | src/kakuro/field.rs:190-193 | a limit that changes a cell removes at least one digit |
| KakuroFieldCounts.SingletonLimited | src/kakuro/field.rs:190-199 | a limit that changes a decided cell's single digit leaves it empty |
| KakuroFieldCounts.SingletonCount | src/kakuro/field.rs:163-164 | a singleton counts one digit |
| KakuroFieldShapeRuns.ElementsIncreasing | src/kakuro/field_shape.rs:14-22 | a group yields its slots in increasing order |
| KakuroFieldShapeRuns.RowSplit | src/kakuro/field_shape.rs:45-46 | slots on both sides of a row boundary are in different rows |
| KakuroFieldShapeRuns.HRunsMeet | src/kakuro/field_shape.rs:43-65 | two maximal horizontal runs sharing a slot are the same run |
| KakuroFieldShapeRuns.SameStride | src/kakuro/field_shape.rs:73-77 | two slots a whole number of strides below a third are a whole number of strides apart |
| KakuroFieldShapeRuns.VRunsMeet | src/kakuro/field_shape.rs:67-89 | two maximal vertical runs sharing a slot are the same run |
| KakuroFieldShapeRuns.GroupsDiffer | src/kakuro/field_shape.rs:43-89 | two different groups of the same direction are different runs |
| KakuroFieldShapeRuns.GroupOk | src/kakuro/field.rs:183 | a group yields non-clue cells of the board, each once, in increasing order |
| KakuroFieldShapeRuns.OnlyTwo | src/kakuro/field.rs:166 | a group holding a non-clue cell is one of the two groups `cell_to_groups` names for it |
| KakuroFieldShapeRuns.CellOk | src/kakuro/field.rs:166 | a non-clue cell lies in both groups `cell_to_groups` names, which differ, and in no other |
| KakuroFieldShapeRuns.ShapeSpecOk | src/kakuro/field.rs:39 | the shape `FieldShape::new` promises is one whose groups and cells the field can rely on |
| KakuroFieldShapeRuns.LayoutOfOk | src/kakuro/field.rs:166-183 | the group slot lists and cell groups read off such a shape have the same properties |
| KakuroFieldShapeTest.TestBoardRows | src/kakuro/field_shape.rs:144-152 | the closed form of the test board agrees with its six rows, cell by cell |
| KakuroFieldShapeTest.HRunShape | src/kakuro/field_shape.rs:44-65 | a maximal horizontal run of the test board is one of its five row runs |
| KakuroFieldShapeTest.VRunShape | src/kakuro/field_shape.rs:68-89 | a maximal vertical run of the test board is one of its four column runs |
| KakuroFieldShapeTest.VRunsDisjoint | src/kakuro/field_shape.rs:68-89 | no cell lies on two vertical runs of the test board |
| KakuroFieldShapeTest.CellRuns | src/kakuro/field_shape.rs:44-89 | the two groups a shape of the test board gives an open cell are runs holding it, with their clue slots beside them |
| KakuroFieldShapeTest.GroupsDistinct | src/kakuro/field_shape.rs:49-79 | no group is pushed twice |
| KakuroFieldShapeTest.GroupsWithin | src/kakuro/field_shape.rs:49-79 | every group of the test board's shape is one of its nine runs |
| KakuroFieldShapeTest.GroupsCoverH | src/kakuro/field_shape.rs:44-65 | every horizontal run of the test board is a group |
| KakuroFieldShapeTest.GroupsCoverV | src/kakuro/field_shape.rs:68-89 | every vertical run of the test board is a group |
| KakuroFieldShapeTest.GroupCount | src/kakuro/field_shape.rs:155 | the shape of the test board has exactly nine groups |
| KakuroFieldShapeTest.CellGroups | src/kakuro/field_shape.rs:157-164 | cell (4, 1) is on the groups clued at `Horizontal(16)` and `Vertical(13)` |
| KakuroFieldShapeTest.ShapeTest | src/kakuro/field_shape.rs:142-165 | both assertions of `test_field_shape`, for every shape `FieldShape::new` may build |
| KakuroFieldShapeTest.ShapeTestRun | src/kakuro/field_shape.rs:153-164 | `FieldShape::new` on the test board does not panic and returns nine groups, with cell (4, 1) clued at slots 16 and 13 |
| KakuroFieldState.DecideMissing | src/kakuro/field.rs:154-162 | deciding an undecided cell to a digit it does not have lowers the undecided count, which was positive, and makes the field inconsistent with the invariant kept |
| KakuroFieldState.DecideKept | src/kakuro/field.rs:154-173 | deciding an undecided cell to one of its digits keeps the invariant with the cell a singleton, both its groups moved by `Decided`, and the counters lowered by amounts that do not underflow |
| KakuroFieldState.ValuesSet | src/kakuro/field.rs:154 | writing a digit into a non-clue cell keeps every cell's value well formed |
| KakuroFieldState.CellsSet | src/kakuro/field.rs:154-164 | writing a digit and its singleton into a cell keeps every cell agreeing with its candidates |
| KakuroFieldState.GroupAcross | src/kakuro/field.rs:166-173 | a group's counters agree with its cells after a decision, moved exactly when the cell is one of the group's |
| KakuroFieldState.DecideGroups | src/kakuro/field.rs:166-173 | moving the cell's two groups by `Decided` keeps every group's counters agreeing with the cells |
| KakuroFieldState.LimitStep | src/kakuro/field.rs:189-200 | a limit that changes a cell keeps the invariant, lowers the candidate total by the digits removed without underflow, turns the field inconsistent when none is left, and on a consistent field touches only undecided cells |
| KakuroFieldState.WithinTrans | src/kakuro/field.rs:194 | narrowing twice narrows |
| KakuroFieldState.FollowsTrans | src/kakuro/field.rs:126-129 | two propagation stages one after the other make one stage |
| KakuroFieldState.FollowsRefl | src/kakuro/field.rs:190-192 | doing nothing is a propagation stage |
| KakuroFieldState.StepFollows | src/kakuro/field.rs:193-200 | a step that narrows and moves no group is a propagation stage |
| KakuroFieldState.FollowsAfter | src/kakuro/field.rs:166-179 | a step that moves two groups, followed by propagation and then by queueing both groups, is a propagation stage |
| KakuroFieldState.NarrowAt | src/kakuro/field.rs:164 | replacing one cell's candidates by a subset narrows the field |
| KakuroFieldState.KeepAt | src/kakuro/field.rs:147-154 | deciding an undecided cell keeps every decided one |
| KakuroFieldState.WithinSingleton | src/kakuro/field.rs:159-164 | a candidate's singleton lies within the candidates |
| KakuroFieldState.LacksShrinks | src/kakuro/field.rs:181-188 | a digit removed from a group's other cells stays removed |
| KakuroFieldState.CoveredFollows | src/kakuro/field.rs:126-129 | every group stays queued, inconsistent or with an entry through a propagation stage |
| KakuroFieldState.CoveredAfterCheck | src/kakuro/field.rs:126-129 | after the popped group's check leaves it queued, with an entry or the field inconsistent, every group is covered again |
| KakuroFieldState.NarrowsStep | src/kakuro/field.rs:126-129 | popping a group and checking it keeps the field narrowing |
| KakuroFieldState.FollowsNarrows | src/kakuro/field.rs:126-129 | a propagation stage narrows the field |
| KakuroFieldState.NarrowsChain | src/kakuro/field.rs:121-131 | narrowing twice narrows |
| KakuroFieldState.SettledSolvable | src/kakuro/field.rs:211-215 | a group whose dictionary entry is not `IMPOSSIBLE` can still be completed from its free digits |
| KakuroFieldState.SettledGroups | src/kakuro/field.rs:132-142 | once the queue has run empty on a consistent, covered field, every group can still be completed from its free digits |
| KakuroFieldScan.LimitedFollows | src/kakuro/field.rs:229-245 | cells already decided or narrowed by a technique stay so through later propagation |
| KakuroFieldScan.DisjointWithin | src/kakuro/field.rs:230 | a set meets no digit of `u` exactly when it lies within `!u` |
| KakuroFieldScan.CountWithHas | src/kakuro/field.rs:221-226 | an undecided cell that has `d` is counted for `d` |
| KakuroFieldScan.CountWithTwo | src/kakuro/field.rs:221-226 | two undecided cells that have `d` count `d` twice |
| KakuroFieldScan.CountWithWitness | src/kakuro/field.rs:221-226 | a counted digit has an undecided cell that has it |
| KakuroFieldScan.CountWithWitnessOther | src/kakuro/field.rs:221-226 | a digit counted twice has a second cell that has it |
| KakuroFieldScan.OnePlace | src/kakuro/field.rs:221-227 | a digit is counted once exactly when one undecided cell alone has it |
| KakuroFieldScan.OpenAppend | src/kakuro/field.rs:252-260 | the undecided cells of two lists joined are those of each, joined |
| KakuroFieldScan.OpenCount | src/kakuro/field.rs:249 | a group has as many undecided cells as its `unmet_num` counts |
| KakuroFieldScan.OpenIn | src/kakuro/field.rs:252-260 | the undecided cells of a group are cells of the board |
| KakuroFieldScan.OpenMembers | src/kakuro/field.rs:252-260 | a cell is listed as undecided exactly when it is an undecided cell of the group |
| KakuroFieldScan.TwoLimitMeaning | src/kakuro/field.rs:263-278 | the two-cell limit keeps a digit exactly when the other cell can take its partner `sum - y`, and keeps every digit without a partner |
| KakuroFieldScan.TwoLimitSound | src/kakuro/field.rs:263-280 | the two-cell limits keep every pair of candidates adding up to the sum |
| KakuroFieldScan.NakedPairSound | src/kakuro/field.rs:284-299 | a third cell's value differs from both digits of a naked pair, so the pair's complement keeps it |
| KakuroFieldScan.CountThree | src/kakuro/field.rs:286 | a set with three different digits counts at least three |
| KakuroFieldScan.InitNonEmpty | src/kakuro/field.rs:310-317 | dropping the last cell keeps every undecided cell non-empty |
| KakuroFieldScan.InitPicks | src/kakuro/field.rs:310-317 | a choice of candidates for the cells is one for all but the last |
| KakuroFieldScan.PickBetween | src/kakuro/field.rs:308-317 | every choice of candidates adds up to between `min_sum` and `max_sum` |
| KakuroFieldScan.PickOthers | src/kakuro/field.rs:326-327 | the other cells' choices add up to between `min_sum` less this cell's smallest and `max_sum` less its largest |
| KakuroFieldScan.MinMaxSound | src/kakuro/field.rs:326-331 | when the undecided cells take candidates adding up to `unmet_sum`, every cell's value lies within its min-max limit |
| KakuroFieldScan.UpdatesMembers | src/kakuro/field.rs:318-337 | `update_list` holds exactly the undecided cells whose limit is not every digit, each with its limit |
| KakuroFieldScan.UpdatesGrow | src/kakuro/field.rs:320-337 | more cells give at least as many updates |
| KakuroFieldScan.UpdatesStep | src/kakuro/field.rs:320-337 | one more cell adds its own update, if any, at the end |
| KakuroFieldScan.UpdatesLength | src/kakuro/field.rs:318-337 | there are no more updates than cells |
| KakuroFieldScan.UniqueMeaning | src/kakuro/field.rs:219-227 | a digit is unique exactly when it is imperative and one undecided cell alone has it |
| KakuroFieldScan.UniqueDigits | src/kakuro/field.rs:219-227 | the `uniq`/`mult` loop computes exactly the unique digits |
| KakuroFieldScan.FindTwo | src/kakuro/field.rs:250-260 | `c1` is the first undecided cell and `c2` the last one after it, each `None` when there is none |
| KakuroFieldScan.TwoLimits | src/kakuro/field.rs:263-278 | the loop over `i` computes each cell's two-cell limit from the other cell's candidates |
| KakuroFieldScan.MinMaxSums | src/kakuro/field.rs:307-317 | the loop adds up the smallest and the largest candidates of the undecided cells, and fails exactly when an undecided cell is empty |
| KakuroFieldScan.MinMaxUpdates | src/kakuro/field.rs:318-337 | the loop fills `update_list` with exactly the specified updates, and fails exactly when there are more than nine |
| KakuroField.Field.constructor | src/kakuro/field.rs:80-92 | the field starts every cell undecided with all nine digits, every group at its counters, the counters at the non-clue cells, and an empty queue |
| KakuroField.Field.SetTechnique | src/kakuro/field.rs:118-120 | replaces the techniques and nothing else |
| KakuroField.Field.Decide | src/kakuro/field.rs:121-131 | decides the cell and propagates: candidates only narrow, decided cells keep their values, a conflicting value makes the field inconsistent, and unless it panics a covered field stays covered with the queue empty |
| KakuroField.Field.CheckAll | src/kakuro/field.rs:132-142 | checks every group: candidates only narrow, and unless it panics it ends with the queue empty and either every group's entry not `IMPOSSIBLE` or the field inconsistent |
| KakuroField.Field.RunQueue | src/kakuro/field.rs:126-129 | pops and checks groups until the queue is empty, only narrowing, and keeps every group covered |
| KakuroField.Field.DecideInt | src/kakuro/field.rs:146-180 | a decided cell stays and a conflict makes the field inconsistent; an undecided cell takes the value, turns the field inconsistent where the value is no candidate, and otherwise keeps that digit alone with the digit removed from the rest of both its groups |
| KakuroField.Field.EliminateAround | src/kakuro/field.rs:175-176 | the digit is removed from every other cell of both groups of the decided cell |
| KakuroField.Field.QueueGroups | src/kakuro/field.rs:178-179 | both moved groups are queued, and nothing else changes |
| KakuroField.Field.AssignCell | src/kakuro/field.rs:154-173 | writes the value and, when it is a candidate, the singleton and both groups' counters, and otherwise makes the field inconsistent |
| KakuroField.Field.AssignMissing | src/kakuro/field.rs:154-162 | a value that is no candidate is written and makes the field inconsistent |
| KakuroField.Field.AssignKept | src/kakuro/field.rs:154-173 | a value that is a candidate is written with its singleton, and both groups move by `Decided` |
| KakuroField.Field.EliminateCandFromGroup | src/kakuro/field.rs:181-188 | no cell of the group other than `cur` keeps the digit |
| KakuroField.Field.LimitCand | src/kakuro/field.rs:189-208 | the cell ends within the limit; a limit that changes nothing changes nothing; an emptied cell makes the field inconsistent; a single digit left is decided |
| KakuroField.Field.NarrowCell | src/kakuro/field.rs:190-200 | intersects the cell with the limit and turns a consistent field inconsistent exactly when the cell is left empty |
| KakuroField.Field.CheckGroup | src/kakuro/field.rs:209-342 | an `IMPOSSIBLE` entry makes the field inconsistent; otherwise the group ends queued, with an entry, or inconsistent; it panics only where `at` leaves the table, on an inconsistent field, or on a group of more than nine cells |
| KakuroField.Field.UniquePosition | src/kakuro/field.rs:217-236 | when the technique applies, no undecided cell of the group keeps a digit that had exactly one place |
| KakuroField.Field.DecideUnique | src/kakuro/field.rs:228-235 | no undecided cell of the group keeps a digit of `uniq` |
| KakuroField.Field.DecideUniqueSlot | src/kakuro/field.rs:230-233 | the cell is decided or keeps no digit of `uniq` |
| KakuroField.Field.DictionaryLimit | src/kakuro/field.rs:238-245 | when the technique applies, every undecided cell of the group keeps only allowed digits |
| KakuroField.Field.TwoCells | src/kakuro/field.rs:247-281 | when the technique applies, the first and last undecided cells end within their two-cell limits; the unwraps fail only on an inconsistent field |
| KakuroField.Field.TwoTargets | src/kakuro/field.rs:248-278 | finds the first and last undecided cells and their two-cell limits, or reports that there are fewer than two, which happens only on an inconsistent field |
| KakuroField.Field.LimitPair | src/kakuro/field.rs:279-280 | both cells end within their limits |
| KakuroField.Field.NakedPair | src/kakuro/field.rs:283-303 | keeps the invariant and only narrows |
| KakuroField.Field.PairsOf | src/kakuro/field.rs:285-302 | keeps the invariant and only narrows |
| KakuroField.Field.ExcludePair | src/kakuro/field.rs:293-300 | keeps the invariant and only narrows |
| KakuroField.Field.MinMax | src/kakuro/field.rs:305-341 | when the technique applies, every undecided cell ends within its min-max limit; it panics only on an inconsistent field or a group of more than nine cells |
| KakuroField.Field.ApplyUpdates | src/kakuro/field.rs:338-340 | every listed cell ends within its limit |
| KakuroField.ClueCells | src/kakuro/field.rs:26-38 | `has_clue` marks exactly the cells of the problem that hold a clue |
| KakuroField.ClueAt | src/kakuro/field.rs:52-68 | a clue location reads the vertical or horizontal sum of its clue cell, and has none where that cell holds no clue |
| KakuroField.MarkClues | src/kakuro/field.rs:25-38 | the loop marks the clue cells and counts the others |
| KakuroField.StartGrps | src/kakuro/field.rs:51-78 | gives every group its size, its clue and every digit, or reports a group whose clue location holds no clue |
| KakuroField.Materialise | src/kakuro/field.rs:39 | lists each group's slots as iteration yields them |
| KakuroField.NewField | src/kakuro/field.rs:24-93 | builds the starting field of the board's shape; it panics when a top-row cell is open, and a panic on any other board comes from a group whose clue location holds no clue |
| KakuroFormat.ParseHeader | src/kakuro/format.rs:14-32 | a header that does not read fails with `Error::Format` |
| KakuroFormat.ParseEntry | src/kakuro/format.rs:38-42 | a clue line that does not read fails with `Error::Format` |
| KakuroFormat.PlaceShape | src/kakuro/format.rs:44-47 | writing the clue lines keeps the grid's shape |
| KakuroFormat.PlaceUnnamed | src/kakuro/format.rs:36-48 | a cell that no clue line names keeps its content |
| KakuroFormat.PlaceLastWins | src/kakuro/format.rs:36-48 | a cell holds the clue of the last line that names it |
| KakuroFormat.ReadPenciloidProblem | src/kakuro/format.rs:7-51 | the reader returns exactly the specified outcome |
| KakuroFormat.FoldPlace | src/kakuro/format.rs:36-48 | clue lines that all read write their entries in order |
| KakuroFormat.ReadShape | src/kakuro/format.rs:7-51 | a parsed grid has the header's height and width, after exactly `count` clue lines |
| KakuroFormat.ReadCells | src/kakuro/format.rs:34-48 | in a parsed grid a cell named by a clue line holds the sums of the last such line, and every other cell is `NoClue` |
| KakuroFormat.ReadExtend | src/kakuro/format.rs:14-48 | only the header and `count` clue lines are read: whatever follows does not change the outcome |
| KakuroFormat.ReadBadHeader | src/kakuro/format.rs:16-31 | a header with a missing or non-integer field makes the read `Error::Format` |
| KakuroIo.IoField | src/kakuro/io.rs:17-22 | a field never fails with an I/O error |
| KakuroIo.IoFieldErrors | src/kakuro/io.rs:17-22 | a field is `InvalidFormat` exactly when it is missing and `InvalidValue` exactly when it is present and not an `i32`; otherwise it is the parsed value |
| KakuroIo.ParseHeader | src/kakuro/io.rs:15-35 | a header that does not read fails with `InvalidFormat` or `InvalidValue` |
| KakuroIo.ParseEntry | src/kakuro/io.rs:41-65 | a clue line that does not read fails with `InvalidFormat` or `InvalidValue` |
| KakuroIo.ReadPenciloidProblem | src/kakuro/io.rs:7-74 | the reader returns exactly the specified outcome |
| KakuroIo.ToFormatError | src/format/mod.rs:31-41 | an I/O error stays an I/O error, and both field errors become `Error::Format` |
| KakuroIo.IoFieldAgrees | src/kakuro/io.rs:17-22 | a field reads here exactly when it reads in src/kakuro/format.rs, with the same value |
| KakuroIo.ClueLineAgrees | src/kakuro/io.rs:40-70 | a clue line does the same as in src/kakuro/format.rs once errors are merged |
| KakuroIo.HeaderAgrees | src/kakuro/io.rs:15-35 | a header reads here exactly when it reads in src/kakuro/format.rs, with the same fields |
| KakuroIo.ReadAgrees | src/kakuro/io.rs:7-74 | the two readers agree on every input once both field errors are merged into `Error::Format`: same grids, same panics, same endless reads, same I/O errors |
| KakuroIo.ReadShortHeader | src/kakuro/io.rs:17-34 | a header with fewer than three fields, all of them integers, is `InvalidFormat` |
| KakuroIo.ReadBadHeaderValue | src/kakuro/io.rs:17-34 | a header whose `k`-th field is present and not an integer, after `k` good ones, is `InvalidValue` |
| KakuroIo.ReadCells | src/kakuro/io.rs:37-71 | a parsed grid is the one src/kakuro/format.rs reads: the header's shape, each cell the last clue line naming it or `NoClue` |
| NumberlinkAnswer.EdgeAt | src/numberlink/generator_field.rs:104-110 | `get_edge`: the stored edge on the lattice, `Blank` off it |
| NumberlinkAnswer.UndecidedAroundSpec | src/numberlink/generator_field.rs:117-146 | `undecided_neighbors` lists exactly the undecided edges around a vertex, in the order down, right, up, left, each once; with the line count of `count_neighbor` they account for at most the four edges |
| NumberlinkAnswer.SeedHasUndecided | src/numberlink/generator_field.rs:166-169 | a seed (no line and two undecided edges, or one line and an undecided edge) has an undecided edge to grow along and at most one line |
| NumberlinkAnswer.CellIdRange | src/numberlink/generator_field.rs:215-217 | the row-major index of a board cell lies in `[0, h * w)` |
| NumberlinkAnswer.CellIdCoord | src/numberlink/generator_field.rs:215-217 | every index in `[0, h * w)` is the index of the cell `(i / w, i % w)`, so `coord` inverts `index` |
| NumberlinkAnswer.CellIdInjective | src/numberlink/generator_field.rs:215-217 | two cells of one row width with the same index are the same cell |
| NumberlinkAnswer.VertexIdInjective | src/numberlink/generator_field.rs:454-460 | two different lattice vertices are queued under different cell indices |
| NumberlinkAnswer.SingletonSets | src/numberlink/generator_field.rs:50 | a `chain_connectivity` of all `-1` is a union-find in which every entry is its own root with a set of size one |
| NumberlinkAnswer.ParentStep | src/numberlink/generator_field.rs:206-213 | following a parent link stays in range, keeps the root and gets strictly closer to it, so `root` terminates |
| NumberlinkAnswer.Compress | src/numberlink/generator_field.rs:194-204 | pointing an entry straight at its root (the path compression of `root_mut`) keeps the union-find invariant |
| NumberlinkAnswer.Link | src/numberlink/generator_field.rs:220-233 | hanging one root under another and adding its negative size to the new root keeps the union-find invariant, with the lost root's members moved over |
| NumberlinkAnswer.LinkRoots | src/numberlink/generator_field.rs:220-233 | after the link every entry's root is a root in range, and a root is its own root at depth 0 |
| NumberlinkAnswer.LinkParents | src/numberlink/generator_field.rs:220-233 | after the link every parent is in range, shares the entry's root and is closer to it |
| NumberlinkAnswer.LinkSizes | src/numberlink/generator_field.rs:220-233 | after the link every root stores minus the size of its set |
| NumberlinkAnswer.RelinkedSets | src/numberlink/generator_field.rs:220-233 | linking the roots of `x` and `y` merges exactly their two sets and leaves both under the surviving root |
| NumberlinkAnswer.MergedSame | src/numberlink/generator_field.rs:222-224 | joining two entries already in one set changes no set |
| NumberlinkAnswer.SeedListPrefix | src/numberlink/generator_field.rs:180-181 | copying the first `seed_count` seeds keeps the seed table consistent and lists the same seeds |
| NumberlinkAnswer.SeedRemove | src/numberlink/generator_field.rs:624-630 | moving the last seed into the removed seed's slot keeps the table consistent and removes exactly that vertex |
| NumberlinkAnswer.SeedAdd | src/numberlink/generator_field.rs:631-636 | appending a vertex that is not listed keeps the table consistent and adds exactly that vertex |
| NumberlinkAnswer.SeedListMembers | src/numberlink/generator_field.rs:622-636 | `seed_idx` is not `-1` exactly at the listed seeds |
| NumberlinkAnswer.SeedRoom | src/numberlink/generator_field.rs:631-634 | when a vertex is added, fewer than `h * w` seeds are listed, so `seeds[seed_count]` is in range |
| NumberlinkGeneratorField.DecideLowers | src/numberlink/generator_field.rs:332-340 | deciding an undecided edge lowers the count of undecided edges and open endpoint constraints by one |
| NumberlinkGeneratorField.ConstrainLowers | src/numberlink/generator_field.rs:299-305 | setting a constraint that was `Any` lowers the same count by one |
| NumberlinkGeneratorField.RunKeepsEdge | src/numberlink/generator_field.rs:321-330 | an edge decided inside a run stays decided, with the same value, after the queue is drained and the run finishes |
| NumberlinkGeneratorField.RunKeepsConstraint | src/numberlink/generator_field.rs:288-297 | a constraint set inside a run keeps its value after the queue is drained and the run finishes |
| NumberlinkGeneratorField.Summarize | src/numberlink/generator_field.rs:148-164 | `None` for no undecided neighbour, `One(c)` exactly when `c` is the only one, `Many` otherwise |
| NumberlinkGeneratorField.AnswerField.constructor | src/numberlink/generator_field.rs:45-87 | every edge undecided, every chain a lone cell of length 0 in a union-find set of its own, the given constraint grid or all `Any`, the forced-cell counter equal to the number of `Forced` constraints, and the four corners as the only seeds |
| NumberlinkGeneratorField.InitialChains | src/numberlink/generator_field.rs:69-74 | each cell is its own chain partner and `forced` is the number of `Forced` entries of the constraint grid |
| NumberlinkGeneratorField.CornerSeeds | src/numberlink/generator_field.rs:76-84 | the seed list and its index grid agree and hold exactly the four corner vertices |
| NumberlinkGeneratorField.CornerSeedIdxAt | src/numberlink/generator_field.rs:80-84 | the index grid maps each corner vertex to its slot 0..3 and every other vertex to -1 |
| NumberlinkGeneratorField.AnswerField.Root | src/numberlink/generator_field.rs:206-213 | the root of `x`'s set in the union-find of chains |
| NumberlinkGeneratorField.AnswerField.RootMut | src/numberlink/generator_field.rs:194-204 | returns the same root as the read-only walk, keeps the union-find invariant and every root's size entry, and changes nothing else |
| NumberlinkGeneratorField.AnswerField.Join | src/numberlink/generator_field.rs:220-233 | the sets of `x` and `y` are merged, every other set is untouched, and when the roots differed the merged set's root is the root of the larger set, `y`'s root on a tie |
| NumberlinkGeneratorField.AnswerField.LinkRoots | src/numberlink/generator_field.rs:224-231 | linking two distinct roots makes the larger set's root the new root of both and keeps the union-find invariant |
| NumberlinkGeneratorField.Joined | src/numberlink/generator_field.rs:220-233 | union by size on two roots yields a union-find whose sets are the old ones with the two merged |
| NumberlinkGeneratorField.AnswerField.HasSeed | src/numberlink/generator_field.rs:235-237 | true exactly when the seed set is nonempty |
| NumberlinkGeneratorField.AnswerField.CountNeighbor | src/numberlink/generator_field.rs:117-132 | the number of line and of undecided edges around the vertex, out-of-board edges counting as blank |
| NumberlinkGeneratorField.AnswerField.UndecidedNeighbors | src/numberlink/generator_field.rs:134-146 | the undecided edges around the vertex, in the order down, right, up, left |
| NumberlinkGeneratorField.AnswerField.UndecidedNeighborsSummary | src/numberlink/generator_field.rs:148-164 | the summary of that list: none, the one edge, or many |
| NumberlinkGeneratorField.AnswerField.IsSeed | src/numberlink/generator_field.rs:166-169 | true exactly when the vertex has no line and two undecided edges, or one line and at least one undecided edge |
| NumberlinkGeneratorField.Complexity | src/numberlink/generator_field.rs:245-267 | a score between 0 and 16 |
| NumberlinkGeneratorField.ComplexityGrows | src/numberlink/generator_field.rs:245-267 | the score of a vertex never falls as the field is decided further |
| NumberlinkGeneratorField.ComplexityMono | src/numberlink/generator_field.rs:245-267 | a field with no more undecided edges around the four neighbours scores at least as high |
| NumberlinkGeneratorField.AnswerField.CopyFrom | src/numberlink/generator_field.rs:173-190 | every field of the copy equals the source's, the live part of the seed list included, so the two seed sets are equal |
| NumberlinkGeneratorField.AnswerField.CopyChains | src/numberlink/generator_field.rs:174-176 | copies the chain partner, union-find and length tables and nothing else |
| NumberlinkGeneratorField.AnswerField.CopyBoard | src/numberlink/generator_field.rs:177-182 | copies the edges and the live seeds and nothing else |
| NumberlinkGeneratorField.AnswerField.CopyConstraints | src/numberlink/generator_field.rs:183-185 | copies the endpoint constraints and both counters and nothing else |
| NumberlinkGeneratorField.AnswerField.CopyOptions | src/numberlink/generator_field.rs:186-189 | copies the threshold, the adjacency option, the symmetry and the invalid flag and nothing else |
| NumberlinkGeneratorField.AnswerField.Inspect | src/numberlink/generator_field.rs:454-460 | queues the cell of the vertex unless it is already queued; nothing else changes |
| NumberlinkGeneratorField.AnswerField.UpdateEndpointConstraintInt | src/numberlink/generator_field.rs:299-310 | the constraint ends as asked or the field is invalid; a constraint already set only flags the field when it differs |
| NumberlinkGeneratorField.AnswerField.Constrain | src/numberlink/generator_field.rs:301-305 | writes the constraint and nothing else, lowering the termination measure |
| NumberlinkGeneratorField.AnswerField.ConstrainQueued | src/numberlink/generator_field.rs:301-306 | writes the constraint and queues the cell without touching edges or the invalid flag |
| NumberlinkGeneratorField.AnswerField.UpdateEndpointConstraint | src/numberlink/generator_field.rs:288-297 | after the whole propagation run the constraint is the one asked for or the field is invalid, and no earlier decision is undone |
| NumberlinkGeneratorField.AnswerField.QueuePopAll | src/numberlink/generator_field.rs:312-319 | inspects queued cells until the queue is empty or the field is invalid, ends with an empty queue, and undoes no decision |
| NumberlinkGeneratorField.AnswerField.StartRun | src/numberlink/generator_field.rs:289-290 | starts the queue and changes nothing else |
| NumberlinkGeneratorField.AnswerField.FinishRun | src/numberlink/generator_field.rs:291-293 | drains and stops the queue, leaving it empty, without undoing a decision |
| NumberlinkGeneratorField.AnswerField.Decide | src/numberlink/generator_field.rs:321-330 | an undecided edge takes the given state; afterwards the edge has that state or the field is invalid; no earlier decision is undone |
| NumberlinkGeneratorField.AnswerField.DecideInt | src/numberlink/generator_field.rs:332-431 | a decided edge only flags the field when the states differ; an undecided one takes the state; a line that closes a chain on itself flags the field; after a line the canonization rule holds on both sides |
| NumberlinkGeneratorField.AnswerField.DecideNew | src/numberlink/generator_field.rs:340-431 | the same for an edge known to be undecided |
| NumberlinkGeneratorField.AnswerField.SetEdge | src/numberlink/generator_field.rs:340 | writes the edge and nothing else, lowering the termination measure |
| NumberlinkGeneratorField.AnswerField.LinkLine | src/numberlink/generator_field.rs:344-375 | stops, with the field invalid, exactly when the two cells of the edge are already the two ends of one chain |
| NumberlinkGeneratorField.AnswerField.Splice | src/numberlink/generator_field.rs:345-369 | `stop` exactly when the line would close a loop; otherwise the far ends become each other's partners, both get length sum + 1, and their union-find sets are merged |
| NumberlinkGeneratorField.AnswerField.SpliceTables | src/numberlink/generator_field.rs:362-365 | swaps the two far ends' partner entries and writes the new length into both |
| NumberlinkGeneratorField.AnswerField.JoinEnds | src/numberlink/generator_field.rs:367-369 | merges the two far ends' union-find sets and changes nothing else |
| NumberlinkGeneratorField.AnswerField.Incident | src/numberlink/generator_field.rs:377-396 | adds one line end for each end vertex of the edge left with one line and no undecided edge, and queues both |
| NumberlinkGeneratorField.AnswerField.Canonize | src/numberlink/generator_field.rs:398-431 | on both sides of the new line, any related edge that was a line has the other two related edges blank or the field invalid |
| NumberlinkGeneratorField.AnswerField.CanonizeBoth | src/numberlink/generator_field.rs:399-431 | the same rule after the chain update, leaving the new edge as it is |
| NumberlinkGeneratorField.AnswerField.CanonizeTriple | src/numberlink/generator_field.rs:401-407 | the rule holds for one triple of related edges |
| NumberlinkGeneratorField.AnswerField.CanonizeEdge | src/numberlink/generator_field.rs:403-406 | one step of the triple: a line at position `i` blanks the other two |
| NumberlinkGeneratorField.AnswerField.ExtendChain | src/numberlink/generator_field.rs:640-687 | an end with no undecided edge makes the other end `Prohibited`; both without one flags the field; one end without and the other with exactly one undecided edge turns that edge into a line |
| NumberlinkGeneratorField.AnswerField.BlockEnd | src/numberlink/generator_field.rs:652-663 | a `Forced` end flags the field and stops; otherwise the end is `Prohibited` |
| NumberlinkGeneratorField.AnswerField.BlockEnds | src/numberlink/generator_field.rs:651-678 | each blocked end makes the opposite end `Prohibited`, or the field is invalid |
| NumberlinkGeneratorField.AnswerField.ExtendLone | src/numberlink/generator_field.rs:679-686 | both ends closed flags the field; one closed and one with a single undecided edge draws that edge |
| NumberlinkGeneratorField.AnswerField.Flag | src/numberlink/generator_field.rs:97-99 | sets the invalid flag and nothing else |
| NumberlinkGeneratorField.AnswerField.InspectInt | src/numberlink/generator_field.rs:462-637 | a vertex with no edge left or three lines flags the field; one line and nothing undecided forces an endpoint; two lines prohibit one; unless the field is invalid the vertex is in the seed set exactly when it is a seed |
| NumberlinkGeneratorField.AnswerField.DegreeRules | src/numberlink/generator_field.rs:463-511 | returns the degree counted on entry and stops, with the field invalid, exactly on no edge left or three lines |
| NumberlinkGeneratorField.AnswerField.VertexRules | src/numberlink/generator_field.rs:513-636 | the endpoint rules, the adjacency and symmetry rules and the seed update in order, with the same results as `InspectInt` for the given degree |
| NumberlinkGeneratorField.AnswerField.InspectRest | src/numberlink/generator_field.rs:533-636 | the rules after the endpoint rules; unless the field is invalid the seed set agrees with the seed test at the vertex |
| NumberlinkGeneratorField.AnswerField.DecideAround | src/numberlink/generator_field.rs:478-484 | every undecided edge around the vertex is decided |
| NumberlinkGeneratorField.AnswerField.ShortChain | src/numberlink/generator_field.rs:485-507 | a chain at or above the threshold is left alone |
| NumberlinkGeneratorField.AnswerField.BlankTowardShort | src/numberlink/generator_field.rs:495-505 | blanks an edge towards a line-ending chain too short to complete this one, undoing nothing |
| NumberlinkGeneratorField.AnswerField.EndpointRules | src/numberlink/generator_field.rs:513-531 | a line end on a `Prohibited` cell, or two lines on a `Forced` one, stops with the field invalid; otherwise a line end becomes `Forced` and a through cell `Prohibited`; other degrees change nothing |
| NumberlinkGeneratorField.AnswerField.ForbidAround | src/numberlink/generator_field.rs:533-553 | with the adjacency option, a forced or line-end cell makes all eight neighbours on the board `Prohibited` (or the field invalid); without it nothing changes |
| NumberlinkGeneratorField.AnswerField.ForbidRow | src/numberlink/generator_field.rs:538-551 | one row of that neighbourhood is `Prohibited` |
| NumberlinkGeneratorField.AnswerField.ForbidAt | src/numberlink/generator_field.rs:540-550 | one neighbour, if on the board and not the cell itself, is `Prohibited` |
| NumberlinkGeneratorField.AnswerField.ForceThrough | src/numberlink/generator_field.rs:554-565 | changes nothing unless the adjacency option is on and the vertex has exactly two possible edges |
| NumberlinkGeneratorField.AnswerField.MirrorConstraint | src/numberlink/generator_field.rs:567-581 | a set constraint is copied to the rotated cell (quarter turn for the tetrad, half turn for the dyad) and to the mirrored cells of each axis asked for; an `Any` cell changes nothing |
| NumberlinkGeneratorField.AnswerField.MirrorTurn | src/numberlink/generator_field.rs:570-574 | the rotated cell carries the constraint |
| NumberlinkGeneratorField.AnswerField.MirrorAxes | src/numberlink/generator_field.rs:575-580 | the mirrored cells carry the constraint |
| NumberlinkGeneratorField.AnswerField.ApplyConstraint | src/numberlink/generator_field.rs:583-620 | `stop` exactly on a line end at a `Prohibited` cell; a `Forced` cell with two lines or that stop flags the field; the remaining cases decide the edges; `Any` changes nothing |
| NumberlinkGeneratorField.AnswerField.UpdateSeed | src/numberlink/generator_field.rs:622-636 | the seed set gains the vertex if it is a seed and loses it otherwise |
| NumberlinkGeneratorField.AnswerField.RemoveSeed | src/numberlink/generator_field.rs:624-630 | the seed set loses the vertex |
| NumberlinkGeneratorField.AnswerField.AddSeed | src/numberlink/generator_field.rs:631-636 | the seed set gains the vertex |
| NumberlinkGeneratorField.AnswerField.InspectAll | src/numberlink/generator_field.rs:435-451 | queues every cell and drains the queue, ending stopped and empty without undoing a decision |
| NumberlinkGeneratorField.AnswerField.QueueAll | src/numberlink/generator_field.rs:443-447 | every cell of the board is queued |
| NumberlinkGeneratorField.AnswerField.InspectRow | src/numberlink/generator_field.rs:444-446 | every cell of the row is queued and nothing queued before is lost |
| NumberlinkGeneratorField.AnswerField.QueueCell | src/numberlink/generator_field.rs:445 | the cell is queued and nothing queued before is lost |
| NumberlinkGeneratorField.AnswerField.ForbidFurtherEndpoint | src/numberlink/generator_field.rs:689-703 | afterwards the field is invalid or no cell is left `Any` |
| NumberlinkGeneratorField.AnswerField.ProhibitAll | src/numberlink/generator_field.rs:694-700 | no cell of the board is left `Any` |
| NumberlinkGeneratorField.AnswerField.ProhibitRow | src/numberlink/generator_field.rs:695-699 | no cell up to the end of the row is left `Any` |
| NumberlinkGeneratorField.AnswerField.ProhibitIfAny | src/numberlink/generator_field.rs:696-698 | the cell is no longer `Any` |
| NumberlinkGeneratorField.AnswerField.AsLinePlacement | src/numberlink/generator_field.rs:706-727 | a fresh placement of the board's size whose right and down flags are set exactly where the lattice edge is a line |
| NumberlinkGeneratorField.DrawPlacement | src/numberlink/generator_field.rs:706-727 | the same conversion from an edge grid |
| NumberlinkGeneratorField.DrawCell | src/numberlink/generator_field.rs:712-722 | one cell's right and down flags follow the lattice, and the cells drawn before keep theirs |
| NumberlinkGenerator.NormaliseSymmetry | src/numberlink/generator.rs:676-680 | a tetrad survives only on a square board and always implies a dyad, a dyad is kept, and the two mirror axes are passed through unchanged |
| NumberlinkGenerator.NormaliseIdempotent | src/numberlink/generator.rs:676-680 | normalising twice gives the same flags as normalising once, and on a square board the tetrad flag is kept |
| NumberlinkGenerator.ReserveCells | src/numberlink/generator.rs:681-707 | every cell of the template constraint grid is `Prohibited` exactly when it is reserved (the centre of an odd board under a dyad, and with the adjacency option the middle rows, middle columns or centre block of the axes and turns asked for) and keeps its given constraint otherwise |
| NumberlinkGenerator.ReservedMirrored | src/numberlink/generator.rs:685-706 | the reserved cells are closed under both mirrors and the half turn |
| NumberlinkGenerator.AdjacentImagesReserved | src/numberlink/generator.rs:688-706 | with the adjacency option, a cell touching its own mirror or half-turn image is reserved, so a clue there cannot sit next to its symmetric partner |
| NumberlinkGenerator.ReserveCellsAsWritten | src/numberlink/generator.rs:681-707 | the reservation as the code writes it: rows `h/2` and `h/2+1`, and the column pair under the horizontal flag; it fails exactly where the code indexes past the board |
| NumberlinkGenerator.ProhibitRowsAsWritten | src/numberlink/generator.rs:689-694 | fails exactly when row `h/2+1` is off the board; otherwise the two rows are `Prohibited` and nothing else changes |
| NumberlinkGenerator.ProhibitColumnsAsWritten | src/numberlink/generator.rs:695-700 | fails exactly on a board two columns wide; otherwise columns `w/2` and `w/2+1` are `Prohibited` and nothing else changes |
| NumberlinkGenerator.AsWrittenCounterexamples | src/numberlink/generator.rs:689-700 | a 2 by 3 board with the horizontal flag makes the code index past the board; on a 4 by 3 board a cell next to its horizontal mirror is not reserved while one whose mirror is unreserved is; under the vertical flag a cell next to its mirror is not reserved |
| NumberlinkGenerator.ProhibitRows | src/numberlink/generator.rs:689-694 | the two given rows are `Prohibited` and every other cell keeps its constraint |
| NumberlinkGenerator.ProhibitColumns | src/numberlink/generator.rs:695-700 | the two given columns are `Prohibited` and every other cell keeps its constraint |
| NumberlinkGenerator.ProhibitCentre | src/numberlink/generator.rs:701-706 | the (up to four) centre cells are `Prohibited` and every other cell keeps its constraint |
| NumberlinkGenerator.ProhibitCell | src/numberlink/generator.rs:686 | one cell becomes `Prohibited` and every other keeps its constraint |
| NumberlinkGenerator.WriteSlot | src/numberlink/generator.rs:690-691 | a write through the flat index succeeds exactly when the index is inside the grid's storage |
| NumberlinkGenerator.ChooseUpdate | src/numberlink/generator.rs:812-830 | every edge the update names is undecided around the seed; a corner is chosen exactly at an empty seed whose cell is not `Forced` when the draw says so; an endpoint update only at an empty seed; an extension exactly at a seed with a line; the two edges of a corner or endpoint update differ |
| NumberlinkGenerator.ChosenOn | src/numberlink/generator.rs:812-830 | the chosen edges are edge positions on the field |
| NumberlinkGenerator.ApplyUpdate | src/numberlink/generator.rs:831-843 | the first edge is a line; a corner makes the second one a line too, an endpoint update makes it blank (or the field is invalid), and no earlier decision is undone |
| NumberlinkGenerator.DecideBoth | src/numberlink/generator.rs:833-839 | both edges hold the asked states or the field is invalid |
| NumberlinkGenerator.DenyUpdate | src/numberlink/generator.rs:844-853 | a refused corner forces the seed's cell to be an endpoint; a refused endpoint or extension blanks its first edge; no earlier decision is undone |
| NumberlinkGenerator.LimitClueNumber | src/numberlink/generator.rs:1083-1104 | over the limit the field is invalid; under it nothing changes; exactly at it every cell of the board is settled, no longer `Any` |
| NumberlinkGenerator.LimitClueNumberAsWritten | src/numberlink/generator.rs:1083-1104 | the same loop as the code writes it, through `(y/2, x/2)`: at the limit it only settles the top-left quadrant |
| NumberlinkGenerator.QuadrantMissesCorner | src/numberlink/generator.rs:1092-1098 | no cell `(y/2, x/2)` of the loop is the bottom-right corner, so the loop as written never settles it |
| NumberlinkGenerator.SettleBoard | src/numberlink/generator.rs:1092-1098 | every cell of the board ends not `Any` |
| NumberlinkGenerator.SettleRow | src/numberlink/generator.rs:1093-1097 | every cell of the row ends not `Any` |
| NumberlinkGenerator.SettleCell | src/numberlink/generator.rs:1094-1096 | the cell ends not `Any` |
| NumberlinkGenerator.SettleQuadrant | src/numberlink/generator.rs:1092-1098 | every cell of the top-left quadrant ends not `Any` |
| NumberlinkGenerator.SettleRowAsWritten | src/numberlink/generator.rs:1093-1097 | every cell of row `y/2` in the left half ends not `Any` |
| NumberlinkGenerator.SymmetricRejected | src/numberlink/generator.rs:1057-1082 | a field equal to its own half turn has no differing pair, and is rejected as too symmetric exactly when at least 27 pairs are decided |
| NumberlinkGenerator.SymmetricRows | src/numberlink/generator.rs:1062-1078 | on a field equal to its half turn no pair of the rows scanned so far differs |
| NumberlinkGenerator.SymmetricRow | src/numberlink/generator.rs:1063-1077 | the same for a prefix of one row |
| NumberlinkGenerator.PairTally | src/numberlink/generator.rs:1065-1076 | an edge and its half-turn image add at most one to the equal and differing counts together |
| NumberlinkGenerator.RowTally | src/numberlink/generator.rs:1063-1077 | a row prefix of length `x` adds at most `x` |
| NumberlinkGenerator.TallyRow | src/numberlink/generator.rs:1063-1077 | counts the equal and differing pairs of one row |
| NumberlinkGenerator.CheckSymmetry | src/numberlink/generator.rs:1057-1082 | true exactly when the equal pairs are at least 85 percent of the decided pairs plus four |
| NumberlinkGenerator.Ordered | src/numberlink/generator.rs:885-889 | the pair of the two roots, smaller first |
| NumberlinkGenerator.DirPair | src/numberlink/generator.rs:862-890 | the pairs of chain roots found for one direction of a forced cell, each ordered |
| NumberlinkGenerator.CellPairs | src/numberlink/generator.rs:864-891 | the pairs of one cell, each ordered |
| NumberlinkGenerator.RowPairs | src/numberlink/generator.rs:863-892 | the pairs of one row, each ordered |
| NumberlinkGenerator.Pairs | src/numberlink/generator.rs:862-893 | the pairs of every inner cell, each ordered |
| NumberlinkGenerator.CellEntangled | src/numberlink/generator.rs:864-891 | computes the pairs of one cell |
| NumberlinkGenerator.RowEntangled | src/numberlink/generator.rs:863-892 | computes the pairs of one row |
| NumberlinkGenerator.RowEntangledStep | src/numberlink/generator.rs:864-891 | the pairs after cell `(y, x)` are those before it followed by that cell's pairs |
| NumberlinkGenerator.PairsStep | src/numberlink/generator.rs:863-892 | the pairs after row `y` are those of the rows above it followed by that row's pairs |
| NumberlinkGenerator.HasRepeat | src/numberlink/generator.rs:895-901 | true exactly when some pair occurs twice |
| NumberlinkGenerator.IsEntangled | src/numberlink/generator.rs:856-902 | true exactly when two tangled spots join the same two chains |
| NumberlinkGenerator.FlagIfTangled | src/numberlink/generator.rs:802-810 | unless the field ends invalid, no two spots are tangled between the same chains and, under a dyad, the field is not too symmetric |
| NumberlinkGenerator.FlagIfSymmetric | src/numberlink/generator.rs:808-810 | under a dyad, a too symmetric field is flagged; a field left unflagged is not changed at all and is not too symmetric under a dyad |
| NumberlinkGenerator.CheckInvalidity | src/numberlink/generator.rs:797-811 | an invalid field is left as it is; a field still valid afterwards has no repeated tangle, is not too symmetric under a dyad, and stays within the clue limit |
| NumberlinkGenerator.FillLineId | src/numberlink/generator.rs:1106-1117 | labels the cell, changes only unlabelled cells and only to this label, follows every line of a cell it labels, and changes exactly the cells reachable from `cd` along lines without passing a labelled cell |
| NumberlinkGenerator.FillCoherent | src/numberlink/generator.rs:1106-1117 | after a fill the labels stay coherent: every line joins two cells of one label |
| NumberlinkGenerator.LabelLowers | src/numberlink/generator.rs:1107-1108 | labelling a cell lowers the number of unlabelled cells by one |
| NumberlinkGenerator.LabelCell | src/numberlink/generator.rs:1022-1028 | the cells up to this one are labelled, labels stay below the next free one, lines join equal labels, and every label keeps a root cell on whose line all its cells lie |
| NumberlinkGenerator.LabelLines | src/numberlink/generator.rs:1018-1030 | every cell gets a label in `1..n`, every label in `1..n` is carried by some cell, every line joins two cells of one label, and two cells share a label exactly when a walk along lines joins them |
| NumberlinkGenerator.JoinedDir | src/numberlink/generator.rs:1111-1115 | the line in direction `k` of a cell joins it to that neighbour, and only then |
| NumberlinkGenerator.PathCons | src/numberlink/generator.rs:1111-1115 | a cell joined by a line to the start of a walk extends the walk |
| NumberlinkGenerator.PathInit | src/numberlink/generator.rs:1111-1115 | a walk without its last cell is a walk, and its last two cells are joined |
| NumberlinkGenerator.ConnectedSym | src/numberlink/generator.rs:1111-1115 | lying on the same line is symmetric: walks along lines can be reversed |
| NumberlinkGenerator.ConnectedTrans | src/numberlink/generator.rs:1111-1115 | lying on the same line is transitive: walks along lines can be joined end to end |
| NumberlinkGenerator.ViaRoot | src/numberlink/generator.rs:1111-1115 | two cells on the line of a third lie on the same line |
| NumberlinkGenerator.FreeWalkPrepend | src/numberlink/generator.rs:1111-1115 | a cell reachable from a neighbour that a line of `cd` leads to is reachable from `cd`, through cells the earlier labels leave free |
| NumberlinkGenerator.WalkLabelled | src/numberlink/generator.rs:1106-1117 | when every newly labelled cell has its lines followed, a walk over free cells from a labelled cell ends on a labelled cell |
| NumberlinkGenerator.FillStepReach | src/numberlink/generator.rs:1111-1115 | every cell labelled by the recursive call on a neighbour is reachable from `cd` |
| NumberlinkGenerator.ReachableEnds | src/numberlink/generator.rs:1107 | a walk over free cells starts on a free cell, so a labelled `cd` reaches nothing |
| NumberlinkGenerator.FillReach | src/numberlink/generator.rs:1106-1117 | the cells a fill changes are exactly the cells reachable from `cd` |
| NumberlinkGenerator.ReachableConnected | src/numberlink/generator.rs:1111-1115 | a walk over free cells is a walk along lines |
| NumberlinkGenerator.CoherentPath | src/numberlink/generator.rs:1018-1030 | under coherent labels, the two ends of a walk along lines carry one label |
| NumberlinkGenerator.RootedFill | src/numberlink/generator.rs:1022-1028 | a fill from a fresh root keeps every label on the line of its root |
| NumberlinkGenerator.RootedFillRoots | src/numberlink/generator.rs:1022-1028 | after a fill the old roots keep their labels and the new root carries the new label |
| NumberlinkGenerator.RootedFillCells | src/numberlink/generator.rs:1022-1028 | after a fill every labelled cell lies on the line of its label's root |
| NumberlinkGenerator.SameRootConnected | src/numberlink/generator.rs:1018-1030 | two cells with one label lie on the same line |
| NumberlinkGenerator.LabelsAreLines | src/numberlink/generator.rs:1018-1030 | rooted, coherent labels on every cell: two cells share a label exactly when a walk along lines joins them, both ways |
| NumberlinkGenerator.CountEnds | src/numberlink/generator.rs:1032-1039 | for each label, the number of cells of that label with one line and no undecided edge |
| NumberlinkGenerator.CountRowEnds | src/numberlink/generator.rs:1033-1038 | adds one row's line ends to the counts |
| NumberlinkGenerator.AllPaired | src/numberlink/generator.rs:1040-1042 | true exactly when every label has exactly two line ends |
| NumberlinkGenerator.SeparatedMeans | src/numberlink/generator.rs:1044-1052 | two adjacent cells share a label exactly when the edge between them is a line, stated both ways |
| NumberlinkGenerator.AgreeRow | src/numberlink/generator.rs:1045-1051 | true exactly when every edge of the row agrees with the labels |
| NumberlinkGenerator.AllAgree | src/numberlink/generator.rs:1044-1052 | true exactly when every edge agrees with the labels |
| NumberlinkGenerator.CheckAnswerValidity | src/numberlink/generator.rs:1018-1055 | the labels are exactly the lines (two cells share one exactly when a walk along lines joins them, and every label in `1..n` is used), so a path and a separate loop never share a label; the result is true exactly when every cell's line has exactly two line ends and adjacent cells share a label exactly when a line joins them |
| NumberlinkGenerator.PairedPerCell | src/numberlink/generator.rs:1032-1042 | when the labels `1..n` are all in use, every label having two line ends is every cell's label having two line ends |
| NumberlinkGenerator.RowEndsAlike | src/numberlink/generator.rs:1032-1039 | the line ends in a row sharing a cell's label are the same for any two labellings that group the cells alike |
| NumberlinkGenerator.EndsAlike | src/numberlink/generator.rs:1032-1039 | the same over the whole board |
| NumberlinkGenerator.ValidityDetermined | src/numberlink/generator.rs:1018-1055 | any two labellings whose labels are the lines give the same two-ends test and the same adjacency test, so the result depends on the edges alone |
| TapaField.CellChecked | src/tapa/field.rs:72-78 | a cell off the board reads as white; a cell on it reads as stored |
| TapaField.NeighborCells | src/tapa/field.rs:519-527 | the eight neighbours of a clue cell in dictionary order, read through `CellChecked` |
| TapaField.FullySolved | src/tapa/field.rs:51-53 | the decided count equals the board size exactly when no cell is undecided |
| TapaField.DecideCount | src/tapa/field.rs:93-94 | deciding an undecided cell lowers the number of undecided cells by one, which is what `decided_cells += 1` counts |
| TapaField.SetSettled | src/tapa/field.rs:79-94 | writing an undecided cell inside the region changes no decided cell and nothing outside the region |
| TapaField.SetWhiteClusters | src/tapa/field.rs:93 | a white write creates no black 2x2 block |
| TapaField.SetBlackClusters | src/tapa/field.rs:93-104 | a black write can only create a block that contains the written cell |
| TapaField.BlockCorners | src/tapa/field.rs:99-104 | the blocks containing a cell are exactly the four whose corner it is, the ones `avoid_cluster` checks |
| TapaField.WrittenGrows | src/tapa/field.rs:93-94 | a write of an undecided cell grows the field, lowers the undecided count by one and stores the value; a white write keeps the no-new-block property |
| TapaField.BlackWritten | src/tapa/field.rs:99-104 | a black write followed by the four `avoid_cluster` calls leaves no new black block unless the field is inconsistent |
| TapaField.AvoidStep | src/tapa/field.rs:99-104 | each `avoid_cluster` call keeps the blocks already checked free and clears the next one |
| TapaField.ApplyStep | src/tapa/field.rs:538-546 | one neighbour of the dictionary entry applied keeps the field's progress and extends the applied prefix by one |
| TapaField.CountMono | src/tapa/field.rs:87-94 | deciding cells never raises the undecided count, and a run that keeps it equal changed nothing |
| TapaField.SameCount | src/tapa/field.rs:551-555 | a round of `solve` that decides no cell leaves the cells exactly as they were |
| TapaField.ProgressTrans | src/tapa/field.rs:79-111 | the propagation relation (clues and region kept, inconsistency kept, cells only decided inside the region, no new black block unless inconsistent) composes |
| TapaField.GrowsTrans | src/tapa/field.rs:79-95 | the same relation without the block clause composes |
| TapaField.KeepsNoCluster | src/tapa/field.rs:99-104 | a block free before a run of propagation stays free unless the field turns inconsistent |
| TapaField.Nonzero | src/tapa/field.rs:156-161 | the count of positive weights is at most the number of pieces |
| TapaField.ConnectivityFrom | src/tapa/field.rs:152-167 | every decision of the connectivity pass is black |
| TapaField.ConnectivityFromSpec | src/tapa/field.rs:152-167 | the pass decides a cell black exactly when the cell is undecided and removing it leaves at least two pieces holding black cells |
| TapaField.Field.constructor | src/tapa/field.rs:20-35 | an all-undecided board, no clues, consistent, no decided cells and no checking region |
| TapaField.Field.AddClue | src/tapa/field.rs:57-68 | a cell that already has a clue only flags the field when the clue differs; otherwise the clue is stored and the cell is decided white (inside the region) unless the field turns inconsistent |
| TapaField.Field.Decide | src/tapa/field.rs:79-111 | outside the region nothing changes; a decided cell (or white outside the grid) keeps its value and the count, and flags the field exactly when the value differs, `Undecided` included; inside the region a decided value ends in the cell or the field is inconsistent; deciding an undecided cell `Undecided` leaves it uncounted (see Findings); every run keeps the count in step with the cells, the clues, the decided cells and the no-new-block property |
| TapaField.UndecidedCountedAsWritten | src/tapa/field.rs:93-95 | as written, writing `Undecided` into an undecided cell leaves the cells as they were but adds one to `decided_cells`, so the count no longer matches the decided cells, and a new 1x1 field counts as fully solved |
| TapaField.Field.Propagate | src/tapa/field.rs:93-110 | after the write, the block checks and the inspection of the nine cells around, the cell holds the value or the field is inconsistent |
| TapaField.Field.AvoidAround | src/tapa/field.rs:99-104 | none of the four blocks around a new black cell is all black unless the field is inconsistent |
| TapaField.Field.AvoidCluster | src/tapa/field.rs:112-125 | the three other cells of a block are not all black unless the field is inconsistent |
| TapaField.Field.InspectAround | src/tapa/field.rs:106-110 | inspecting the nine cells around keeps the propagation relation |
| TapaField.Field.Inspect | src/tapa/field.rs:511-548 | a cell without a clue changes nothing; a neighbourhood the dictionary calls inconsistent flags the field; otherwise every cell the entry decides holds its value or the field is inconsistent |
| TapaField.Field.NeighborCode | src/tapa/field.rs:519-530 | the base-3 code of the eight neighbours, below the table size |
| TapaField.Field.ApplyDecisions | src/tapa/field.rs:538-546 | every neighbour the entry decides holds its value or the field is inconsistent |
| TapaField.Field.SetInconsistent | src/tapa/field.rs:45-47 | sets the flag and nothing else |
| TapaField.Field.ApplyPass | src/tapa/field.rs:152-167 | a pass's conflict flags the field, and otherwise each decided cell of the pass is decided on the board |
| TapaField.Field.Solve | src/tapa/field.rs:549-558 | repeats both connectivity passes until the field is inconsistent or a round decides nothing; a consistent result has nothing left for either pass to decide |
| TapaField.Field.TrialAndError | src/tapa/field.rs:559-601 | the rounds stop when one decides nothing; a consistent result is stable under both passes, and every run keeps the propagation relation |
| TapaField.Field.TrialRound | src/tapa/field.rs:564-600 | a round that reports an update decided a cell or flagged the field; one that reports none changed nothing |
| TapaField.Field.TrialRow | src/tapa/field.rs:566-599 | the same for one row, stopping at an inconsistent field |
| TapaField.Field.TrialCell | src/tapa/field.rs:567-595 | the same for one undecided cell, trying black and then white |
| TapaField.Field.TrialStep | src/tapa/field.rs:569-580 | when the trial with one value fails, the cell is decided the other value (or the field is inconsistent); otherwise nothing changes |
| TapaField.Field.Trial | src/tapa/field.rs:570-574 | a failed trial means some propagation run from the field, limited to the 5x5 square around the cell, is inconsistent |
| TapaField.Field.CloneWith | src/tapa/field.rs:570-571 | a fresh copy of the field with the given checking region |
| TapaField.Field.Copy | src/tapa/field.rs:570-571 | the copy holds the same cells, clues, flag and count, and the given region |
| TapaField.MeasureDrops | src/tapa/field.rs:561-600 | a round never raises the undecided count and one that reports an update lowers it or flags the field, so the rounds end |
| TapaField.Decreased | src/tapa/field.rs:575-593 | a cell decided by a failed trial lowers the undecided count unless the field is inconsistent |
| YajilinField.UnionFind.constructor | src/yajilin/field.rs:870-874 | `size` entries, each its own root |
| YajilinField.UnionFind.Root | src/yajilin/field.rs:875-884 | returns the root of `i`'s set, an entry marked as a root, and leaves every root's size entry as it was |
| YajilinField.UnionFind.Join | src/yajilin/field.rs:885-894 | true exactly when the two were in different sets; afterwards they share a root, only their two sets are merged, and a join keeps `u`'s root |
| YajilinField.Field.constructor | src/yajilin/field.rs:19-50 | every clue cell is `Clue` with its four edges blank (or the engine inconsistent), every other cell undecided, no pair known to hold a shaded cell, the clues and the technique stored |
| YajilinField.MarkClues | src/yajilin/field.rs:26-40 | a fresh engine over the `2h - 1` by `2w - 1` lattice, the cell grid marking exactly the clue cells, and every clue cell's four edges blank unless the engine is inconsistent |
| YajilinField.MarkRow | src/yajilin/field.rs:28-39 | the same for the rows up to `y` |
| YajilinField.MarkCell | src/yajilin/field.rs:30-37 | one cell more of the same scan: a clue cell is marked and its four edges are blank, earlier blanks kept |
| YajilinField.BlankFour | src/yajilin/field.rs:33-36 | the four edges around the cell are blank unless the engine is inconsistent |
| YajilinField.Field.GetCellSafe | src/yajilin/field.rs:75-82 | a cell on the board reads as stored; one off it reads as a clue |
| YajilinField.GetOr | src/yajilin/field.rs:667-678 | `get_or_default`: the entry on the table, the default off it |
| YajilinField.Field.SetCellInternal | src/yajilin/field.rs:373-397 | a decided cell only flags the engine when the values differ; an undecided cell takes the value; a shaded cell closes its four edges and puts each non-clue neighbour on the loop (or the engine is inconsistent); decided cells never change, and only the cell and, when shaded, its neighbours move |
| YajilinField.Field.BlockAround | src/yajilin/field.rs:389-394 | all four edges of the shaded cell are closed and its neighbours are off the board, clues or on the loop, unless the engine is inconsistent |
| YajilinField.Field.BlockStep | src/yajilin/field.rs:390-393 | the same for one direction |
| YajilinField.Field.LineNeighbour | src/yajilin/field.rs:390-392 | the neighbour in one direction is off the board, a clue or on the loop, unless the engine is inconsistent |
| YajilinField.Field.CloseEdge | src/yajilin/field.rs:393 | the edge in one direction is blank unless the engine is inconsistent |
| YajilinField.Field.SetCellInternalUnlessClue | src/yajilin/field.rs:398-403 | a clue or off-board position changes nothing; an undecided cell takes the value; a decided one only flags the engine when the values differ |
| YajilinField.Field.SetBlockedEither | src/yajilin/field.rs:404-431 | a pair with a clue changes nothing; otherwise the pair is recorded in the table of its orientation, at its upper or left cell, and no other entry changes |
| YajilinField.ScanClue | src/yajilin/field.rs:636-650 | walks from the clue in its arrow's direction to the board edge or the first clue of the same arrow, counting the cells passed and taking that clue's number off |
| YajilinField.ScannedUnique | src/yajilin/field.rs:636-650 | the scan's count and remaining number are determined by the board, the clue and the direction |
| YajilinField.ArrowDir | src/yajilin/field.rs:629-635 | each arrow is one of the four unit steps |
| YajilinField.FillLeft | src/yajilin/field.rs:658-705 | `dp_left` as computed: entry `k` holds the bounds on the shaded cells among the first `k` cells of the scan |
| YajilinField.LeftEntry | src/yajilin/field.rs:660-704 | one entry of `dp_left`, with the two- or one-cell step back and the `skip_three` test |
| YajilinField.FillRight | src/yajilin/field.rs:706-756 | `dp_right` as computed, filled from the far end: entry `k` holds the bounds on the shaded cells after the first `k` |
| YajilinField.RightEntry | src/yajilin/field.rs:708-755 | one entry of `dp_right` |
| YajilinField.LeftBounds | src/yajilin/field.rs:658-705 | each left entry is a pair `0 <= lo <= hi <= k` |
| YajilinField.RightBounds | src/yajilin/field.rs:706-756 | each right entry is a pair `0 <= lo <= hi <= inv - k` |
| YajilinField.Field.InspectClue | src/yajilin/field.rs:626-785 | a cell without an arrow clue changes nothing; a clue with no cell to count and a nonzero number flags the engine; otherwise both tables equal the bounds computed on the board as it was, and unless the engine is inconsistent every scanned cell meets all three rules of the final loop |
| YajilinField.Field.ApplyBounds | src/yajilin/field.rs:757-784 | unless the engine is inconsistent every scanned cell meets the rules: the upper bounds reach `n - 1`, exactly `n - 1` shades the cell; the lower bounds stay within `n`, exactly `n` puts a non-clue cell on the loop; a pair whose upper bounds leave one short is recorded |
| YajilinField.Field.DecideAt | src/yajilin/field.rs:758-783 | the three rules for one cell; a stop means the engine is inconsistent |
| YajilinField.Field.DecideHigh | src/yajilin/field.rs:761-766 | stops exactly when the upper bounds fall two short, with the engine inconsistent; one short shades the cell |
| YajilinField.Field.DecideLow | src/yajilin/field.rs:768-775 | stops exactly when the lower bounds exceed `n`, with the engine inconsistent; exactly `n` leaves the cell a clue or on the loop |
| YajilinField.Field.DecidePair | src/yajilin/field.rs:777-783 | a pair whose upper bounds leave one short is recorded unless one of it is a clue |
| YajilinField.CellsGrowTrans | src/yajilin/field.rs:373-381 | "decided cells keep their values" composes over successive writes |
| YajilinField.TablesGrowTrans | src/yajilin/field.rs:404-431 | "recorded pairs stay recorded" composes |
| YajilinField.AlongAdjacent | src/yajilin/field.rs:777-780 | two successive cells of a scan are side by side, as `set_blocked_either` requires |

## Left out

- Common.FiniteSearchQueue.Push: requires `v < max_elem`. In the source a larger `v` indexes `stored` out of range and panics; that panic is not modelled, and every caller in the model pushes a cell or group index below the bound.
- Common.FiniteSearchQueue.Pop: requires a non-empty queue. The source (src/common/mod.rs:186-194) has no such check: on an empty queue it returns the stale value at `queue[top]`, clears that value's `stored` flag and moves `top` past `end`, after which the queue no longer reads as empty. That state is not modelled; every caller of `pop` (src/common/grid_loop.rs:182-183, src/kakuro/field.rs:126-127 and 137-138) tests `empty()` first.
- The candidate-set operations of `Cand` (`is_set`, `count_set_cands`, `smallest_set_cand`, `limit_upper_bound` and the rest) are not defined in the sources. `KakuroBase` models them as their names say, on a 9-digit set.
- `FieldTechnique::new` is not in the sources, so its defaults are unknown. `NewField` takes the techniques as a parameter.
- The getters of `Field` (`inconsistent`, `solved`, `undecided_cells`, `total_cands`, `height`, `width`, `val`, `technique`) are reads of the class's fields and of `board`.
- `Field` keeps the shape as a `Layout`: the clue grid, `cell_to_groups`, and each group's slots listed as iteration yields them. `Materialise` builds it from the `FieldShape`.
- The `u32` counters and `i32` values are unbounded integers. The invariant shows that the subtractions at src/kakuro/field.rs:155, 163 and 193 never go below zero.
- A panic in the propagation is `ok == false`: `at` outside the table, the `unwrap`s of the two-cell step, `smallest_set_cand` of an empty cell, and a tenth entry of `update_list`. The model stops there, where the source aborts.
- KakuroField.Field.Decide: requires a position on the board that holds no clue and a digit from 1 to 9. The source checks neither, and what it does with other arguments is left out: writing a clue cell, or testing a bit outside the mask.
- KakuroField.Field.NakedPair: states only that the invariant is kept and that candidates only narrow. Why the exclusion is sound is `NakedPairSound`, which the method does not thread through.
- KakuroField.Field.PairsOf: states only that the invariant is kept and that candidates only narrow, not which pairs of cells it finds.
- KakuroField.Field.ExcludePair: states only that the invariant is kept and that candidates only narrow, not that the pair's two digits leave the other cells of the group.
- KakuroField.Field.UniquePosition: states what is left after the step, not which digit each cell is decided to.
- The two tests of src/kakuro/field.rs:350-417 solve concrete 3×3 boards. They are not restated: the model states the propagation as relations, not as a computation on a given board.
- `generate` of src/kakuro/generator.rs is modelled up to its initial answer. The annealing loop that follows (`current_total_cands`, the move candidates and the temperature) is left out: it draws random moves and compares floating-point probabilities.
- KakuroPlacement.Candidates: the weights of the candidate loop (src/kakuro/generator.rs:187-220) are left out. Every candidate gets a positive weight, so the weighted draw may pick any of them. `WeightedChoice` and the random number generator are the parameter `draw`: try `t` picks candidate `draw(t) % |cand|`. The weight loops scan `d in 0..height` for the horizontal distances too, which only changes weights.
- KakuroPlacement.GeneratePlacement: requires `height >= 0` and `width >= 0`; `Grid::new` with a negative size is not modelled. It states what a returned placement satisfies, not when `None` comes back.
- KakuroGenerator.Dfs: the recursion depth of `dfs` (a stack overflow on a large grid) is not modelled. The `i32` sums are unbounded integers.
- NumberlinkSolver2.Search: proves that every answer draws a fully decided edge grid reached from the entry state, that the field comes back as it was, and that when every cell keeps the degree rule on entry every answer gives each clue one segment and every other cell none or two. It does not prove that the drawing joins equal numbers, that no loop is left, or that every solution is found: that needs an invariant tying the chain-end table to the drawn paths, which the model does not carry.
- NumberlinkSolver2.Solve2: proves that every answer draws a fully decided edge grid in which each clue ends exactly one segment and every other cell lies on none or two. It does not prove that the segments join equal numbers, that no loop is left, or that every solution is returned; the chain-end table would have to be tied to the drawn paths for that. On a 1x1 board holding a clue the source returns one answer with no segment at all: the board has no edge, so `search` (src/numberlink/solver2.rs:313-331) finds every cell decided and records the empty drawing without `inspect` ever looking at the clue. The model keeps that behaviour and states it (`LoneUnbalanced`). Boards with no rows or no columns are excluded by the `SolverField.constructor` requirement described below, because the source does not return on them.
- NumberlinkSolver2.SolverField.constructor: requires non-negative clue numbers. A negative clue `c` would store `-(c + 1) >= 0`, which reads as a cell index. It also requires a board at least one cell high and one cell wide. On a board with no rows or no columns the source does not return. With one side zero, the edge grid of src/numberlink/solver2.rs:50 asks `Grid::new` (src/common/mod.rs:89-95) for `-(2 * n - 1)` cells, and the cast to `usize` makes that allocation fail. With both zero, the edge grid has one cell, and `search` moves to row 1 and reads `has_clue` of the empty grid at src/numberlink/solver2.rs:334. A panic is not modelled.
- NumberlinkSolver2.SolverField.DecideEdge: the flag set at src/numberlink/solver2.rs:110 is not logged, so `rollback` does not clear it. The model states that the table and edges are restored and the flag is at least as set; `search` never reads the flag.
- NumberlinkSolver2.SolverField.Square: states the outcome of the canonical-form rules for the square it resolves, not that the resulting drawing is the canonical one of the puzzle.
- src/common/grid_loop.rs is an older copy of the loop-chain engine of src/grid_loop/mod.rs. src/common/mod.rs does not declare it, and it uses a tuple `Coord`, `Y`, `X` and `Grid::coord`, which that module does not define. The model states its `join` (`LegacyJoin`) and the stale count of its `decide_chain` (see Findings). Everything else in it is the same as the newer engine and is not modelled a second time. That includes its closing of a line loop at lines 292-299, which sets `fully_solved` but leaves the call to `has_fully_solved` commented out.
- GridLoop engine: the `i32` counters `decided_line` and `decided_edge` are unbounded integers. The `inspect` hook of `GridLoopField` (src/grid_loop/mod.rs:454) does nothing for the engine itself and is not modelled. The generic `field: &mut T` is the `GridLoop` object. Puzzle fields that embed the engine are not part of this model.
- GridLoopEngine.GridLoop.DecideEdge: requires an in-range position to be an edge. At a vertex, `chain_next` is 0 and the walk of `decide_chain` would not return to its start.
- GridLoopEngine.GridLoop.DecideEdgeAt: requires an in-range position to be an edge, for the same reason as `DecideEdge`.
- GridLoopEngine.GridLoop.JoinCorners: states only that the engine stays valid and idle. It does not say which chains the corner joins leave.
- GridLoopEngine.GridLoop.JoinTop: states only that the engine stays valid and idle, not which chains the joins at the two top corners leave.
- GridLoopEngine.GridLoop.JoinBottom: states only that the engine stays valid and idle, not which chains the joins at the two bottom corners leave.
- GridLoopEngine.GridLoop.JoinAt: states only that the engine stays valid and idle, not which chains the join of the two given edges leaves.
- GridLoopEngine.FixVec.Push: the panic of a fifth push is not modelled. A vertex has at most four neighbouring edges, so `Collect` never makes one.
- The tests of src/grid_loop/mod.rs:532-744 are not restated on concrete boards. `get_edge` is `GetEdgeSafe` on the lattice, and `is_valid_coord` is read through `GetEdgeSafe`'s contract.
- Yajilin field: `solve`, `check_all_cell`, `trial_and_error`, `two_by_two`, the `check_two_by_three` rules, `around_blocked_either`, `check_local_parity`, the in/out rule `apply_inout_rule_advanced` (apart from its `UnionFind`), the `GridLoopField` hooks `check_neighborhood` and `inspect` (src/yajilin/field.rs:788-862), `Display` and the tests are not modelled. Only the clue rule and the cell writes it relies on are; a cell put on the loop is handed to the engine's own `check`, without the Yajilin hook.
- YajilinField.Field.constructor: `Technique::new` is not in the sources, so the technique is a parameter. The board is required to be at least 2 by 2, so that both pair tables exist; the source builds an empty table on a 1-wide board.
- YajilinField.Field.InspectClue: states that the bound tables are computed and that the final loop's rules hold afterwards. It does not prove that the bounds are sound, that is, that every solution of the puzzle has a shaded count within them.
- YajilinField.SkipAt: the test on `blocked_either_down` for a horizontal scan does not read the technique flag, and the test on `blocked_either_right` for a vertical scan does; this follows src/yajilin/field.rs:673-693 and 724-744 as written.
- YajilinField.Field.SetBlockedEither: requires two side-by-side cells. The source panics at src/yajilin/field.rs:418, 426 and 429 on any other pair; `inspect_clue` only passes successive cells of a scan (`AlongAdjacent`).
- Yajilin `generate`: the solver run on each tentative problem (`Field::new` and `trial_and_error(2)` of src/yajilin/field.rs) is the parameter `evaluate`. The shuffle is the parameter `shuffle`, required to permute its list. The draw against the temperature is the parameter `accept`, so the `f64` temperature, its decay and `exp` are left out. The `i32` score and counts are unbounded integers.
- YajilinGenerator.UpdateCandidates: uses the corrected Down bound (see Findings); the list's order is not stated, since `generate` shuffles it.
- Tapa dictionary: the type `D` of src/tapa/dictionary.rs is not in the sources shown; it is modelled as `Common.Dir`. The `u32` entries and masks are `bv32` values.
- The dictionary tests of src/tapa/dictionary.rs:445-527 are not restated on concrete patterns: `ClueValues` and the 6561-entry table are too large to evaluate inside the verifier. The model states the entries for every pattern instead (`EntryInconsistent`, `EntryCell`, `ApplyForced`).
- TapaField.Field.Solve: `inspect_connectivity` builds a `GraphSeparation`, which is not in the sources shown; its `separate` is the parameter `separate`. `inspect_connectivity_advanced` is the parameter `advanced`, a function from the field to the decisions it makes. The model states that a consistent result leaves both with nothing to decide, not that the passes are sound.
- Tapa field: `inspect_connectivity_clue_aware` (src/tapa/field.rs:328-510) is not called by `solve` and is not modelled. The `consecutive_dic` reference is only read by it and is left out. `Display` is left out (formatting only).
- TapaField.Field.Trial: states only that a failed trial has an inconsistent propagation run from the field; it does not prove that the value tried is impossible in every solution.
- Tapa `generate` (src/tapa/generator.rs:83-253) is modelled in its deterministic parts only: `HasClue`, the loop over forced cells, the `max_clue` check of a candidate and the `clue_filled` loop. Left out are the candidate enumeration, which reads the solver field of src/tapa/field.rs, the shuffle and the random draws, the floating-point temperature and energy, and `solve_test`.
- TapaGenerator.HasClue.Update: requires a cell on the board; the source indexes the grid there and panics otherwise. The `i32` count `n_clues` is an unbounded integer.
- NurimisakiField: `ensure_connectivity` (src/nurimisaki/field.rs:370-431) builds a `GraphSeparation`, which is not in the sources shown, and reads its separation and union roots. It is left out, and so are `solve` and `trial_and_error`, which call it, and the test, which needs `solve`.
- NurimisakiField.Field.DecideCell: requires a white or black value. Every caller passes one; the source would also count an `Undecided` write as a decision.
- NurimisakiField.Field.WhitenAround: promises white only for the first neighbour that was undecided at the start. Each `decide_cell` also applies the 2x2 rule of `avoid_2x2_cluster` (src/nurimisaki/field.rs:153-183), which can decide a later neighbour black before the sweep reaches it. The sweep then leaves it black, so "every undecided neighbour ends white" does not hold for the source.
- NurimisakiField.Field.Inspect: in its white branch it promises what `WhitenAround` promises, for the same reason.
- NurimisakiField.Field.InspectAllCell: states only that the sweep moves the field forward. What `inspect` does to each cell depends on the state left by the cells before it, and the per-cell statement is `Inspect`.
- NurimisakiField.Field.AvoidForbiddenPatternSimple: states only that the sweep moves the field forward; the per-cell statement is `CupAt`.
- Common.FourNeighbours: `FOUR_NEIGHBOURS` is not in the sources shown. It is taken to be up, left, down, right; the order decides which white neighbour `inspect_clue` takes first.
- Nurimisaki: `Display` is left out (formatting only).
- Endview: `Field::decide` is modelled with the corrected guard (see Findings). `clue_front` and `clue_back` stay `NO_CLUE`, since no operation of src/endview/field.rs sets them, and the clue step of `inspect_row` (lines 120-123) is empty in the source. `solved` is never set by the source, and the model keeps it unchanged.
- EndviewField.Field.Decide: states what is left after the propagation as relations: within a set, decided, a letter gone from a line. It does not give the exact candidate sets of the three tests at src/endview/field.rs:130-170.
- Slitherlink `generate`: the solver field of src/slitherlink/field.rs (`Field::new`, `check_all_cell`, `add_clue`, `inconsistent`, `fully_solved`, the lattice and the decided-edge count) and the in-out rule and connectability check of src/grid_loop/mod.rs are the parameter `ops`. The two shuffles and the draw against the temperature are the parameter `ch`, so the `f64` temperature and `exp` are left out. The Slitherlink `Dictionary` is not in the sources shown and is not modelled.
- SlitherlinkGenerator.CountProhibited: reads the field's clue grid as `NO_CLUE` off its bounds and the lattice through `get_edge_safe` in the first test, where the source uses `get_edge`; both agree on a field of the placement's size.
- SlitherlinkPlacement.UpdateGrp: requires a normalised symmetry, as `generate_placement` always passes; with a quarter turn on a non-square board the source's recursion can leave the board and panic. The unused argument `id` is dropped.
- SlitherlinkPlacement.GeneratePlacement: the weights of the orbits (`powf` of a neighbourhood score of each orbit's first cell) and the random draw are the parameter `choose`, which picks an index among the remaining orbits. In the source a floating-point shortfall of the draw may pick nothing in a round; the model always picks. It states the size only as "at least `num_clues` unless the whole board", not how far the last orbit overshoots.
- NumberlinkSolver.Search: proves that every recorded answer gives each cell a degree of 0 or 2, a clue counting as one segment, and that the placement is restored. It does not prove that the lines join equal numbers or that no loop is left, and it does not prove that every solution is found. The frontier lemmas (`JoinPaired`, `ConnectPaired`) state the pairing step by step, but the search does not thread them into a statement about whole answers.
- NumberlinkSolver.Solve: `LinePlacement::isolated` is not in the sources shown. It is a parameter of the search, and only the pruning it takes part in depends on it.
- The solver's test puzzle (a unique solution) is not stated: it needs the connectivity property above.
- JsBridge.NumberlinkGenerate: the generator, `uniqueness_pretest`, `extract_problem` and `solve2` are parameters. Each round of the retry loop is an `Attempt` saying what they produced. The seed transmutation and the random number generator are left out, and so is the endless retrying past the modelled rounds.
- JsBridge.GenerateNumberlink: `Math.random` and the wasm instantiation are left out. The memory buffer and the returned address are parameters. JavaScript numbers are modelled as integers.
- Problem readers: `io::read_grid` (used by src/tapa/io.rs) and the `io` module's `next_valid_line` are not in the sources shown. src/kakuro/io.rs is modelled with the `next_valid_line` of src/format/mod.rs, and for Tapa only the token closure is modelled.
- Reading from a `BufRead` is modelled as a finite sequence of line results. Operating-system errors are opaque values.
- Command-line front ends: `getopts` itself is modelled as its result, the `Matches` of option values and flags. Thread spawning, printing and timing are left out.
- `Symmetry` (src/cli/nl_generator.rs) is defined outside the sources shown. It is modelled as four flags with `none()` all false.
- CliTapaGenerator: a `u32` clue mask is modelled as the set of its bit positions.
- Double Choco: the `doublechoco` module (`Color`, `Clue`, `NO_CLUE`) is not in the sources shown. `NO_CLUE` is a parameter.
- Numberlink generator: `generate`'s beam of fields, its pool of reused fields and the loop that draws a field and a seed from them are left out; so are `random_seed`, `best_seed` (the random draws), `extract_problem`, `uniqueness_pretest` and the `Debug` formatting of src/numberlink/generator_field.rs:730-774. The model states each step `generate` takes on one field.
- src/numberlink/generator.rs:33-627 holds a private `AnswerField`, an older copy of the one in src/numberlink/generator_field.rs. `generate` in src/numberlink/generator.rs uses that copy; the model uses the class of src/numberlink/generator_field.rs for both and does not model the copy a second time.
- NumberlinkGenerator.ChooseUpdate: the random draws are the parameters `corner` (the 90 percent draw) and `pick` (the index drawn). `FieldUpdate::Endpoint` is named `EndAt`, since `Endpoint` is already the constraint type.
- NumberlinkGenerator.IsEntangled: the sort of the pairs followed by a scan of neighbours is replaced by a scan for any repeated pair; both answer whether a pair occurs twice.
- NumberlinkGenerator.CheckSymmetry: the `f64` comparison `n_equal >= 0.85 * (n_equal + n_diff) + 4` is stated in integers as `100 * n_equal >= 85 * (n_equal + n_diff) + 400`, which is the same test on exact numbers; floating-point rounding is not modelled.
- NumberlinkGeneratorField.AnswerField.constructor: requires a board of at least 2 by 2, so that the four corner seeds are distinct. On a 1-wide board the source writes the same seed twice.
- NumberlinkGeneratorField: the `i32` counters and lengths are unbounded integers. The union-find roots are a ghost table beside `chain_connectivity`.
- Concurrency, timing and randomness appear only in the generators and front ends. All three are left out.

## Findings

| source | as written | input that shows it | evidently intended | confidence | as-written member | corrected member |
|---|---|---|---|---|---|---|
| src/endview/field.rs:29-35, 78-82 | `decide` returns at once for any cell that is not `UNDECIDED`, and flags a clash when the value differs. `inspect_cell` calls `decide(cell, letter)` on a cell that holds `SOME`, so that call always clashes | `empty_board(1, 1)` then `decide((0,0), SOME)`: the cell has one letter left, `inspect_cell` decides letter 0, and the field turns inconsistent although the board `[[0]]` solves it | a `SOME` cell takes a letter, and `SOME` on a lettered cell is no clash | high, not executed | EndviewState.DecideStepAsWritten, EndviewState.AsWrittenRejectsSolution | EndviewState.DecideStep, EndviewField.Field.Decide |
| src/tapa/generator.rs:226-233 | the `clue_filled` loop runs over every `(y, x)` but tests `has_clue.get(loc) && problem[loc] == NO_CLUE` with the candidate's fixed `loc`, so it never looks at the other cells | a 1x2 board with both cells marked, `Clue(1)` at `loc = (0, 0)` and no clue at (0, 1): the loop reports every marked cell filled | the loop tests `P(y, x)`, so a problem is returned only when every marked cell holds a clue | medium, not executed | TapaGenerator.ClueFilledAsWritten, TapaGenerator.ClueFilledMissesCell | TapaGenerator.ClueFilled |
| src/tapa/field.rs:88-95 | `decide` checks only that the cell is undecided, then writes `v` and adds one to `decided_cells` whatever `v` is. Deciding an undecided cell `Undecided` therefore counts a cell that stays undecided | a new 1x1 field and `decide((0, 0), Undecided)`: the cell stays undecided, `decided_cells` becomes 1 and `fully_solved` reports the field solved | only a cell that really gets decided is counted, so `decided_cells` stays the number of decided cells | medium, not executed | TapaField.UndecidedCountedAsWritten | TapaField.Field.Decide |
| src/yajilin/generator.rs:34-36 | the Down loop runs `1..(height - y) / 2`, one less than the most blocked cells the `height - 1 - y` cells below can hold; the Up, Left and Right loops reach that maximum | a board 3 high and 1 wide: the top cell sees two cells, one of which can be blocked, but `Down(1)` is not offered there, while the bottom cell is offered `Up(1)` | the bound `(height - y + 2) / 2`, in line with the Right loop's `(width - x + 2) / 2` | medium, not executed | YajilinGenerator.NumberBoundAsWritten, YajilinGenerator.DownBoundShort, YajilinGenerator.DownBoundExample | YajilinGenerator.NumberBound, YajilinGenerator.NumberBoundIsMax |
| src/common/grid_loop.rs:206-221 | `decide_chain` adds `chain_size` of the edge it starts from to `decided_edge` and `decided_line`. Only the two ends of a chain store its size, so an interior start counts too few edges | `new(1, 1)` joins the four edges into one cycle while edge 1 still stores size 2; `decide_edge((0, 1), Line)` then paints four edges and adds two | count the edges painted, as src/grid_loop/mod.rs:230-246 does | high, not executed | GridLoopLegacy.StaleCountExample, GridLoopLegacy.LegacyJoin | GridLoopEngine.GridLoop.DecideChain |
| src/numberlink/generator.rs:1092-1098 | when the clue limit is reached, `limit_clue_number` loops `y` over `0..height` and `x` over `0..width` but reads and settles the cell `(y / 2, x / 2)`, so it only reaches the top-left quadrant | a 3 by 3 board with limit 1 and two forced cells: the loop settles only the cells with coordinates 0 and 1, and the bottom-right cell (2, 2) stays `Any` | every cell `(y, x)` of the board is made `Prohibited` unless already settled | medium, not executed | NumberlinkGenerator.LimitClueNumberAsWritten, NumberlinkGenerator.QuadrantMissesCorner | NumberlinkGenerator.LimitClueNumber |
| src/numberlink/generator.rs:688-700 | with the adjacency option, an even-height board under the horizontal mirror reserves rows `h / 2` and `h / 2 + 1`, and the column test that follows reads `symmetry.horizontal` where the columns belong to the vertical mirror | a 2 by 3 board with the horizontal mirror indexes row 2, off the board, and panics; on a 4 by 3 board the cell (1, 0), next to its mirror (2, 0), is not reserved; on a 3 by 4 board under the vertical mirror (0, 1), next to its mirror (0, 2), is not reserved | the two middle rows `(h - 1) / 2` and `h / 2` under the horizontal mirror and the two middle columns under the vertical one, so that no clue sits next to its own mirror image | high, not executed | NumberlinkGenerator.ReserveCellsAsWritten, NumberlinkGenerator.AsWrittenCounterexamples | NumberlinkGenerator.ReserveCells, NumberlinkGenerator.AdjacentImagesReserved |
