# nonogif solver and picture, in Dafny

This project models the core of nonogif, a Nonogram solver that draws the
solve as an animated GIF. The model covers two parts.

- **The line-propagation solver** (`src/puzzle.c`). A puzzle has rows and
  columns. Each line holds its clue lengths and one slot per cell, and every
  cell has two slots: one in its row and one in its column. A line solve
  enumerates every legal placement of the line's blocks. It places them
  greedily and advances an "anchor" clue. Each accepted placement votes for
  the undone cells it covers. A cell that every placement covers, or that
  none covers, is resolved in both of its lines, and the perpendicular line
  is flagged for another solve. Passes alternate between rows and columns
  until one of three things happens:
  - the puzzle is complete;
  - a line cannot be placed;
  - a column pass resolves nothing new.
- **The picture** (`src/output.c`). This part maps each cell to a palette
  index. It builds the palette: a gradient from the clear colour to the set
  colour, plus the border colour. It fills the frame's pixel buffer with
  cell blocks and borders, checks the image size, and decides which solver
  events add a frame.

The modules follow the program:

- `Lex`: lexicographic order on placement vectors, and the measure that ends
  the anchor loop.
- `Lines`: slots, lines, legal placements, greedy placement, votes and
  resolution, as value-level definitions.
- `Placing`: the per-line operations (gap, single clue, greedy placement
  into the shared `clue_start` array, missed set cell, voting).
- `Anchor`: the enumeration invariants of the anchor loop.
- `Solver`: line initialisation, the line solve, the class `Puzzle` (cell
  resolution, passes, the scheduler).
- `Output`: cell levels, the palette, the pixel buffer, size checks and the
  frame decision, with the class `State` standing for the file-scope output
  state.
- `Worked`: a hand-checked line.

A line is a value. The solver operations that change a line build its new
value and store it back into the `rows` or `cols` sequence of the `Puzzle`.
`clue_start` is a shared array that the methods write in place.

The slot predicates `puzzle__slot_is_set` and `puzzle__slot_is_clear`
(src/puzzle.c:118-126) are `Lines.IsSet` and `Lines.IsClear`.
`puzzle_is_complete` (src/puzzle.c:334-337) is `Solver.Puzzle.IsComplete`.
`output__get_level` (src/output.c:86-121) is `Output.Level`: it takes the
column view of a cell, the row view and the two lines' maximum votes.

## Model

| member | source | states |
|---|---|---|
| Lines.SlotKinds | src/puzzle.c:118-126 | A slot is exactly one of set, clear or undone. |
| Lines.Known | src/puzzle.c:118-126 | A slot is unknown to placement exactly when it is undone. It is filled exactly when set and empty exactly when clear. |
| Lines.FirstFitSpec | src/puzzle.c:166-178 | The first start at or after `pos` where a block fits is a fit, and nothing fits before it. With no first fit, no start from `pos` on fits. |
| Lines.GreedyPlaces | src/puzzle.c:159-185 | A successful greedy placement from `pos` places every clue legally. Each block fits, the first starts at or after `pos`, and each block is followed by a gap before the next. |
| Lines.GreedyLeftmost | src/puzzle.c:159-185 | If any legal placement of the clues starts at or after `pos`, greedy placement succeeds and comes no later in lexicographic order. |
| Lines.GreedyIffPlaceable | src/puzzle.c:159-185 | Greedy placement from the line start succeeds exactly when some legal placement of all the clues exists. |
| Lines.PlacedOrdered | src/puzzle.c:172-174 | In a legal placement, a later block starts after an earlier one ends, with a gap. |
| Lines.CountAll | src/puzzle.c:301-304 | A cell's vote equals the number of accepted placements exactly when every accepted placement covers it. |
| Lines.CountNone | src/puzzle.c:301-304 | A cell's vote is zero exactly when no accepted placement covers it. |
| Lines.ResolveMeaning | src/puzzle.c:301-308 | Given every arrangement, resolution sets a slot exactly when every arrangement covers it (and one exists). It clears it exactly when none does. An unresolved slot has a vote strictly between 0 and the arrangement count. |
| Placing.AvailableGap | src/puzzle.c:128-139 | The result is the length of the run of non-clear slots from `pos`. It ends at the line end or at a clear slot. |
| Placing.CanPlaceSingleClue | src/puzzle.c:141-157 | Given the gap at `pos`, the answer is true exactly when a block of that length fits at `pos`: it covers no clear slot, ends inside the line and is not followed by a set slot. |
| Placing.FindStart | src/puzzle.c:166-178 | The scan of starts from `pos` finds the first start where the clue fits, or none. |
| Placing.CanPlaceClue | src/puzzle.c:159-185 | It succeeds exactly when greedy placement of clues `clue_idx..` from `pos` does, and then `clue_start[clue_idx..]` holds that placement. Entries below `clue_idx` are untouched, and every written start is on the line. |
| Placing.MissedSetCell | src/puzzle.c:187-208 | True exactly when some set slot lies outside every block of the placement in `clue_start`. |
| Placing.BlockCountPlaced | src/puzzle.c:220-227 | Blocks of a legal placement do not overlap, so a cell gets at most one vote from a placement: one exactly when covered. |
| Placing.CastVote | src/puzzle.c:220-233 | The new line adds one vote to each undone slot per covering block and one to `slot_max`. Done slots keep their value. |
| Placing.TryPlaceClues | src/puzzle.c:210-235 | It returns false exactly when greedy placement fails. A placement that misses a set cell returns true and leaves the line unchanged. An accepted one votes once. Entries below `clue_idx` are kept. |
| Anchor.FirstPlacement | src/puzzle.c:272-281 | The first greedy placement is legal. It starts the enumeration: every arrangement not after it is already listed. |
| Anchor.SkipStep | src/puzzle.c:286-289 | When the anchor block starts on a set cell, no arrangement agreeing on the earlier blocks can start that block later, so moving the anchor back loses nothing. |
| Anchor.FailStep | src/puzzle.c:292-297 | When the clues from the anchor cannot be placed one cell later, no unlisted arrangement shares the earlier blocks, so moving the anchor back loses nothing. |
| Anchor.NextIsLeast | src/puzzle.c:291-295 | The greedy re-placement from the anchor is the next legal placement in lexicographic order: none lies strictly between. |
| Anchor.AdvanceStep | src/puzzle.c:291-295 | After a successful re-placement, the new placement is legal and strictly after the old one. The listed arrangements stay sorted, and the enumeration invariant holds again with the anchor on the last clue. |
| Anchor.EnumeratedAll | src/puzzle.c:281-299 | When the anchor moves past the first clue, the accepted placements are every arrangement of the line, each once, in lexicographic order. |
| Anchor.TallyVote | src/puzzle.c:216-233 | Voting for one more arrangement keeps every undone slot's vote equal to the number of listed arrangements that cover it. |
| Lex.SortedUnique | src/puzzle.c:281-299 | Two strictly sorted lists with the same members are equal, so the enumeration order is unique. |
| Lex.Advance | src/puzzle.c:291-295 | Advancing the anchor start strictly shrinks the set of vectors still ahead, which bounds the anchor loop. |
| Lex.Retreat | src/puzzle.c:286-297 | Moving the anchor back one clue strictly shrinks the set of vectors still ahead. |
| Solver.InitialiseLines | src/puzzle.c:39-83 | Each line gets its clues and their sum, `slot_count` undone slots holding the initial vote (the corrected vote of the Findings table, the clue sum, not twice it), the update flag, and `slot_max` = `line_count * slot_count`. The results are the orientation's clue sum and the largest clue count, which bounds every line's clue count. |
| Solver.InitialWoven | src/puzzle.c:49-83 | Freshly initialised rows and columns are two consistent views of one grid with no cell resolved. Every line's clue count fits the `clue_start` capacity. |
| Solver.Puzzle.constructor | src/puzzle.c:85-116 | The puzzle is consistent, no cell is resolved, every line is flagged, and `clue_total` is the sum over both orientations. Every undone slot holds the corrected initial vote of the Findings table. |
| Solver.Puzzle.CompleteIffAllDone | src/puzzle.c:334-337 | The puzzle is complete exactly when every cell is resolved. |
| Solver.DoneCellsFull | src/puzzle.c:334-337 | The resolved-cell count never exceeds the cell count, and equals it exactly when every cell is resolved. |
| Solver.ClearVotes | src/puzzle.c:265-270 | `slot_max` becomes 0 and every undone slot's vote becomes 0. Done slots are unchanged. |
| Solver.ScanStart | src/puzzle.c:272-281 | The first placement succeeds exactly when the clues can be placed at all, and it establishes the anchor-loop invariant. |
| Solver.ScanStep | src/puzzle.c:283-299 | One step of the anchor loop (re-place and vote, or move the anchor back) keeps the invariant and strictly shrinks the measure. |
| Solver.AnchorStep | src/puzzle.c:283-299 | One iteration of the anchor loop, on the shared array: it keeps the invariant and strictly decreases the measure. |
| Solver.Enumerate | src/puzzle.c:272-299 | It fails exactly when the clues cannot be placed, and then leaves the line unchanged. Otherwise every arrangement is listed, and each undone slot's vote is the number covering it. |
| Solver.SolvedByResolving | src/puzzle.c:301-310 | Resolving the tallied votes and clearing the flag gives the solved line. Tallying changed no slot's done state. |
| Solver.MarkWoven | src/puzzle.c:237-257 | Resolving a cell in both of its lines keeps the two views consistent, and raises each orientation's resolved count by exactly one. |
| Solver.Puzzle.SolveSlotDone | src/puzzle.c:237-257 | The slot and its perpendicular copy become done with the slot's vote as their value. The perpendicular line is flagged. `cells_complete` grows by exactly 1, and the puzzle stays consistent. |
| Solver.Puzzle.ResolveSlot | src/puzzle.c:301-308 | One slot is resolved against `slot_max`. Only a vote equal to `slot_max`, or 0, resolves, and the result is copied to the perpendicular line. |
| Solver.Puzzle.ResolveSlots | src/puzzle.c:301-308 | Every slot of the line becomes its resolution against `slot_max`. Each perpendicular line sees the change in its one shared slot. `cells_complete` never decreases. |
| Solver.Puzzle.SolveLine | src/puzzle.c:259-313 | It fails exactly when the line's clues cannot be placed, and then leaves only the cleared votes. Otherwise all arrangements are counted and each undone slot is resolved against their number: set when all cover it, clear when none do. The flag is cleared and other lines of the orientation are untouched. |
| Solver.SolvedGrows | src/puzzle.c:265-310 | A successful line solve keeps the line's clues and every cell already resolved, and leaves the line unflagged. |
| Solver.Puzzle.PassLine | src/puzzle.c:320-327 | One step of a pass: a settled line is skipped, any other is solved from all its arrangements. A failure leaves the line with its votes cleared and reports it unplaceable. |
| Solver.Puzzle.SolvePass | src/puzzle.c:315-332 | Lines are dealt with in order. A settled line (complete or not flagged) is left as it was. Any other line is solved from the full list of its arrangements. On failure the first unplaceable line is left with its votes cleared and the lines after it are untouched. Every row and column keeps its clues and every resolved cell. `cells_complete` never decreases. |
| Solver.Puzzle.Solve | src/puzzle.c:339-369 | It fails only when some line cannot be placed. On success the puzzle is complete or every line is settled. Every row and column keeps its clues and every resolved cell. `cells_complete` never decreases, and an already complete puzzle is left as it is. |
| Output.TruncDiv | src/output.c:190-191 | C's signed division: the quotient lies on the dividend's side of zero, and the remainder has the dividend's sign and is smaller than the divisor, so the quotient is truncated toward zero. |
| Output.Level | src/output.c:86-121 | The level never exceeds `set_index`. It is 0 for a done clear cell, `set_index` for a done set cell, and half of it for an undone cell in simple style. In details style it shades by the weighted votes. |
| Output.LevelExtremes | src/output.c:105-117 | In details style, an undone cell that every arrangement of both lines covers gets `set_index`, and one that none covers gets 0. |
| Output.LevelMonotone | src/output.c:105-117 | More weighted votes never give a lower level. |
| Output.VotesWithinMax | src/output.c:106-112 | Votes within both lines' maxima satisfy the asserted `slot_val <= slot_max`, with a nonzero maximum. |
| Output.SimpleDrawable | src/output.c:95 | In any consistent puzzle the two views of a cell agree on done, as the drawing asserts. So the simple style can always draw. |
| Output.RgbRoundTrip | src/output.c:176-185 | The three channels extracted from a 24-bit colour recombine to it. |
| Output.SpectrumValue | src/output.c:188-193 | A gradient channel value lies between the clear and the set channel values, so the byte cast keeps it. |
| Output.SpectrumEnds | src/output.c:188-193 | Entry 0 is exactly the clear channel, and entry `count - 1` exactly the set channel. |
| Output.SpectrumMonotone | src/output.c:188-193 | Channel values move steadily from the clear value toward the set value. |
| Output.GradientEnds | src/output.c:173-196 | A generated gradient starts at the clear colour and ends at the set colour. |
| Output.State.GenerateSpectrum | src/output.c:173-196 | The first `count` entries hold the gradient, `set_index` becomes `count - 1`, and entries beyond are untouched. |
| Output.State.FindBorder | src/output.c:215-227 | It finds the border colour exactly when some entry holds it. The border index is then the last matching entry, and it is unchanged when none matches. |
| Output.FoundInGradient | src/output.c:215-229 | The search of the gradient decides whether the gradient holds the border colour, and where it last does. |
| Output.State.AppendBorder | src/output.c:238-245 | The border colour becomes a new entry right after the gradient, at the border index, and the gradient is kept. |
| Output.State.GeneratePalette | src/output.c:198-248 | The palette is the gradient of 3 entries (simple) or 256 (details). With borders, the border index is the last gradient entry of the border colour; otherwise the border colour is appended, after dropping to 255 entries when the palette was full. Afterwards `border_index < palette_count <= 256`, and the entry holds the border colour. |
| Output.PixelInCell | src/output.c:138-152 | Inside a cell's block, a pixel is border when its row or column offset is below `border_width`. Otherwise it shows the cell's level. |
| Output.State.FillCell | src/output.c:138-152 | A cell's block gets border in its first `border_width` rows and columns and the level elsewhere. Nothing else changes. |
| Output.State.FillRow | src/output.c:135-153 | The blocks of one row of cells are drawn as the frame specification says. Nothing else changes. |
| Output.State.PadRight | src/output.c:156-161 | Every pixel right of the cells becomes border, and nothing else changes. |
| Output.State.PadBelow | src/output.c:163-168 | Every pixel below the cells becomes border, and nothing else changes. |
| Output.State.GridUpdate | src/output.c:123-171 | Every pixel of the frame is the one its cell, or the border, calls for. `cells_complete` is copied from the puzzle. |
| Output.InitSizesFit | src/output.c:257-269 | The image is made exactly when both sides fit in 65535. It then holds every cell plus one border width. The height is only rejected after the width passed. |
| Output.RepeatSkipped | src/output.c:303-309 | In simple style without kept frames, a non-final event with no newly resolved cell adds no frame. |
| Output.OnlyConfiguredEvent | src/output.c:329-336 | Only the configured event adds frames, and only when there is an image file. |
| Output.ChangedAdds | src/output.c:303-336 | The configured event adds a frame whenever the picture may have changed, frames are kept, the style is details, or it is the last event. |
| Output.State.EventNotify | src/output.c:294-339 | It adds a frame exactly when the frame decision says so, redrawing the frame from the puzzle. Otherwise nothing changes. The levels need to be defined only when a frame is drawn. |
| Output.State.constructor | src/output.c:250-280 | The palette is built, the frame has the image size, and the puzzle is drawn into it. |
| Output.Init | src/output.c:250-292 | It fails exactly when the image would be too wide or too tall. Otherwise the state has its palette built and the puzzle drawn. The levels need to be defined only when the sizes fit. |
| Output.FailedNotDrawable | src/puzzle.c:265-270 | A line left by a failed solve has `slot_max` zero and an undone slot, so no details picture of the puzzle can be drawn: the level at src/output.c:104-116 divides by zero. |
| Output.AsWrittenNotDrawable | src/puzzle.c:69-75 | With the initial vote as written (twice the clue sum), a 1×1 puzzle with one set cell breaks the level precondition asserted at src/output.c:112. |
| Output.InitialDrawable | src/puzzle.c:69-75 | With the initial vote equal to the clue sum, the first picture of any puzzle whose clues fit in its cells can be drawn in details style. |
| Worked.BlockOfThree | src/puzzle.c:259-299 | Five unknown cells and the clue [3] have exactly the arrangements [0], [1], [2], in that order. |
| Worked.Votes | src/puzzle.c:301-304 | The five cells get 1, 2, 3, 2 and 1 votes of 3. |
| Worked.MiddleResolves | src/puzzle.c:259-313 | Solving that line gives `slot_max` 3 and resolves only the middle cell, as set. |

## Left out

- `src/load.c`: puzzle loading goes through a YAML library. The model takes
  the clue lists as given.
- `src/options.c` and `src/main.c`: command-line handling. The options are a
  value of `Output.Options`, and `toFile` stands for an output path being
  given.
- Every GIF library call: frame adding, file creation and closing. The
  frame delay is left out with them. `Output.State.EventNotify` returns
  whether a frame is added, not whether the library accepted it.
- All `printf`/`fprintf` output, including the progress line and the ASCII
  dump of the final event.
- The calls to `output_event_notify` from the solver (src/puzzle.c:311, 330,
  367) are not modelled. Their results are ignored there, and they do not
  change the puzzle.
- Allocation failures and the free routines. Allocation always succeeds in
  the model.
- `size_t` and `uint16_t` widths: integers are unbounded. The `clue--`
  wrap-around that ends the anchor loop is modelled as the anchor reaching
  -1. The overflow of `slot_val * max_idx` in `output__get_level` is not
  modelled.
- The grid (`src/grid.c`) is a two-dimensional array indexed by row and then
  column, not a flat buffer indexed by `y * width + x`. It is the same
  row-major layout.
- The output state keeps no reference to the puzzle. The puzzle is passed to
  `GridUpdate`, `EventNotify` and the constructor.
- Solver.InitialiseLines, Solver.Puzzle.constructor: undone slots start
  with the corrected initial vote (`Solver.InitialVote`, the orientation's
  clue sum), not with twice the clue sum as src/puzzle.c:73 writes. The
  vote as written is `Output.InitialVoteAsWritten`; the Findings table
  shows what it breaks.
- Solver.Puzzle.Solve: states the outcome (failure only on an unplaceable
  line; otherwise complete or every line settled) and that every line only
  grows, but not the number of passes, nor that it stops exactly at the
  first column pass with no new resolved cell. It does not state which
  arrangements each line was last solved from: a line can be solved in
  several passes, and the per-line statement is made by
  `Solver.Puzzle.SolvePass` for one pass.
- Solver.Puzzle.SolvePass: says of the perpendicular lines only that they
  keep their clues and resolved cells, and are untouched when no cell was
  resolved. Which cells are copied into them, and which get flagged, is
  stated line by line by `Solver.Puzzle.SolveLine`.
- Output.State.GridUpdate: the drawing needs each cell's level to be defined
  (`Output.Drawable`). The model proves this for the simple style at any
  time and for the details style on a fresh puzzle. After a failed solve it
  is false (`Output.FailedNotDrawable`): the failed line keeps `slot_max`
  zero with undone slots, and `puzzle_solve` still sends the final event
  (src/puzzle.c:367). When the configured event is the final one and an
  output file is open (src/output.c:329-335), that event draws, and the
  details-style level at src/output.c:116 divides by zero; for any other
  configured event it returns without drawing. `Output.State.EventNotify`
  requires `Drawable` only when it adds a frame, so it models the second
  case but not the frame of the first. After a successful partial solve,
  details-style drawability is not proved.

## Findings

| source | as written | input that shows it | evidently intended | confidence | as-written member | corrected member |
|---|---|---|---|---|---|---|
| src/puzzle.c:73 | every slot starts with twice its orientation's clue sum, while `slot_max` (src/puzzle.c:75) counts each cell of the orientation once | a 1×1 puzzle with clues [1] and [1]: both views start at 2 with maximum 1, so the weighted vote is 4 against a maximum of 2, and the assertion at src/output.c:112 fails when the first details-style picture is drawn (without assertions, `slot_max - slot_val` wraps) | the initial vote is the clue sum, so the first picture shades every cell by the puzzle's fill ratio and stays within the maximum | high for the arithmetic; not executed | Output.AsWrittenNotDrawable (with Output.InitialVoteAsWritten) | Solver.InitialVote, with Output.InitialDrawable |
