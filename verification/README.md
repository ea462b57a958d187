# rulez: the rule-rewrite engine, modelled in Dafny

rulez is a terminal puzzle. The player edits a short list of rewrite
rules until repeatedly applying them turns a start grid into a goal grid.
This project models the engine behind it and proves properties of that
model:

- **Grid** (`grid.dfy`, `Field` in src/field.rs). A w×h grid of bytes.
  Reads outside the grid return the blank 0x20. `neighborhood` gives the
  row-major 3×3 window with the cell itself at index 4. `set` is checked
  against the bounds.
- **Rules** (`rules.dfy`, src/rule.rs). A rule has a pattern and a
  replacement byte. Each pattern byte is one of three kinds:
  - `_` is a wildcard.
  - `A`–`Z` is a variable. Its first occurrence binds to the neighbour
    byte, and every later occurrence must see the same byte.
  - Any other byte is a literal and matches only itself.

  On a match, the output is the replacement, resolved against the
  bindings of that one call.
- **Automaton** (`automata.dfy`, src/automaton.rs). One synchronous
  generation. Every cell reads the pre-step grid, and the first rule that
  matches decides the cell. A cell that no rule matches keeps its symbol.
- **Level** (`levels.dfy`, src/level.rs). Start grid, goal grid, rules
  and an id.
- **Cursor** (`cursor.dfy`, src/cursor_pos.rs). Navigation over the rule
  editor.
- **Playing driver** (`playing.dfy`, src/playing_ui.rs lines 27-81).
  Steps toward the goal, counts steps, and restarts from the start grid
  after every edit.

`wrappers.dfy` holds `Option` and the `byte` type, Rust's `u8`.

Everything is immutable data and pure functions. Rust's in-place updates
(`set`, `set_char`, `update`) become functions that return the new value.
A Rust panic is an `assert!`, an out-of-range index or a `% 0`. In the
grid, rule and cursor operations, each panic becomes a `requires` that
holds exactly where the source does not panic. A generation and the
driver instead require a well-shaped field (see `Automata.Step` under
"## Left out").

## Two revisions

src/logic.rs is an earlier single-file copy of the engine:

- Lines 5-51 are the same `Field`.
- Lines 54-89 are the same `Rule`.
- Lines 91-111 are the same `Automaton::step`.
- It also has the constructors `Field::new`, `Automaton::add_rule` and
  `Level::new`, which the split files comment out.

src/ui.rs lines 12-56 are an earlier copy of `CursorPos`. Its `Menu`
variant is the later `State`. Both revisions share one model here, and
the table below cites whichever copy states a property most directly.

The logic.rs `Level` has no `id` field. `NewLevel` therefore takes the id
as a parameter.

## Model

| member | source | states |
|---|---|---|
| `Grid.Get` | src/field.rs:30-39 | Negative coordinates read as blank. On a well-shaped grid, the cell reads as `data[y][x]` inside w×h and as blank everywhere outside it. |
| `Grid.Set` | src/field.rs:24-28 | Requires x < w, y < h and an existing row and column. Afterwards the cell reads v, every other cell reads as before, w and h are unchanged, and the shape is kept. |
| `Grid.Neighborhood` | src/field.rs:41-49 | The window has exactly 9 entries, and entry 4 is the cell itself. |
| `Grid.NeighborhoodOffset` | src/logic.rs:43-51 | Entry (xo+1) + 3·(yo+1) is the cell at offset (xo, yo), for xo and yo in -1..1. This is the layout rule patterns use. |
| `Grid.CornerWindowIsBlankFilled` | src/field.rs:30-33 | At (0,0), the five window entries with a negative coordinate are blank, whatever the grid holds. |
| `Grid.Coords` | src/field.rs:20-22 | Yields w·h pairs. All are in bounds, every in-bounds pair occurs, and no pair occurs twice. |
| `Grid.FieldEquality` | src/field.rs:3-8 | Two well-shaped grids are equal exactly when they have the same w and h and the same symbol in every cell. |
| `Grid.NewField` | src/logic.rs:13-20 | Requires w > 4 and h > 4. Gives a well-shaped w×h grid in which every cell is blank. |
| `Rules.VariablesAreUpperCaseLetters` | src/rule.rs:11-13 | A byte is a variable exactly when it is in 'A'..'Z'. '@', '[', '_' and blank are not variables. |
| `Rules.MatchCellStep` | src/rule.rs:14-26 | One step of the walk against the declarative description. From a consistent prefix with its bindings, position k matches exactly when the prefix stays consistent (literals equal, repeated variables see equal symbols) one position further. The new bindings are then exactly those of the longer prefix. |
| `Rules.MatchFromAgrees` | src/rule.rs:29-34 | Walking the pattern from a consistent prefix succeeds exactly when the whole common length is consistent. On success it returns exactly the bindings of that length. |
| `Rules.ApplyMatchesIff` | src/rule.rs:27-37 | `apply` returns Some exactly when the pattern matches. Matching means every literal equals its neighbour and all occurrences of a variable see equal neighbours. |
| `Rules.ApplyResolvesReplace` | src/rule.rs:35 | On a match, a replacement variable that occurs in the pattern yields the neighbour under any of its occurrences. Any other replacement, an unbound letter included, is emitted as-is. |
| `Rules.WildcardIgnoresCell` | src/rule.rs:15-17 | Changing the neighbour under a `_` changes neither whether the rule fires nor what it writes. |
| `Rules.LiteralMismatchRejects` | src/rule.rs:25 | A literal, blank included, that differs from its neighbour makes the rule fail. |
| `Rules.RepeatedVariableRejects` | src/rule.rs:18-24 | Two occurrences of one variable over unequal neighbours make the rule fail. |
| `Rules.WestEqualsEast` | src/logic.rs:77-88 | Pattern `___A_A___` fires exactly when n[3] == n[5]. With replacement `A` it writes n[3]. |
| `Rules.AllWildcardMatches` | src/logic.rs:66 | An all-`_` pattern fires on every neighbourhood and writes its replacement unchanged. |
| `Automata.FirstMatch` | src/automaton.rs:17-22 | Returns Some exactly when some rule matches. That value is the output of a matching rule with no earlier matching rule. |
| `Automata.FirstMatchIsEarliest` | src/automaton.rs:17-21 | The earliest matching rule's output is the result, whatever later rules say. |
| `Automata.Step` | src/automaton.rs:14-25 | The next generation is well-shaped and has the input's w and h. |
| `Automata.StepOverCells` | src/automaton.rs:15-23 | After the loop over any in-bounds order, a visited cell holds the first match computed on the input grid. Every other cell is as it was in the copy. |
| `Automata.StepCell` | src/automaton.rs:16-23 | Each cell of `step(f)` is the first matching rule's output on f's window, or f's old symbol when no rule matches. |
| `Automata.StepOrderIndependent` | src/automaton.rs:16-18 | Any visiting order that reaches every cell gives the same generation as the source's order. |
| `Automata.StepWithoutRules` | src/automaton.rs:15-24 | With zero rules, `step(f) == f`. |
| `Automata.StepPrecedence` | src/logic.rs:103-108 | When rule i is the earliest match, the cell takes rule i's output. A later rule j with a different output never shows there. |
| `Automata.StepIsLocal` | src/automaton.rs:18 | A new cell depends only on the input grid's window around it. |
| `Automata.StepLoop` | src/logic.rs:100-111 | The nested loops with `break` are written imperatively. Every cell of the result is the first-match-or-keep value computed on the input. |
| `Automata.AddRule` | src/logic.rs:113-119 | Adds exactly one rule, at the end. Earlier rules and their order are unchanged. |
| `Automata.AddRuleIsLowestPrecedence` | src/logic.rs:113-119 | After `add_rule`, the old rules decide every neighbourhood they match. The new rule decides only the rest. |
| `Levels.NewLevel` | src/logic.rs:128-135 | Keeps start and goal as given and has an empty rule list. |
| `Levels.NewLevelStepIsIdentity` | src/logic.rs:129-135 | Stepping a new level's automaton changes nothing. |
| `Cursor.RemTIsTruncatingRemainder` | src/cursor_pos.rs:43-64 | `RemT` is Rust's signed `%`: a == b·trunc(a/b) + RemT(a, b), where the quotient rounds toward zero. Together with `RemT`'s own contract, the result is in [0, b) for a non-negative dividend and in (-b, 0] for a negative one. |
| `Cursor.RowAboveIsSaturatingCast` | src/cursor_pos.rs:23 | With the `usize` and `isize` casts and `saturating_sub(1)` written out on 64-bit words, `RowAbove` equals that round trip for every `isize` except `isize::MIN`. At `isize::MIN` the source wraps to `isize::MAX`, while the model gives y-1. |
| `Cursor.PrevNext` | src/cursor_pos.rs:40-64 | For 0 ≤ i < len, the wrap expressions give the previous and the next rule index cyclically. |
| `Cursor.MovesStayInRange` | src/cursor_pos.rs:17-67 | Given len > 0, 0 ≤ i < len and x, y in 0..2, all four moves keep i, x and y in range. |
| `Cursor.LeftRightInverse` | src/ui.rs:36-55 | On an in-range cursor, right undoes left and left undoes right, across the wrap between the first and last rule. |
| `Cursor.RightCyclesColumns` | src/cursor_pos.rs:54-67 | Over all rules' pattern columns (3·i + x), right is +1 modulo 3·len. The row is kept. |
| `Cursor.LeftCyclesColumns` | src/cursor_pos.rs:38-53 | Over the same columns, left is -1 modulo 3·len. The row is kept. |
| `Cursor.UpDownRoundTrip` | src/ui.rs:19-35 | Up undoes down inside a pattern (y < 2) and from `Replace`. Down undoes up from `Replace`, `State`/`Menu`, and a pattern with y > 0. |
| `Cursor.StateIsFixedSideways` | src/cursor_pos.rs:26-65 | `State` is a fixed point of down, left and right. Up from `State{last_i}` is `Replace{last_i}`. |
| `Playing.New` | src/playing_ui.rs:36-45 | The field is the start grid, the step count is 0, animation is off and the cursor is `Pattern{0,0,0}`. The driver invariant holds. |
| `Playing.ResetField` | src/playing_ui.rs:68-71 | Sets field := start and step count := 0, and changes nothing else. Restores the driver invariant. |
| `Playing.SetChar` | src/playing_ui.rs:55-66 | Writes only the addressed pattern byte or replacement byte; in `State` the rules are untouched. Every other byte and rule is unchanged. Afterwards field == start and the step count is 0. |
| `Playing.Toggle` | src/playing_ui.rs:47-53 | In `State`, only `animate` flips. Elsewhere it is `set_char(' ')`. |
| `Playing.Update` | src/playing_ui.rs:73-81 | Returns true exactly when field == goal, and then changes nothing. Otherwise it steps the field once, adds exactly 1 to the count, and returns false. |
| `Playing.OperationsKeepTracking` | src/playing_ui.rs:47-81 | Reset, set_char, toggle, update and cursor moves all keep field == start stepped `cur_step` times by the current rules. |
| `Playing.InRangeCursorCanEdit` | src/playing_ui.rs:58-63 | An in-range cursor over 9-byte patterns never makes `set_char` index out of bounds. |
| `Playing.RunFollowsGenerations` | src/playing_ui.rs:73-77 | From a reset screen, with no earlier generation equal to the goal, tick n shows generation n and has counted n steps. |
| `Playing.SolvedAfterExactly` | src/playing_ui.rs:73-81 | If generation k is the first to equal the goal, the puzzle is reported solved at tick k+1 with count k, never earlier. The state then stays put. |

## Left out

- Rendering: the `draw_*`, `set_cursor` and `rules_start` functions, the
  box-drawing constants, and the ui.rs drawing code. These are terminal
  output only.
- `PlayingUI::event`: the key-to-operation mapping. It only calls the
  modelled operations.
- src/main.rs: the lock-sharing, the animation thread with its sleep, and
  the stdin loop. This is concurrency and I/O.
- src/game.rs and src/game_state.rs: the menu and level state machine
  around the driver. It only indexes the level list.
- The Serde derives, because serialisation is a foreign library.
- The `mutable` flag of `Rule`, because matching never reads it.
- `Rules.Apply` and `Rules.MatchFrom`: these follow `zip` and walk only
  the common length of pattern and neighbourhood. No pattern length is
  enforced in the rule itself. Only `set_char` indexing relies on the
  length.
- `Playing.SetChar`: takes a byte. The source's `char` and its UTF-8
  encoding are not modelled; the byte is the first byte of that encoding.
- `Cursor.RowAbove`: isize overflow is not modelled. At `isize::MIN` the
  source's cast round trip gives `isize::MAX`, and the model gives y-1
  (`Cursor.RowAboveIsSaturatingCast` states both values). Coordinates are
  unbounded integers, so the wrap of `isize::MIN` and overflow in `x + 1`
  or `cur_step += 1` are absent. In-range cursors never come near these
  limits.
- `Automata.Step`: requires a well-shaped field (`Valid`: `data` has h rows
  of w bytes). The same requirement holds for `StepOver`, `Visit`,
  `Playing.StepN`, `Playing.Update` and `Playing.Run`. The source panics
  only when a rule fires at an (x, y) that has no `data[y][x]`, so it also
  steps fields with longer rows, and malformed fields on which no rule
  fires. The model treats the shape as a data invariant: every operation
  that produces a field keeps it.
- Input immutability during `step`: the model is pure, so no input grid
  or rule can change. This holds by construction and is not a separate
  lemma.
