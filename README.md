# Daily crossword session — a Dafny model

This project models the playing core of the daily crossword component
(`components/crossword-game.tsx`). It covers:

- the clue index (`fromIpuz`) the component synthesises from an ipuz-style
  puzzle;
- the entry grid the player fills in;
- the cursor and direction state machine driven by clicks, arrows and typing;
- the queries the view makes: the active clue, the highlighted word, whether
  a word is correct, whether the grid is solved;
- the `m:ss` timer display.

The modules follow the component's structure:

- `Ipuz` (`ipuz.dfy`): the puzzle payload (cells are a block, a numbered cell
  or any other playable value; a solution grid; one ordered list of clues per
  direction).
  - The row-major search shared by `findNumber` and the search for the first
    playable cell.
- `ClueIndex` (`clue_index.dfy`): `generateFromIpuz`.
  - Specified by the pure function `BuildIndex`.
  - Proved: the keys, start cell, answer and text of every record.
- `EntryGrid` (`entry_grid.dfy`): the empty grid and single-cell writes.
  - The completion scan, `checkGame` and `isWordCorrect`, each as the loop it
    is in the component and each proved against a specification predicate.
- `Cursor` (`cursor.dfy`): cell clicks, `moveCell` and `moveSelection`.
  - `moveSelection` is proved to reach the nearest playable cell ahead in scan
    order, or to stay put.
  - `getCurrentClue` (the `Object.entries` loop) and `isHighlighted`.
  - Previous and next clue.
- `Keys` (`keys.dfy`): the routing of physical keys in `handleKeyDown`.
- `FormatTime` (`format_time.dfy`): `formatTime`, with a parser that proves
  the display loses no information.
- `Session` (`session.dfy`): the component's state as a class whose fields are
  `puzzle`, `index`, `grid`, `selected`, `direction` and `completed`, with one
  method per handler.
  - A counter `solvedEvents` stands for the success side effects (dialog,
    saved result, confetti); it counts from the component's mount.
  - The invariant `Valid()` holds after the constructor, the corrected `Load`
    and every handler (the as-written load is not proved to keep it; see
    "Findings"):
    - the grid has the puzzle's shape;
    - the index is the built one;
    - the cursor is on a playable cell;
    - since the current puzzle was installed, the success effects fired once
      if the session is completed and not at all otherwise;
    - a solved non-empty grid is always marked completed.

Modelling decisions:

- Clue numbers are natural numbers.
  - A record's key is the clue's number.
  - `Object.entries` on such keys yields them in ascending order, which
    `SortedKeys` reproduces.
- The payload's shape is assumed (`WellFormed`): puzzle and solution have
  exactly `height` rows of `width` cells. The component does not check this
  either; what it does on other shapes is listed under "Left out".
- `moveSelection` is called only with `+1` and `-1`; the model requires that.
- Every numeric cell value is `Numbered(n)`, the ipuz value `0` for an
  unnumbered cell included, so a clue numbered 0 starts where `findNumber(0)`
  finds it: at the first cell holding 0. `Plain` stands for the remaining
  values other than `"#"`. Any value other than `"#"` is playable, as in the
  component.

## Model

| member | source | states |
|---|---|---|
| Ipuz.FindFirst | components/crossword-game.tsx:213-220 | the nested `for` search with early return yields exactly `First`, the row-major-first cell hitting the target |
| Ipuz.FirstFromSpec | components/crossword-game.tsx:213-220 | a hit found from (r, c) is in bounds, hits, is not before (r, c), and no cell between hits; None means nothing from (r, c) on hits |
| Ipuz.FirstSpec | components/crossword-game.tsx:213-220 | `First` is the row-major-first hit, and is None exactly when no cell of the grid hits |
| ClueIndex.RunAnswer | components/crossword-game.tsx:226-231 | the answer walk yields nothing from a block or off the grid, and with one-letter cells as many letters as the run has cells |
| ClueIndex.BuildDir | components/crossword-game.tsx:222-259 | every record of one direction starts at the first row-major cell carrying its number |
| ClueIndex.BuildIndex | components/crossword-game.tsx:204-261 | in either direction, every record of the synthesised index starts at the first cell carrying its number |
| ClueIndex.RunSpec | components/crossword-game.tsx:226-231 | the walked run is maximal (all playable, next cell a block or off the grid), non-empty iff the start is playable, and with one-letter cells the answer has the run's length and spells its solution letters in order |
| ClueIndex.CollectAnswer | components/crossword-game.tsx:226-231 | both `while` walks (across by column, down by row) build exactly `RunAnswer` |
| ClueIndex.BuildDirKeys | components/crossword-game.tsx:222-259 | a number has a record iff some clue of the list carries it and some cell carries that number |
| ClueIndex.BuildDirRecord | components/crossword-game.tsx:222-259 | a record starts at the first cell carrying its number, holds that run's answer and the text of the last clue with that number (later duplicates overwrite) |
| ClueIndex.ProcessClues | components/crossword-game.tsx:222-259 | the `forEach` over one clue list produces exactly `BuildDir` for that list |
| ClueIndex.GenerateFromIpuz | components/crossword-game.tsx:204-261 | the synthesised index is `BuildIndex`: the across list processed across, the down list processed down |
| ClueIndex.IndexKeys | components/crossword-game.tsx:204-261 | the index has a record for a number iff the direction's list carries it and the grid contains a cell with it |
| ClueIndex.DescriptorFacts | components/crossword-game.tsx:204-261 | every record's start is in bounds, playable, carries its number, is the first such cell, and begins a run of at least one cell whose length is the answer's length when cells hold one letter |
| EntryGrid.EmptyGrid | components/crossword-game.tsx:265-268 | the new grid has `height` rows of `width` empty strings |
| EntryGrid.SetEntry | components/crossword-game.tsx:335-350 | writing one cell keeps the grid's shape, stores the value there and changes no other cell |
| EntryGrid.CompletionScan | components/crossword-game.tsx:111-124 | the nested loop with its two `break`s returns true iff every non-block cell holds its solution string |
| EntryGrid.CheckGame | components/crossword-game.tsx:521-536 | the loop without early exit reaches the same verdict, true iff every non-block cell holds its solution string |
| EntryGrid.IsWordCorrect | components/crossword-game.tsx:502-519 | false without a record; otherwise true iff each cell of the span holds the matching answer character, a cell off the grid counting as a mismatch |
| EntryGrid.SolvedWordsCorrect | components/crossword-game.tsx:502-536 | on a grid that passes `checkGame`, with one-letter solution cells, every word of the built index is correct |
| EntryGrid.SolutionMatches | components/crossword-game.tsx:152-158 | the copied solution passes the completion check |
| EntryGrid.EmptyGridMatchesIff | components/crossword-game.tsx:263-268 | a freshly emptied grid passes the check only if every playable solution string is empty |
| Cursor.InitialSelectionAsWritten | components/crossword-game.tsx:275-284 | as written, the cursor changes on a load only to a playable cell, and is on a playable cell whenever the puzzle has one |
| Cursor.InitialSelection | components/crossword-game.tsx:275-284 | the corrected first cursor is unset exactly when every cell is a block, and otherwise on a playable cell |
| Cursor.InitialSelectionOk | components/crossword-game.tsx:275-284 | the corrected first cursor is the row-major-first non-block cell, or unset only when every cell is a block |
| Cursor.StaleSelectionAfterLoad | components/crossword-game.tsx:275-284 | as written, loading an all-block puzzle leaves the previous cursor on a block |
| Cursor.Click | components/crossword-game.tsx:287-296 | a click changes at most one of cursor and direction, and moves the cursor only onto the clicked cell when that is not a block |
| Cursor.ClickSpec | components/crossword-game.tsx:287-296 | a block is ignored; the selected cell toggles the direction (a second click restores the state); another cell is selected with the same direction; the cursor stays on a playable cell |
| Cursor.MoveTarget | components/crossword-game.tsx:391-403 | the arrow target exists iff the neighbouring cell is on the grid and not a block, and it is that cell |
| Cursor.Advance | components/crossword-game.tsx:405-447 | the bounded, wrapping scan returns the nearest playable cell strictly ahead in row-major (across) or column-major (down) order, and returns None only when every cell ahead is a block |
| Cursor.NextAheadUnique | components/crossword-game.tsx:405-447 | the nearest playable cell ahead is unique |
| Cursor.NextAheadNotNone | components/crossword-game.tsx:405-447 | finding a next cell and finding nothing ahead exclude each other |
| Cursor.ScanStep | components/crossword-game.tsx:412-432 | one loop step from a cell of the grid to a cell of the grid advances the scan index by exactly the step |
| Cursor.ScanStepSpec | components/crossword-game.tsx:412-432 | one loop step moves to the immediate successor in scan order, or leaves the grid exactly when no cell lies ahead |
| Cursor.SortedKeys | components/crossword-game.tsx:463 | the record's keys, each once, in strictly ascending order |
| Cursor.FirstCovering | components/crossword-game.tsx:463-477 | a key returned is one of the keys, has a record, and that record's span contains the cell; None means no listed key's span contains it |
| Cursor.FirstCoveringSpec | components/crossword-game.tsx:463-477 | the first key in ascending order whose span contains the cell is the smallest such key; None means no span contains it |
| Cursor.ActiveClue | components/crossword-game.tsx:450-478 | the active clue's span contains the cursor and its number is the smallest such; it is absent iff the cursor is unset or no span contains it |
| Cursor.CurrentClue | components/crossword-game.tsx:450-478 | the `for ... of` loop with early return computes `ActiveClue` |
| Cursor.ScanClues | components/crossword-game.tsx:463-477 | the loop over the keys returns the first key whose span contains the cell |
| Cursor.Highlighted | components/crossword-game.tsx:483-500 | a highlighted cell needs a cursor and an active clue, and lies in the cursor's row (across) or column (down) |
| Cursor.HighlightSpec | components/crossword-game.tsx:483-500 | a cell is highlighted iff a clue is active and the cell is one of the first `answer.length` cells of its span; the cursor cell is highlighted whenever a clue is active |
| Cursor.FindIndexFrom | components/crossword-game.tsx:365-367 | the index of the first entry from k on carrying the number, or -1 when none does |
| Cursor.PrevTarget | components/crossword-game.tsx:355-373 | a previous-clue target exists only for an active clue that is not the list's first entry, and is the start of the record of the entry before it |
| Cursor.NextTarget | components/crossword-game.tsx:375-389 | a next-clue target exists only for an active clue that is not the list's last entry, and is the start of the record of the entry after it |
| Cursor.NeighbourSpec | components/crossword-game.tsx:355-389 | previous and next go to the neighbours in list order of the first entry with the active number, and neither wraps at the ends |
| Cursor.NeighbourTargetOk | components/crossword-game.tsx:355-389 | a previous or next jump in the built index lands on a playable cell |
| Cursor.JumpTargetOk | components/crossword-game.tsx:721-764 | a jump to any record of the built index lands on a playable cell that carries the clue's number |
| Keys.Upper | components/crossword-game.tsx:305-307 | upper-casing maps an ASCII letter to the matching capital and keeps capitals |
| Keys.RouteKey | components/crossword-game.tsx:298-328 | the virtual-key handler only receives BACKSPACE, TAB or one capital letter; a move is one cell along the current direction; a turn always switches direction |
| Keys.LetterRouting | components/crossword-game.tsx:305-307 | an ASCII letter reaches the grid as one capital letter; any other single character is ignored |
| Keys.ArrowRouting | components/crossword-game.tsx:308-323 | an arrow across the current direction only turns to the arrow's axis; an arrow along it moves one cell, forwards for Right/Down and backwards for Left/Up |
| Keys.VirtualRouting | components/crossword-game.tsx:298-328 | only Backspace, Tab and ASCII letters reach the virtual-key handler |
| FormatTime.Digits | components/crossword-game.tsx:149 | the decimal rendering is non-empty, all digits, and a single digit exactly below 10 |
| FormatTime.ParseDigits | components/crossword-game.tsx:149 | reading a decimal rendering back gives the number |
| FormatTime.Pad2 | components/crossword-game.tsx:149 | below 100 the padded field is exactly two digits; from 10 on it is the plain decimal rendering |
| FormatTime.Pad2Spec | components/crossword-game.tsx:149 | the padded seconds field is always two digits and reads back as the value |
| FormatTime.FormatTime | components/crossword-game.tsx:146-150 | the display is digits, a colon, and exactly two digits |
| FormatTime.FormatTimeRoundTrip | components/crossword-game.tsx:146-150 | `m:ss` parses back to the elapsed seconds, with minutes unbounded and seconds below 60 |
| FormatTime.FormatTimeInjective | components/crossword-game.tsx:146-150 | two different elapsed times never display the same |
| Session.Session.constructor | components/crossword-game.tsx:55-62 | the first load establishes the invariant with direction across |
| Session.Session.Load | components/crossword-game.tsx:160-184 | corrected load: the completed flag is cleared together with installing the new puzzle; it builds the index, empties the grid, selects the first playable cell (unset when there is none) and keeps the direction; afterwards completed is exactly whether the new empty grid is solved, and the success effects fire once only in that case |
| Session.Session.ResetForFetch | components/crossword-game.tsx:160-165 | clearing the flag before the fetch leaves puzzle, index, grid, cursor and direction unchanged and re-runs the completion check (108-136) on the grid still shown: completed becomes whether that old grid is solved, and the success effects fire again if it is |
| Session.Session.InstallAsWritten | components/crossword-game.tsx:169-177 | installing the fetched puzzle builds the index, empties the grid and moves the cursor as `initializeGrid` does (kept when no cell is playable), without clearing the flag: completed stays set if it was, and is otherwise whether the new grid is solved |
| Session.Session.LoadAsWritten | components/crossword-game.tsx:160-184 | the load as written: after it, completed holds iff the old grid or the new empty grid is solved, and the success effects fire once in that case |
| Session.RefireAfterSolvedLoad | components/crossword-game.tsx:160-184 | concrete run: autocomplete a one-cell puzzle, then load a puzzle as written; the success effects have fired twice and the session is marked completed although the new grid is not solved |
| Session.NoRefireAfterSolvedLoad | components/crossword-game.tsx:160-184 | the same run with the corrected load: the effects fired once and the new puzzle is not marked completed |
| Session.Session.CompletionEffect | components/crossword-game.tsx:108-136 | nothing once completed or on an empty grid; otherwise marks the session completed exactly when the grid is solved, and the success effects fire once |
| Session.Session.ClickCell | components/crossword-game.tsx:287-296 | the cursor state becomes `Click` of the old state and nothing else changes |
| Session.Session.MoveCell | components/crossword-game.tsx:391-403 | the cursor moves to the arrow target when there is one and nothing else changes |
| Session.Session.MoveSelection | components/crossword-game.tsx:405-447 | the cursor moves to the nearest playable cell ahead, or stays when every cell ahead is a block |
| Session.Session.VirtualKey | components/crossword-game.tsx:330-353 | BACKSPACE clears a filled cell or else moves back; TAB changes nothing; another one-character key is written and the cursor moves on; the invariant (solved implies completed) is kept |
| Session.Session.KeyDown | components/crossword-game.tsx:298-328 | the state changes as the routed action says: virtual key, turn, move or nothing |
| Session.Session.PrevClue | components/crossword-game.tsx:355-373 | the cursor goes to the previous listed clue's start when it has a record, or stays |
| Session.Session.NextClue | components/crossword-game.tsx:375-389 | the cursor goes to the next listed clue's start when it has a record, or stays; with no list entry for the active clue it goes to the first entry's start |
| Session.Session.ClickClue | components/crossword-game.tsx:721-764 | a clue with a record selects its start and the list's direction; otherwise nothing changes |
| Session.Session.Autocomplete | components/crossword-game.tsx:152-158 | the grid becomes the solution and the session is completed unless the puzzle has no rows |
| Session.Session.Check | components/crossword-game.tsx:521-536 | the verdict is the full-match condition, and a positive verdict on a non-empty grid implies the session is already completed |
| Session.Session.WordCorrect | components/crossword-game.tsx:502-519 | word correctness on the session's grid and index; on a solved grid of one-letter cells every indexed word is correct |

## Left out

- Fetching the puzzle (`fetchCrossword`'s network request and its failure
  path), the loading flag and the error screen. I/O is not modelled.
  `LoadAsWritten` and `Load` are the successful path only; the failure path
  would leave the state `ResetForFetch` produced.
- A `fromIpuz` index already present in the payload. The session always uses
  the synthesised index, so `Valid()` ties the index to `BuildIndex`.
- React's scheduling. State updates are applied at once, and the completion
  effect runs right after each change of its inputs rather than after the
  next render. Its re-run on the loading render (the flag cleared before the
  fetch) is modelled by `ResetForFetch` within `LoadAsWritten`. Its re-runs
  caused by timer ticks change nothing and are not modelled.
- The time argument of `saveResult`. `solvedEvents` counts the success
  effects but does not record the time saved (0 on the refire after a load)
  or the date it is saved under.
- Payloads of another shape than `WellFormed` describes. For a row shorter
  than `width` the component reads `undefined`, treats it as playable (it is
  not `"#"`) and appends the text "undefined" to a synthesised answer; only a
  missing row makes it throw. The model assumes the shape and does not
  capture this.
- String lengths. `|x.answer|`, the span length, and the one-character test
  on virtual keys count Unicode scalar values, where the component's
  `.length` counts UTF-16 code units; the two differ for characters outside
  the Basic Multilingual Plane.
- Focus handling, input refs, `preventDefault`, the Start overlay
  (`hasStarted`) and the login warning. These are view concerns.
- The timer itself: the start time, the interval and the clock. Only its
  display `formatTime` is modelled.
- Supabase: the user lookup and the saved result. The success side effects
  (dialog, saved result, confetti) are the `solvedEvents` counter; the alerts
  of `checkGame` are its boolean result.
- Date navigation, the sidebar, the virtual keyboard component, the API route
  and the page. They are outside this model's core.
- The `!data` guards of the handlers. Every handler is reachable only once a
  puzzle is loaded, so they are dead in the model.
- The shallow copy of the grid before a write, which shares rows with the
  previous state. The grid is a value, so this aliasing is not captured.
- `Object.entries` order for keys that are not array indices. Clue numbers
  are natural numbers, so ascending order is the model.
- `Session.Session.MoveSelection`: called only with +1 and -1, so other step
  sizes are not modelled.

## Findings

| source | as written | input that shows it | evidently intended | confidence | as-written member | corrected member |
|---|---|---|---|---|---|---|
| components/crossword-game.tsx:275-284 | the search for the first playable cell only sets the cursor when it finds one, so a load keeps the previous puzzle's cursor otherwise | a 1x1 puzzle whose only cell is `"#"`, loaded while (0, 0) of the previous day's puzzle was selected: the cursor stays on a block | clear the cursor when the new puzzle has no playable cell | not executed | Cursor.InitialSelectionAsWritten, Cursor.StaleSelectionAfterLoad | Cursor.InitialSelection, Cursor.InitialSelectionOk |
| components/crossword-game.tsx:160-184 | `fetchCrossword` clears the completed flag, the start time and the elapsed time before awaiting the fetch, so the completion effect (108-136) runs again on the loading render, over the old puzzle and the old grid; if that grid was solved, the success dialog, `saveResult(0)` and the confetti fire again, and the flag is set again and stays set for the new puzzle, so the effect returns early at 109 from then on and the timer (139) never starts | solve a puzzle (or autocomplete it), then press the previous-day button (572-576) | the flag cleared together with installing the new puzzle, so the new puzzle starts uncompleted and the effects fire once per solve | not executed | Session.Session.LoadAsWritten, Session.RefireAfterSolvedLoad | Session.Session.Load, Session.NoRefireAfterSolvedLoad |
