/** One play session of the crossword component: the loaded puzzle and its
    clue index, the entry grid, the cursor and direction, and the completed
    flag, with one method per event handler. */
module Session {
  import opened Ipuz
  import opened ClueIndex
  import opened EntryGrid
  import opened Cursor
  import opened Keys

  class Session {
    var puzzle: IpuzData
    var index: Index
    var grid: Grid
    var selected: Option<Pos>
    var direction: Direction
    var completed: bool
    /** How many times the success side effects (dialog, saved result,
        confetti) have fired since the component was mounted. */
    var solvedEvents: nat
    /** The value of `solvedEvents` when the current puzzle was installed. */
    ghost var eventsBefore: nat

    ghost predicate Shaped()
      reads this
    {
      WellFormed(puzzle) && Rect(grid, puzzle.height, puzzle.width)
    }

    /** The state the completion effect accepts: a non-empty grid whose
        playable cells all hold the solution. */
    ghost predicate Solved()
      reads this
      requires Shaped()
    {
      |grid| > 0 && AllPlayableMatch(puzzle, grid)
    }

    /** The session invariant: the grid has the puzzle's shape, the index is
        the one built from the puzzle, the cursor is on a playable cell, the
        success side effects have fired once for this puzzle if the session is
        completed and never otherwise, and a solved grid has been noticed. */
    ghost predicate Valid()
      reads this
    {
      && Shaped()
      && index == BuildIndex(puzzle)
      && CursorOk(puzzle, selected)
      && solvedEvents == eventsBefore + (if completed then 1 else 0)
      && (Solved() ==> completed)
    }

    /** The component's first successful load: direction starts across. */
    constructor (p: IpuzData)
      requires WellFormed(p)
      ensures Valid()
      ensures puzzle == p && index == BuildIndex(p) && grid == EmptyGrid(p.height, p.width)
      ensures selected == InitialSelection(p) && direction == Across
      ensures completed == Solved() && solvedEvents == (if completed then 1 else 0)
    {
      puzzle := p;
      index := Index(map[], map[]);
      grid := [];
      selected := None;
      direction := Across;
      completed := false;
      solvedEvents := 0;
      eventsBefore := 0;
      new;
      Load(p);
    }

    /** A successful `fetchCrossword`, corrected: the completed flag is cleared
        together with installing the new puzzle, so the completion effect never
        re-runs on the puzzle being replaced. Builds the clue index, runs
        `initializeGrid` (with the corrected cursor), then lets the completion
        effect run once on the new grid. The direction is kept. */
    method Load(p: IpuzData)
      requires WellFormed(p)
      modifies this
      ensures Valid()
      ensures puzzle == p && index == BuildIndex(p) && grid == EmptyGrid(p.height, p.width)
      ensures selected == InitialSelection(p) && direction == old(direction)
      ensures completed == Solved()
      ensures solvedEvents == old(solvedEvents) + (if completed then 1 else 0)
    {
      completed := false;
      eventsBefore := solvedEvents;
      puzzle := p;
      index := GenerateFromIpuz(p);
      grid := EmptyGrid(p.height, p.width);
      selected := FindFirst(p, AnyPlayable);
      InitialSelectionOk(p);
      CompletionEffect();
    }

    /** The completion effect: nothing once completed or on an empty grid;
        otherwise a full match sets the flag and fires the success side
        effects once. */
    method CompletionEffect()
      requires Shaped()
      modifies this
      ensures puzzle == old(puzzle) && index == old(index) && grid == old(grid)
      ensures selected == old(selected) && direction == old(direction)
      ensures completed == (old(completed) || Solved())
      ensures solvedEvents == old(solvedEvents) + (if completed && !old(completed) then 1 else 0)
      ensures eventsBefore == old(eventsBefore)
    {
      if completed || |grid| == 0 {
        return;
      }
      var isCorrect := CompletionScan(puzzle, grid);
      if isCorrect {
        completed := true;
        solvedEvents := solvedEvents + 1;
      }
    }

    /** `fetchCrossword` as written, first half: the resets before the request
        is awaited. Clearing `isCompleted` re-triggers the completion effect in
        the loading render, still on the puzzle and grid being replaced, so a
        solved grid fires the success effects again. */
    method ResetForFetch()
      requires Valid()
      modifies this
      ensures puzzle == old(puzzle) && index == old(index) && grid == old(grid)
      ensures selected == old(selected) && direction == old(direction)
      ensures completed == Solved()
      ensures solvedEvents == old(solvedEvents) + (if Solved() then 1 else 0)
    {
      completed := false;
      eventsBefore := solvedEvents;
      CompletionEffect();
    }

    /** `fetchCrossword` as written, second half: the fetched puzzle, its index,
        the empty grid and the as-written cursor are installed; the completed
        flag is not cleared again before the completion effect runs. */
    method InstallAsWritten(p: IpuzData)
      requires WellFormed(p)
      modifies this
      ensures puzzle == p && index == BuildIndex(p) && grid == EmptyGrid(p.height, p.width)
      ensures selected == InitialSelectionAsWritten(p, old(selected)) && direction == old(direction)
      ensures completed == (old(completed) || Solved())
      ensures solvedEvents == old(solvedEvents) + (if completed && !old(completed) then 1 else 0)
    {
      puzzle := p;
      index := GenerateFromIpuz(p);
      grid := EmptyGrid(p.height, p.width);
      var first := FindFirst(p, AnyPlayable);
      if first.Some? {
        selected := first;
      }
      CompletionEffect();
    }

    /** A successful `fetchCrossword` as written: a solved puzzle being replaced
        refires the success effects and leaves the new puzzle marked completed,
        whatever its grid holds. */
    method LoadAsWritten(p: IpuzData)
      requires Valid() && WellFormed(p)
      modifies this
      ensures puzzle == p && index == BuildIndex(p) && grid == EmptyGrid(p.height, p.width)
      ensures selected == InitialSelectionAsWritten(p, old(selected)) && direction == old(direction)
      ensures completed == (old(Solved()) || Solved())
      ensures solvedEvents == old(solvedEvents) + (if old(Solved()) || Solved() then 1 else 0)
    {
      ResetForFetch();
      InstallAsWritten(p);
    }

    /** `handleCellClick(r, c)`. */
    method ClickCell(r: nat, c: nat)
      requires Valid() && InBounds(puzzle, r, c)
      modifies this
      ensures puzzle == old(puzzle) && index == old(index) && grid == old(grid)
      ensures completed == old(completed) && solvedEvents == old(solvedEvents)
      ensures Valid()
      ensures CursorState(selected, direction) == Click(puzzle, old(CursorState(selected, direction)), r, c)
    {
      if puzzle.puzzle[r][c] == Block {
        return;
      }
      if selected == Some(Pos(r, c)) {
        direction := Toggle(direction);
      } else {
        selected := Some(Pos(r, c));
      }
    }

    /** `moveCell(dr, dc)`: step to the neighbouring cell when it is on the
        grid and not a block. */
    method MoveCell(dr: int, dc: int)
      requires Valid()
      modifies this
      ensures Valid()
      ensures selected == (if old(selected).Some? && MoveTarget(puzzle, old(selected).value, dr, dc).Some?
                           then MoveTarget(puzzle, old(selected).value, dr, dc) else old(selected))
      ensures puzzle == old(puzzle) && index == old(index) && grid == old(grid) && direction == old(direction)
      ensures completed == old(completed) && solvedEvents == old(solvedEvents)
    {
      if selected.None? {
        return;
      }
      var t := MoveTarget(puzzle, selected.value, dr, dc);
      if t.Some? {
        selected := t;
      }
    }

    /** `moveSelection(step)`. */
    method MoveSelection(step: int)
      requires Valid() && (step == 1 || step == -1)
      modifies this
      ensures Valid()
      ensures old(selected).None? ==> selected == None
      ensures old(selected).Some? ==> Advanced(puzzle, direction, step, old(selected).value, selected)
      ensures puzzle == old(puzzle) && index == old(index) && grid == old(grid) && direction == old(direction)
      ensures completed == old(completed) && solvedEvents == old(solvedEvents)
    {
      if selected.None? {
        return;
      }
      var from := selected.value;
      var next := Advance(puzzle, direction, from, step);
      if next.Some? {
        NextAheadNotNone(puzzle, direction, step, from, next.value);
        selected := next;
      }
    }

    /** What `handleVirtualKey(key)` does to the grid and the cursor. */
    twostate predicate VirtualKeyDone(key: string)
      requires old(Valid())
      reads this
    {
      match old(selected)
      case None => grid == old(grid) && selected == old(selected)
      case Some(q) =>
        if key == "BACKSPACE" then
          if old(grid)[q.r][q.c] != "" then grid == SetEntry(old(grid), q.r, q.c, "") && selected == old(selected)
          else grid == old(grid) && Advanced(old(puzzle), old(direction), -1, q, selected)
        else if key == "TAB" || |key| != 1 then grid == old(grid) && selected == old(selected)
        else grid == SetEntry(old(grid), q.r, q.c, key) && Advanced(old(puzzle), old(direction), 1, q, selected)
    }

    /** `handleVirtualKey(key)`: BACKSPACE clears a filled cell or otherwise
        moves back; TAB does nothing; any other one-character key is written
        into the cell and the cursor moves on. Every grid change is followed
        by the completion effect. */
    method VirtualKey(key: string)
      requires Valid()
      modifies this
      ensures Valid()
      ensures VirtualKeyDone(key)
      ensures puzzle == old(puzzle) && index == old(index) && direction == old(direction)
      ensures completed == (old(completed) || Solved())
      ensures solvedEvents == old(solvedEvents) + (if completed && !old(completed) then 1 else 0)
    {
      if selected.None? {
        return;
      }
      var q := selected.value;
      if key == "BACKSPACE" {
        if grid[q.r][q.c] != "" {
          grid := SetEntry(grid, q.r, q.c, "");
          CompletionEffect();
        } else {
          MoveSelection(-1);
        }
      } else if key == "TAB" {
      } else if |key| == 1 {
        grid := SetEntry(grid, q.r, q.c, key);
        CompletionEffect();
        MoveSelection(1);
      }
    }

    /** `handleKeyDown`: dispatch on the routed action. */
    method KeyDown(key: string)
      requires Valid()
      modifies this
      ensures Valid()
      ensures puzzle == old(puzzle) && index == old(index)
      ensures RouteKey(key, old(direction)).Virtual? ==>
        VirtualKeyDone(RouteKey(key, old(direction)).key) && direction == old(direction)
        && completed == (old(completed) || Solved())
        && solvedEvents == old(solvedEvents) + (if completed && !old(completed) then 1 else 0)
      ensures RouteKey(key, old(direction)).Turn? ==>
        direction == RouteKey(key, old(direction)).d && selected == old(selected) && grid == old(grid)
        && completed == old(completed) && solvedEvents == old(solvedEvents)
      ensures RouteKey(key, old(direction)).Move? ==>
        var a := RouteKey(key, old(direction));
        && selected == (if old(selected).Some? && MoveTarget(puzzle, old(selected).value, a.dr, a.dc).Some?
                        then MoveTarget(puzzle, old(selected).value, a.dr, a.dc) else old(selected))
        && direction == old(direction) && grid == old(grid)
        && completed == old(completed) && solvedEvents == old(solvedEvents)
      ensures RouteKey(key, old(direction)).Ignore? ==>
        selected == old(selected) && direction == old(direction) && grid == old(grid)
        && completed == old(completed) && solvedEvents == old(solvedEvents)
    {
      match RouteKey(key, direction)
      case Virtual(k) =>
        VirtualKey(k);
      case Turn(d) =>
        direction := d;
      case Move(dr, dc) =>
        MoveCell(dr, dc);
      case Ignore =>
    }

    /** `handlePrevClue`: jump to the start of the clue listed before the
        active one, if there is one with a record. */
    method PrevClue()
      requires Valid()
      modifies this
      ensures puzzle == old(puzzle) && index == old(index) && grid == old(grid) && direction == old(direction)
      ensures completed == old(completed) && solvedEvents == old(solvedEvents)
      ensures Valid()
      ensures var m := Clues(index, direction);
        var t := PrevTarget(m, ClueList(puzzle, direction), ActiveClue(m, direction, old(selected)));
        selected == (if t.Some? then t else old(selected))
    {
      var m := Clues(index, direction);
      var active := CurrentClue(m, direction, selected);
      var t := PrevTarget(m, ClueList(puzzle, direction), active);
      NeighbourTargetOk(puzzle, direction, ClueList(puzzle, direction), active);
      assert t == PrevTarget(m, ClueList(puzzle, direction), ActiveClue(m, direction, selected));
      if t.Some? {
        assert CursorOk(puzzle, t);
        selected := t;
      }
    }

    /** `handleNextClue`: jump to the start of the clue listed after the
        active one, if there is one with a record. */
    method NextClue()
      requires Valid()
      modifies this
      ensures puzzle == old(puzzle) && index == old(index) && grid == old(grid) && direction == old(direction)
      ensures completed == old(completed) && solvedEvents == old(solvedEvents)
      ensures Valid()
      ensures var m := Clues(index, direction);
        var t := NextTarget(m, ClueList(puzzle, direction), ActiveClue(m, direction, old(selected)));
        selected == (if t.Some? then t else old(selected))
    {
      var m := Clues(index, direction);
      var active := CurrentClue(m, direction, selected);
      var t := NextTarget(m, ClueList(puzzle, direction), active);
      NeighbourTargetOk(puzzle, direction, ClueList(puzzle, direction), active);
      assert t == NextTarget(m, ClueList(puzzle, direction), ActiveClue(m, direction, selected));
      if t.Some? {
        assert CursorOk(puzzle, t);
        selected := t;
      }
    }

    /** A click on clue `num` of the list for direction `d`. */
    method ClickClue(d: Direction, num: nat)
      requires Valid()
      modifies this
      ensures Valid()
      ensures num in Clues(index, d) ==> selected == Some(StartOfDetail(Clues(index, d)[num])) && direction == d
      ensures num !in Clues(index, d) ==> selected == old(selected) && direction == old(direction)
      ensures puzzle == old(puzzle) && index == old(index) && grid == old(grid)
      ensures completed == old(completed) && solvedEvents == old(solvedEvents)
    {
      var m := Clues(index, d);
      if num in m {
        JumpTargetOk(puzzle, d, num);
        selected := Some(StartOfDetail(m[num]));
        direction := d;
      }
    }

    /** `handleAutocomplete`: the grid becomes a copy of the solution, which
        the completion effect then accepts unless the puzzle has no rows. */
    method Autocomplete()
      requires Valid()
      modifies this
      ensures Valid()
      ensures grid == puzzle.solution
      ensures completed == (old(completed) || puzzle.height > 0)
      ensures solvedEvents == old(solvedEvents) + (if completed && !old(completed) then 1 else 0)
      ensures puzzle == old(puzzle) && index == old(index)
      ensures selected == old(selected) && direction == old(direction)
    {
      grid := puzzle.solution;
      SolutionMatches(puzzle);
      CompletionEffect();
    }

    /** `checkGame`: its verdict is the completion effect's condition, so it
        never approves a non-empty grid the session has not marked complete. */
    method Check() returns (correct: bool)
      requires Valid()
      ensures correct <==> AllPlayableMatch(puzzle, grid)
      ensures correct && puzzle.height > 0 ==> completed
    {
      correct := CheckGame(puzzle, grid);
    }

    /** `isWordCorrect(d, num)` on the session's grid and index; on a solved
        grid of one-letter cells every indexed word is correct. */
    method WordCorrect(d: Direction, num: nat) returns (ok: bool)
      requires Valid()
      ensures ok <==> num in Clues(index, d) && WordMatches(grid, Clues(index, d)[num], d)
      ensures AllPlayableMatch(puzzle, grid) && SingleLetters(puzzle) && num in Clues(index, d) ==> ok
    {
      ok := IsWordCorrect(grid, Clues(index, d), d, num);
      if AllPlayableMatch(puzzle, grid) && SingleLetters(puzzle) && num in Clues(index, d) {
        SolvedWordsCorrect(puzzle, grid, d, num);
      }
    }
  }

  /** Solve a puzzle, then move to another date: as written, the new puzzle's
      empty grid is reported completed and the success effects have fired
      twice, the second time without any entry from the player. */
  method RefireAfterSolvedLoad() returns (s: Session)
    ensures s.Shaped() && s.completed && !s.Solved() && s.solvedEvents == 2
  {
    var p := IpuzData(1, 1, [[Plain]], [["A"]], [], []);
    s := new Session(p);
    assert s.grid[0][0] != p.solution[0][0];
    assert !s.Solved();
    s.Autocomplete();
    s.LoadAsWritten(p);
    assert s.grid[0][0] != p.solution[0][0];
  }

  /** The same steps with the corrected load: the new puzzle starts not
      completed and the success effects have fired once, for the solve. */
  method NoRefireAfterSolvedLoad() returns (s: Session)
    ensures s.Valid() && !s.completed && !s.Solved() && s.solvedEvents == 1
  {
    var p := IpuzData(1, 1, [[Plain]], [["A"]], [], []);
    s := new Session(p);
    assert s.grid[0][0] != p.solution[0][0];
    assert !s.Solved();
    s.Autocomplete();
    s.Load(p);
    assert s.grid[0][0] != p.solution[0][0];
  }
}
