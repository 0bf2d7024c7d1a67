/** The cursor (`selectedCell`) and direction state machine: cell clicks,
    arrow moves, the wrapping advance after typing or deleting, the active
    clue and its highlight, and moves between clues. */
module Cursor {
  import opened Ipuz
  import opened ClueIndex

  datatype CursorState = CursorState(selected: Option<Pos>, direction: Direction)

  function Toggle(d: Direction): Direction
  {
    if d == Across then Down else Across
  }

  /** The cursor invariant: a selected cell is on the grid and not a block,
      and the cursor is unset only when the puzzle has no playable cell. */
  ghost predicate CursorOk(p: IpuzData, sel: Option<Pos>)
    requires WellFormed(p)
  {
    match sel
    case None => AllBlocks(p)
    case Some(q) => Playable(p, q.r, q.c)
  }

  // ---------------------------------------------------------------------
  // Loading: the first playable cell

  /** The cursor `initializeGrid` leaves, as written: the first playable cell
      in row-major order, or, when there is none, whatever was selected
      before the load. */
  function InitialSelectionAsWritten(p: IpuzData, previous: Option<Pos>): (sel: Option<Pos>)
    requires WellFormed(p)
    ensures sel != previous ==> sel.Some? && Playable(p, sel.value.r, sel.value.c)
    ensures !AllBlocks(p) ==> sel.Some? && Playable(p, sel.value.r, sel.value.c)
  {
    FirstSpec(p, AnyPlayable);
    match First(p, AnyPlayable)
    case Some(q) => Some(q)
    case None => previous
  }

  /** A grid of one block, loaded while (0, 0) of an earlier puzzle was
      selected, keeps that cell selected although it is a block here. */
  lemma StaleSelectionAfterLoad()
    ensures var p := IpuzData(1, 1, [[Block]], [["#"]], [], []);
      !CursorOk(p, InitialSelectionAsWritten(p, Some(Pos(0, 0))))
  {
    var p := IpuzData(1, 1, [[Block]], [["#"]], [], []);
    assert FirstFrom(p, AnyPlayable, 0, 1) == None;
  }

  /** The corrected first cursor: the first playable cell, or unset. */
  function InitialSelection(p: IpuzData): (sel: Option<Pos>)
    requires WellFormed(p)
    ensures sel.None? <==> AllBlocks(p)
    ensures sel.Some? ==> Playable(p, sel.value.r, sel.value.c)
  {
    FirstSpec(p, AnyPlayable);
    First(p, AnyPlayable)
  }

  /** The corrected load always establishes the cursor invariant, and picks the
      row-major-first playable cell. */
  lemma InitialSelectionOk(p: IpuzData)
    requires WellFormed(p)
    ensures CursorOk(p, InitialSelection(p))
    ensures InitialSelection(p).Some? ==>
      forall i: nat, j: nat :: i < p.height && j < p.width && RowMajorBefore(Pos(i, j), InitialSelection(p).value)
        ==> p.puzzle[i][j] == Block
  {
    FirstSpec(p, AnyPlayable);
  }

  // ---------------------------------------------------------------------
  // handleCellClick

  /** `handleCellClick(r, c)`: at most one of cursor and direction
      changes. */
  function Click(p: IpuzData, cur: CursorState, r: nat, c: nat): (res: CursorState)
    requires WellFormed(p) && InBounds(p, r, c)
    ensures res.selected == cur.selected || res.direction == cur.direction
    ensures res.selected != cur.selected ==> res.selected == Some(Pos(r, c)) && p.puzzle[r][c] != Block
  {
    if p.puzzle[r][c] == Block then cur
    else if cur.selected == Some(Pos(r, c)) then CursorState(cur.selected, Toggle(cur.direction))
    else CursorState(Some(Pos(r, c)), cur.direction)
  }

  /** Clicking a block changes nothing; clicking the selected cell toggles the
      direction in place, so a second click restores the state; clicking
      another playable cell moves there and keeps the direction. The cursor
      invariant is preserved. */
  lemma ClickSpec(p: IpuzData, cur: CursorState, r: nat, c: nat)
    requires WellFormed(p) && InBounds(p, r, c)
    ensures p.puzzle[r][c] == Block ==> Click(p, cur, r, c) == cur
    ensures p.puzzle[r][c] != Block ==> Click(p, cur, r, c).selected == Some(Pos(r, c))
    ensures p.puzzle[r][c] != Block && cur.selected == Some(Pos(r, c)) ==>
      Click(p, cur, r, c).direction != cur.direction && Click(p, Click(p, cur, r, c), r, c) == cur
    ensures p.puzzle[r][c] != Block && cur.selected != Some(Pos(r, c)) ==>
      Click(p, cur, r, c).direction == cur.direction
    ensures CursorOk(p, cur.selected) ==> CursorOk(p, Click(p, cur, r, c).selected)
  {
  }

  // ---------------------------------------------------------------------
  // moveCell

  /** The arrow-key target of `moveCell(dr, dc)`, or None when the cursor
      stays put. */
  function MoveTarget(p: IpuzData, q: Pos, dr: int, dc: int): (res: Option<Pos>)
    requires WellFormed(p)
    ensures res.Some? <==> Playable(p, q.r + dr, q.c + dc)
    ensures res.Some? ==> res.value.r == q.r + dr && res.value.c == q.c + dc
  {
    var nr, nc := q.r + dr, q.c + dc;
    if 0 <= nr < p.height && 0 <= nc < p.width && p.puzzle[nr][nc] != Block then Some(Pos(nr, nc))
    else None
  }

  // ---------------------------------------------------------------------
  // moveSelection

  /** Strict scan order: row-major when typing across, column-major when
      typing down. */
  predicate Precedes(d: Direction, a: Pos, b: Pos)
  {
    if d == Across then a.r < b.r || (a.r == b.r && a.c < b.c)
    else a.c < b.c || (a.c == b.c && a.r < b.r)
  }

  /** `b` lies strictly ahead of `a` when scanning by `step`. */
  predicate Ahead(d: Direction, step: int, a: Pos, b: Pos)
  {
    if step > 0 then Precedes(d, a, b) else Precedes(d, b, a)
  }

  /** Every cell ahead of `from` is a block. */
  ghost predicate NoneAhead(p: IpuzData, d: Direction, step: int, from: Pos)
    requires WellFormed(p)
  {
    forall i: nat, j: nat :: i < p.height && j < p.width && Ahead(d, step, from, Pos(i, j))
      ==> p.puzzle[i][j] == Block
  }

  /** `q` is the nearest playable cell ahead of `from`. */
  ghost predicate NextAhead(p: IpuzData, d: Direction, step: int, from: Pos, q: Pos)
    requires WellFormed(p)
  {
    && Playable(p, q.r, q.c) && Ahead(d, step, from, q)
    && forall i: nat, j: nat ::
         (i < p.height && j < p.width && Ahead(d, step, from, Pos(i, j)) && Ahead(d, step, Pos(i, j), q))
         ==> p.puzzle[i][j] == Block
  }

  /** At most one cell is the nearest playable cell ahead. */
  lemma NextAheadUnique(p: IpuzData, d: Direction, step: int, from: Pos, q1: Pos, q2: Pos)
    requires WellFormed(p)
    requires NextAhead(p, d, step, from, q1) && NextAhead(p, d, step, from, q2)
    ensures q1 == q2
  {
  }

  /** Position of a cell in the scan order (row-major or column-major). */
  function ScanIndex(p: IpuzData, d: Direction, r: int, c: int): int
  {
    if d == Across then r * p.width + c else c * p.height + r
  }

  lemma MulLe(a: nat, b: nat, k: nat)
    requires a <= b
    ensures a * k <= b * k
  {
  }

  lemma MulSucc(a: int, k: int)
    ensures (a + 1) * k == a * k + k
  {
  }

  lemma ScanIndexBound(p: IpuzData, d: Direction, r: int, c: int)
    requires InBounds(p, r, c)
    ensures 0 <= ScanIndex(p, d, r, c) < p.height * p.width
  {
    if d == Across {
      MulLe(r, p.height - 1, p.width);
    } else {
      MulLe(c, p.width - 1, p.height);
    }
  }

  /** The cell one iteration of the `moveSelection` loop body reaches from
      (r, c): one step along the line, wrapping to the start (end) of the
      next (previous) row or column. */
  function ScanStep(p: IpuzData, d: Direction, step: int, r: int, c: int): (res: (int, int))
    requires step == 1 || step == -1
    ensures InBounds(p, r, c) && InBounds(p, res.0, res.1) ==>
      ScanIndex(p, d, res.0, res.1) == ScanIndex(p, d, r, c) + step
  {
    if d == Across then
      var c1 := c + step;
      MulSucc(r - 1, p.width);
      MulSucc(r, p.width);
      if c1 >= p.width then (r + 1, 0) else if c1 < 0 then (r - 1, p.width - 1) else (r, c1)
    else
      var r1 := r + step;
      MulSucc(c - 1, p.height);
      MulSucc(c, p.height);
      if r1 >= p.height then (0, c + 1) else if r1 < 0 then (p.height - 1, c - 1) else (r1, c)
  }

  /** One step reaches the immediate neighbour in scan order, one scan index
      further, or leaves the grid when no cell lies ahead. */
  lemma ScanStepSpec(p: IpuzData, d: Direction, step: int, prev: Pos)
    requires InBounds(p, prev.r, prev.c)
    requires step == 1 || step == -1
    ensures var (r, c) := ScanStep(p, d, step, prev.r, prev.c);
      && (InBounds(p, r, c) ==>
           && Ahead(d, step, prev, Pos(r, c))
           && ScanIndex(p, d, r, c) == ScanIndex(p, d, prev.r, prev.c) + step
           && forall i: nat, j: nat :: (i < p.height && j < p.width && Ahead(d, step, prev, Pos(i, j)))
                ==> Pos(i, j) == Pos(r, c) || Ahead(d, step, Pos(r, c), Pos(i, j)))
      && (!InBounds(p, r, c) ==>
           forall i: nat, j: nat :: i < p.height && j < p.width ==> !Ahead(d, step, prev, Pos(i, j)))
  {
  }

  /** `sel` is where `moveSelection(step)` leaves a cursor at `from`: the
      nearest playable cell ahead, or `from` itself when there is none. */
  ghost predicate Advanced(p: IpuzData, d: Direction, step: int, from: Pos, sel: Option<Pos>)
    requires WellFormed(p)
  {
    if NoneAhead(p, d, step, from) then sel == Some(from)
    else sel.Some? && NextAhead(p, d, step, from, sel.value)
  }

  /** A nearest playable cell ahead rules out that every cell ahead is a
      block. */
  lemma NextAheadNotNone(p: IpuzData, d: Direction, step: int, from: Pos, q: Pos)
    requires WellFormed(p) && NextAhead(p, d, step, from, q)
    ensures !NoneAhead(p, d, step, from)
  {
    assert p.puzzle[q.r][q.c] != Block;
  }

  /** Every cell ahead of `from` and not ahead of `cur` is a block. */
  ghost predicate BlocksUpTo(p: IpuzData, d: Direction, step: int, from: Pos, cur: Pos)
    requires WellFormed(p)
  {
    forall i: nat, j: nat ::
      (i < p.height && j < p.width && Ahead(d, step, from, Pos(i, j)) && !Ahead(d, step, cur, Pos(i, j)))
      ==> p.puzzle[i][j] == Block
  }

  /** Scanning past one more block keeps BlocksUpTo; reaching a playable cell
      makes it the nearest one ahead. */
  lemma BlocksUpToStep(p: IpuzData, d: Direction, step: int, from: Pos, prev: Pos, cur: Pos)
    requires WellFormed(p) && InBounds(p, cur.r, cur.c)
    requires BlocksUpTo(p, d, step, from, prev)
    requires prev == from || Ahead(d, step, from, prev)
    requires Ahead(d, step, prev, cur)
    requires forall i: nat, j: nat ::
               (i < p.height && j < p.width && Ahead(d, step, prev, Pos(i, j)))
               ==> Pos(i, j) == cur || Ahead(d, step, cur, Pos(i, j))
    ensures Ahead(d, step, from, cur)
    ensures p.puzzle[cur.r][cur.c] == Block ==> BlocksUpTo(p, d, step, from, cur)
    ensures p.puzzle[cur.r][cur.c] != Block ==> NextAhead(p, d, step, from, cur)
  {
  }

  /** `moveSelection(step)`: at most height*width attempts, each moving one
      cell in scan order and wrapping to the next (previous) row or column;
      a block is skipped, leaving the grid stops the scan. The result is the
      nearest playable cell ahead, or None (cursor unchanged) when every cell
      ahead is a block. */
  method Advance(p: IpuzData, d: Direction, from: Pos, step: int) returns (next: Option<Pos>)
    requires WellFormed(p) && InBounds(p, from.r, from.c)
    requires step == 1 || step == -1
    ensures next.Some? ==> NextAhead(p, d, step, from, next.value)
    ensures next.None? ==> NoneAhead(p, d, step, from)
  {
    var r: int, c: int := from.r, from.c;
    var attempts := 0;
    ScanIndexBound(p, d, from.r, from.c);
    next := None;
    while attempts < p.height * p.width
      invariant InBounds(p, r, c)
      invariant ScanIndex(p, d, r, c) == ScanIndex(p, d, from.r, from.c) + (if step == 1 then attempts else -attempts)
      invariant 0 <= ScanIndex(p, d, r, c) < p.height * p.width
      invariant Pos(r, c) == from || Ahead(d, step, from, Pos(r, c))
      invariant BlocksUpTo(p, d, step, from, Pos(r, c))
      invariant next == None
    {
      ghost var prev := Pos(r, c);
      if d == Across {
        c := c + step;
        if c >= p.width {
          c := 0;
          r := r + 1;
        }
        if c < 0 {
          c := p.width - 1;
          r := r - 1;
        }
      } else {
        r := r + step;
        if r >= p.height {
          r := 0;
          c := c + 1;
        }
        if r < 0 {
          r := p.height - 1;
          c := c - 1;
        }
      }
      assert (r, c) == ScanStep(p, d, step, prev.r, prev.c);
      ScanStepSpec(p, d, step, prev);
      if InBounds(p, r, c) {
        BlocksUpToStep(p, d, step, from, prev, Pos(r, c));
        if p.puzzle[r][c] != Block {
          next := Some(Pos(r, c));
          return;
        }
        ScanIndexBound(p, d, r, c);
      } else {
        break;
      }
      attempts := attempts + 1;
    }
  }

  // ---------------------------------------------------------------------
  // getCurrentClue and isHighlighted

  /** The cell `q` lies in the span of record `x` in direction `d`; the span
      length is the length of the answer string. */
  predicate Covers(x: ClueDetail, d: Direction, q: Pos)
  {
    if d == Across then x.row == q.r && x.col <= q.c < x.col + |x.answer|
    else x.col == q.c && x.row <= q.r < x.row + |x.answer|
  }

  /** `k` is the least element of `s`. */
  predicate IsLeast(k: nat, s: set<nat>)
  {
    k in s && forall j :: j in s ==> k <= j
  }

  lemma {:induction false} HasMin(s: set<nat>)
    requires s != {}
    ensures exists k :: IsLeast(k, s)
    decreases |s|
  {
    var x :| x in s;
    if s == {x} {
      assert IsLeast(x, s);
    } else {
      var rest := s - {x};
      HasMin(rest);
      var k :| IsLeast(k, rest);
      assert forall j :: j in s ==> j == x || j in rest;
      var least := if x < k then x else k;
      assert IsLeast(least, s);
    }
  }

  function MinOf(s: set<nat>): (k: nat)
    requires s != {}
    ensures IsLeast(k, s)
  {
    HasMin(s);
    var k :| IsLeast(k, s); k
  }

  /** The keys of a clue record in the order `Object.entries` yields them:
      integer keys ascending. */
  function SortedKeys(s: set<nat>): (ks: seq<nat>)
    ensures forall k :: k in ks <==> k in s
    ensures forall i, j :: 0 <= i < j < |ks| ==> ks[i] < ks[j]
    decreases |s|
  {
    if s == {} then []
    else
      var k := MinOf(s);
      [k] + SortedKeys(s - {k})
  }

  /** The `for ... of Object.entries(clues)` loop with early return. */
  function FirstCovering(m: map<nat, ClueDetail>, ks: seq<nat>, d: Direction, q: Pos): (res: Option<nat>)
    ensures res.Some? ==> res.value in ks && res.value in m && Covers(m[res.value], d, q)
    ensures res.None? ==> forall k :: k in ks && k in m ==> !Covers(m[k], d, q)
  {
    if ks == [] then None
    else if ks[0] in m && Covers(m[ks[0]], d, q) then Some(ks[0])
    else FirstCovering(m, ks[1..], d, q)
  }

  lemma {:induction false} FirstCoveringSpec(m: map<nat, ClueDetail>, ks: seq<nat>, d: Direction, q: Pos)
    requires forall i, j :: 0 <= i < j < |ks| ==> ks[i] < ks[j]
    ensures FirstCovering(m, ks, d, q).Some? ==>
      var n := FirstCovering(m, ks, d, q).value;
      n in ks && n in m && Covers(m[n], d, q)
      && forall k :: k in ks && k in m && Covers(m[k], d, q) ==> n <= k
    ensures FirstCovering(m, ks, d, q).None? ==> forall k :: k in ks && k in m ==> !Covers(m[k], d, q)
  {
    if ks != [] {
      FirstCoveringSpec(m, ks[1..], d, q);
      assert forall k :: k in ks ==> k == ks[0] || k in ks[1..];
      assert forall k :: k in ks[1..] ==> ks[0] < k;
    }
  }

  /** `getCurrentClue`: the number of the clue (smallest number first) whose
      span contains the cursor in the current direction, or None when the
      cursor is unset or no span contains it. */
  function ActiveClue(m: map<nat, ClueDetail>, d: Direction, sel: Option<Pos>): (res: Option<nat>)
    ensures res.Some? ==>
      && sel.Some? && res.value in m && Covers(m[res.value], d, sel.value)
      && forall k :: k in m && Covers(m[k], d, sel.value) ==> res.value <= k
    ensures res.None? <==> sel.None? || forall k :: k in m ==> !Covers(m[k], d, sel.value)
  {
    if sel.None? then None
    else
      var ks := SortedKeys(m.Keys);
      FirstCoveringSpec(m, ks, d, sel.value);
      FirstCovering(m, ks, d, sel.value)
  }

  /** The `for ... of` loop of `getCurrentClue` over the keys `ks` of the
      record: the first key whose span contains `q`. */
  method ScanClues(m: map<nat, ClueDetail>, ks: seq<nat>, d: Direction, q: Pos) returns (res: Option<nat>)
    requires forall k :: k in ks ==> k in m
    ensures res == FirstCovering(m, ks, d, q)
  {
    for i := 0 to |ks|
      invariant FirstCovering(m, ks[i..], d, q) == FirstCovering(m, ks, d, q)
    {
      assert ks[i..][1..] == ks[i + 1..];
      var num := ks[i];
      var x := m[num];
      var len := |x.answer|;
      if d == Across {
        if x.row == q.r && q.c >= x.col && q.c < x.col + len {
          return Some(num);
        }
      } else {
        if x.col == q.c && q.r >= x.row && q.r < x.row + len {
          return Some(num);
        }
      }
    }
    assert ks[|ks|..] == [];
    return None;
  }

  /** `getCurrentClue`: no clue without a cursor, otherwise the scan over the
      record's keys in `Object.entries` order. */
  method CurrentClue(m: map<nat, ClueDetail>, d: Direction, sel: Option<Pos>) returns (res: Option<nat>)
    ensures res == ActiveClue(m, d, sel)
  {
    if sel.None? {
      return None;
    }
    var ks := SortedKeys(m.Keys);
    res := ScanClues(m, ks, d, sel.value);
  }

  /** `isHighlighted(r, c)`. */
  function Highlighted(m: map<nat, ClueDetail>, d: Direction, sel: Option<Pos>, r: nat, c: nat): (h: bool)
    ensures h ==> sel.Some? && ActiveClue(m, d, sel).Some?
    ensures h ==> if d == Across then r == sel.value.r else c == sel.value.c
  {
    match ActiveClue(m, d, sel)
    case None => false
    case Some(n) => Covers(m[n], d, Pos(r, c))
  }

  /** The highlighted cells are exactly the cells of the active clue's span,
      and the selected cell is one of them whenever a clue is active. */
  lemma HighlightSpec(m: map<nat, ClueDetail>, d: Direction, sel: Option<Pos>, r: nat, c: nat)
    ensures Highlighted(m, d, sel, r, c) <==>
      ActiveClue(m, d, sel).Some?
      && var x := m[ActiveClue(m, d, sel).value];
         exists i :: 0 <= i < |x.answer| && Step(d, StartOfDetail(x), i) == Pos(r, c)
    ensures ActiveClue(m, d, sel).Some? ==> Highlighted(m, d, sel, sel.value.r, sel.value.c)
  {
    if ActiveClue(m, d, sel).Some? {
      var x := m[ActiveClue(m, d, sel).value];
      if Covers(x, d, Pos(r, c)) {
        var i := if d == Across then c - x.col else r - x.row;
        assert Step(d, StartOfDetail(x), i) == Pos(r, c);
      }
    }
  }

  // ---------------------------------------------------------------------
  // handlePrevClue / handleNextClue and the clue-list clicks

  function FindIndexFrom(clues: seq<ClueEntry>, num: nat, k: nat): (i: int)
    requires k <= |clues|
    ensures i == -1 || k <= i < |clues|
    ensures i >= 0 ==> clues[i].number == num && forall j :: k <= j < i ==> clues[j].number != num
    ensures i == -1 ==> forall j :: k <= j < |clues| ==> clues[j].number != num
    decreases |clues| - k
  {
    if k == |clues| then -1
    else if clues[k].number == num then k
    else FindIndexFrom(clues, num, k + 1)
  }

  /** `clues.findIndex(([n]) => String(n) === number)`. */
  function FindIndex(clues: seq<ClueEntry>, num: nat): int
  {
    FindIndexFrom(clues, num, 0)
  }

  /** The start of the record for `num`, when it has one. */
  function JumpTarget(m: map<nat, ClueDetail>, num: nat): (res: Option<Pos>)
  {
    if num in m then Some(StartOfDetail(m[num])) else None
  }

  /** `handlePrevClue`: the start of the clue listed just before the active
      one, or None. */
  function PrevTarget(m: map<nat, ClueDetail>, clues: seq<ClueEntry>, active: Option<nat>): (t: Option<Pos>)
    ensures t.Some? ==>
      && active.Some? && 0 < FindIndex(clues, active.value)
      && var n := clues[FindIndex(clues, active.value) - 1].number;
         n in m && t.value == StartOfDetail(m[n])
  {
    if active.None? then None
    else
      var i := FindIndex(clues, active.value);
      if i > 0 then JumpTarget(m, clues[i - 1].number) else None
  }

  /** `handleNextClue`: the start of the clue listed just after the active
      one, or None. */
  function NextTarget(m: map<nat, ClueDetail>, clues: seq<ClueEntry>, active: Option<nat>): (t: Option<Pos>)
    ensures t.Some? ==>
      && active.Some? && FindIndex(clues, active.value) < |clues| - 1
      && var n := clues[FindIndex(clues, active.value) + 1].number;
         n in m && t.value == StartOfDetail(m[n])
  {
    if active.None? then None
    else
      var i := FindIndex(clues, active.value);
      if i < |clues| - 1 then JumpTarget(m, clues[i + 1].number) else None
  }

  /** Moving between clues goes to the neighbour in list order of the first
      list entry carrying the active number, and never wraps. */
  lemma NeighbourSpec(m: map<nat, ClueDetail>, clues: seq<ClueEntry>, n: nat)
    requires exists j :: 0 <= j < |clues| && clues[j].number == n
    ensures var i := FindIndex(clues, n);
      && 0 <= i < |clues| && clues[i].number == n
      && (forall j :: 0 <= j < i ==> clues[j].number != n)
      && PrevTarget(m, clues, Some(n)) == (if i == 0 then None else JumpTarget(m, clues[i - 1].number))
      && NextTarget(m, clues, Some(n)) == (if i == |clues| - 1 then None else JumpTarget(m, clues[i + 1].number))
    ensures clues[0].number == n ==> PrevTarget(m, clues, Some(n)) == None
    ensures clues[|clues| - 1].number == n && (forall j :: 0 <= j < |clues| - 1 ==> clues[j].number != n)
      ==> NextTarget(m, clues, Some(n)) == None
  {
    var j :| 0 <= j < |clues| && clues[j].number == n;
    assert FindIndex(clues, n) != -1;
  }

  /** Moving to the previous or next clue of the built index lands on a
      playable cell. */
  lemma NeighbourTargetOk(p: IpuzData, d: Direction, clues: seq<ClueEntry>, active: Option<nat>)
    requires WellFormed(p)
    ensures PrevTarget(Clues(BuildIndex(p), d), clues, active).Some? ==>
      var q := PrevTarget(Clues(BuildIndex(p), d), clues, active).value;
      Playable(p, q.r, q.c)
    ensures NextTarget(Clues(BuildIndex(p), d), clues, active).Some? ==>
      var q := NextTarget(Clues(BuildIndex(p), d), clues, active).value;
      Playable(p, q.r, q.c)
  {
    if active.Some? {
      var i := FindIndex(clues, active.value);
      if i > 0 {
        JumpTargetOk(p, d, clues[i - 1].number);
      }
      if i < |clues| - 1 {
        JumpTargetOk(p, d, clues[i + 1].number);
      }
    }
  }

  /** Every jump into a record of the built index lands on a playable cell. */
  lemma JumpTargetOk(p: IpuzData, d: Direction, num: nat)
    requires WellFormed(p)
    ensures JumpTarget(Clues(BuildIndex(p), d), num).Some? ==>
      var q := JumpTarget(Clues(BuildIndex(p), d), num).value;
      Playable(p, q.r, q.c) && p.puzzle[q.r][q.c] == Numbered(num)
  {
    if num in Clues(BuildIndex(p), d) {
      DescriptorFacts(p, d, num);
    }
  }
}
