/** The puzzle as the game receives it: an ipuz-style grid of blocks and
    numbered or plain cells, a solution grid of the same shape, and the two
    ordered clue lists. Also the row-major search used both to locate a clue
    number and to find the first playable cell. */
module Ipuz {

  datatype Option<T> = None | Some(value: T)

  /** A puzzle cell: the "#" block, a cell carrying a number, or any other
      (playable) value. */
  datatype Cell = Block | Numbered(n: nat) | Plain

  datatype Direction = Across | Down

  datatype Pos = Pos(r: nat, c: nat)

  datatype ClueEntry = ClueEntry(number: nat, text: string)

  datatype IpuzData = IpuzData(
    height: nat,
    width: nat,
    puzzle: seq<seq<Cell>>,
    solution: seq<seq<string>>,
    across: seq<ClueEntry>,
    down: seq<ClueEntry>)

  /** `g` has exactly `h` rows of exactly `w` entries. */
  predicate Rect<T>(g: seq<seq<T>>, h: nat, w: nat)
  {
    |g| == h && forall r :: 0 <= r < h ==> |g[r]| == w
  }

  /** Puzzle and solution both match the declared dimensions. */
  predicate WellFormed(p: IpuzData)
  {
    Rect(p.puzzle, p.height, p.width) && Rect(p.solution, p.height, p.width)
  }

  predicate InBounds(p: IpuzData, r: int, c: int)
  {
    0 <= r < p.height && 0 <= c < p.width
  }

  /** In bounds and not a "#" block. */
  predicate Playable(p: IpuzData, r: int, c: int)
    requires WellFormed(p)
  {
    InBounds(p, r, c) && p.puzzle[r][c] != Block
  }

  /** Every playable solution cell holds exactly one character. */
  ghost predicate SingleLetters(p: IpuzData)
    requires WellFormed(p)
  {
    forall r, c :: Playable(p, r, c) ==> |p.solution[r][c]| == 1
  }

  /** There is no playable cell at all. */
  ghost predicate AllBlocks(p: IpuzData)
    requires WellFormed(p)
  {
    forall r, c :: InBounds(p, r, c) ==> p.puzzle[r][c] == Block
  }

  /** What a row-major search looks for: the cell carrying a given number
      (`findNumber`) or any cell that is not a block (`initializeGrid`). */
  datatype Target = StartOf(n: nat) | AnyPlayable

  predicate Hits(x: Cell, t: Target)
  {
    match t
    case StartOf(n) => x == Numbered(n)
    case AnyPlayable => x != Block
  }

  /** Strict row-major order on positions. */
  predicate RowMajorBefore(a: Pos, b: Pos)
  {
    a.r < b.r || (a.r == b.r && a.c < b.c)
  }

  /** The first cell at or after (r, c), in row-major order, that hits `t`. */
  function FirstFrom(p: IpuzData, t: Target, r: nat, c: nat): Option<Pos>
    requires WellFormed(p)
    decreases p.height - r, p.width - c
  {
    if r >= p.height then None
    else if c >= p.width then FirstFrom(p, t, r + 1, 0)
    else if Hits(p.puzzle[r][c], t) then Some(Pos(r, c))
    else FirstFrom(p, t, r, c + 1)
  }

  function First(p: IpuzData, t: Target): Option<Pos>
    requires WellFormed(p)
  {
    FirstFrom(p, t, 0, 0)
  }

  /** What FirstFrom finds: a hit not before (r, c) with no hit between, or
      no hit at all from (r, c) on. */
  lemma {:induction false} FirstFromSpec(p: IpuzData, t: Target, r: nat, c: nat)
    requires WellFormed(p)
    ensures FirstFrom(p, t, r, c).Some? ==>
      var q := FirstFrom(p, t, r, c).value;
      && InBounds(p, q.r, q.c) && Hits(p.puzzle[q.r][q.c], t)
      && !RowMajorBefore(q, Pos(r, c))
      && forall i: nat, j: nat ::
           (i < p.height && j < p.width && !RowMajorBefore(Pos(i, j), Pos(r, c)) && RowMajorBefore(Pos(i, j), q))
           ==> !Hits(p.puzzle[i][j], t)
    ensures FirstFrom(p, t, r, c).None? ==>
      forall i: nat, j: nat :: i < p.height && j < p.width && !RowMajorBefore(Pos(i, j), Pos(r, c))
        ==> !Hits(p.puzzle[i][j], t)
    decreases p.height - r, p.width - c
  {
    if r >= p.height {
    } else if c >= p.width {
      FirstFromSpec(p, t, r + 1, 0);
    } else if Hits(p.puzzle[r][c], t) {
    } else {
      FirstFromSpec(p, t, r, c + 1);
    }
  }

  /** `First` is the row-major-first cell that hits `t`, and it is absent
      exactly when no cell hits `t`. */
  lemma FirstSpec(p: IpuzData, t: Target)
    requires WellFormed(p)
    ensures First(p, t).Some? ==>
      var q := First(p, t).value;
      && InBounds(p, q.r, q.c) && Hits(p.puzzle[q.r][q.c], t)
      && forall i: nat, j: nat ::
           (i < p.height && j < p.width && RowMajorBefore(Pos(i, j), q)) ==> !Hits(p.puzzle[i][j], t)
    ensures First(p, t).None? <==>
      forall i: nat, j: nat :: i < p.height && j < p.width ==> !Hits(p.puzzle[i][j], t)
  {
    FirstFromSpec(p, t, 0, 0);
  }

  /** The nested `for r` / `for c` search with early return shared by
      `findNumber` and the first-playable-cell search of `initializeGrid`. */
  method FindFirst(p: IpuzData, t: Target) returns (res: Option<Pos>)
    requires WellFormed(p)
    ensures res == First(p, t)
  {
    for r := 0 to p.height
      invariant FirstFrom(p, t, r, 0) == First(p, t)
    {
      for c := 0 to p.width
        invariant FirstFrom(p, t, r, c) == First(p, t)
      {
        if Hits(p.puzzle[r][c], t) {
          return Some(Pos(r, c));
        }
      }
    }
    return None;
  }
}
