/** The entry grid (`grid` state): created empty on load, written one cell at
    a time, replaced by a copy of the solution on autocomplete, and compared
    with the solution by the completion check, `checkGame` and
    `isWordCorrect`. */
module EntryGrid {
  import opened Ipuz
  import opened ClueIndex

  type Grid = seq<seq<string>>

  /** `initializeGrid`: `height` rows of `width` empty strings. */
  function EmptyGrid(h: nat, w: nat): (g: Grid)
    ensures Rect(g, h, w)
    ensures forall r, c :: 0 <= r < h && 0 <= c < w ==> g[r][c] == ""
  {
    seq(h, _ => seq(w, _ => ""))
  }

  /** The grid with cell (r, c) set to `v`; no other cell changes. */
  function SetEntry(g: Grid, r: nat, c: nat, v: string): (g': Grid)
    requires r < |g| && c < |g[r]|
    ensures |g'| == |g| && forall i :: 0 <= i < |g| ==> |g'[i]| == |g[i]|
    ensures g'[r][c] == v
    ensures forall i, j :: 0 <= i < |g| && 0 <= j < |g[i]| && (i != r || j != c) ==> g'[i][j] == g[i][j]
  {
    g[r := g[r][c := v]]
  }

  /** Every non-block cell holds its solution string. */
  ghost predicate AllPlayableMatch(p: IpuzData, g: Grid)
    requires WellFormed(p) && Rect(g, p.height, p.width)
  {
    forall r, c :: 0 <= r < p.height && 0 <= c < p.width && p.puzzle[r][c] != Block
      ==> g[r][c] == p.solution[r][c]
  }

  /** The nested loop of the completion effect, leaving both loops at the
      first mismatch. */
  method CompletionScan(p: IpuzData, g: Grid) returns (isCorrect: bool)
    requires WellFormed(p) && Rect(g, p.height, p.width) && |g| > 0
    ensures isCorrect <==> AllPlayableMatch(p, g)
  {
    isCorrect := true;
    for r := 0 to |g|
      invariant isCorrect
      invariant forall i, j ::
                  (0 <= i < r && 0 <= j < p.width && p.puzzle[i][j] != Block) ==> g[i][j] == p.solution[i][j]
    {
      for c := 0 to |g[0]|
        invariant isCorrect
        invariant forall j :: 0 <= j < c && p.puzzle[r][j] != Block ==> g[r][j] == p.solution[r][j]
      {
        if p.puzzle[r][c] != Block {
          if g[r][c] != p.solution[r][c] {
            isCorrect := false;
            break;
          }
        }
      }
      if !isCorrect {
        break;
      }
    }
  }

  /** `checkGame`: the same comparison without leaving early; its result picks
      the success or the error alert. */
  method CheckGame(p: IpuzData, g: Grid) returns (correct: bool)
    requires WellFormed(p) && Rect(g, p.height, p.width)
    ensures correct <==> AllPlayableMatch(p, g)
  {
    correct := true;
    for r := 0 to |g|
      invariant correct <==> forall i, j ::
                               (0 <= i < r && 0 <= j < p.width && p.puzzle[i][j] != Block) ==> g[i][j] == p.solution[i][j]
    {
      for c := 0 to |g[0]|
        invariant correct <==>
          (forall i, j :: 0 <= i < r && 0 <= j < p.width && p.puzzle[i][j] != Block ==> g[i][j] == p.solution[i][j])
          && (forall j :: 0 <= j < c && p.puzzle[r][j] != Block ==> g[r][j] == p.solution[r][j])
      {
        if p.puzzle[r][c] != Block {
          if g[r][c] != p.solution[r][c] {
            correct := false;
          }
        }
      }
    }
  }

  /** `grid[r]?.[c]`: the entry, or None off the grid. */
  function EntryAt(g: Grid, q: Pos): Option<string>
  {
    if q.r < |g| && q.c < |g[q.r]| then Some(g[q.r][q.c]) else None
  }

  /** Each cell of the record's span holds the matching answer character. */
  ghost predicate WordMatches(g: Grid, x: ClueDetail, d: Direction)
  {
    forall i :: 0 <= i < |x.answer| ==> EntryAt(g, Step(d, StartOfDetail(x), i)) == Some([x.answer[i]])
  }

  /** `isWordCorrect(direction, num)`: false without a record, otherwise true
      iff every span cell holds the corresponding answer letter. */
  method IsWordCorrect(g: Grid, m: map<nat, ClueDetail>, d: Direction, num: nat) returns (ok: bool)
    ensures ok <==> num in m && WordMatches(g, m[num], d)
  {
    if num !in m {
      return false;
    }
    var x := m[num];
    for i := 0 to |x.answer|
      invariant forall k :: 0 <= k < i ==> EntryAt(g, Step(d, StartOfDetail(x), k)) == Some([x.answer[k]])
    {
      var r, c := x.row, x.col;
      if d == Across {
        c := c + i;
      } else {
        r := r + i;
      }
      assert Pos(r, c) == Step(d, StartOfDetail(x), i);
      if EntryAt(g, Pos(r, c)) != Some([x.answer[i]]) {
        return false;
      }
    }
    return true;
  }

  /** A solved grid makes every word of the built index correct, when every
      playable solution cell is one letter. */
  lemma SolvedWordsCorrect(p: IpuzData, g: Grid, d: Direction, num: nat)
    requires WellFormed(p) && Rect(g, p.height, p.width)
    requires AllPlayableMatch(p, g) && SingleLetters(p)
    requires num in Clues(BuildIndex(p), d)
    ensures WordMatches(g, Clues(BuildIndex(p), d)[num], d)
  {
    var x := Clues(BuildIndex(p), d)[num];
    var q := StartOfDetail(x);
    DescriptorFacts(p, d, num);
    BuildDirRecord(p, d, ClueList(p, d), num);
    assert Clues(BuildIndex(p), d) == BuildDir(p, d, ClueList(p, d));
    assert x.answer == RunAnswer(p, d, q);
    RunSpec(p, d, q);
    forall i | 0 <= i < |x.answer|
      ensures EntryAt(g, Step(d, q, i)) == Some([x.answer[i]])
    {
      var s := Step(d, q, i);
      assert Playable(p, s.r, s.c);
      var sol := p.solution[s.r][s.c];
      assert |sol| == 1;
      assert sol == [sol[0]];
    }
  }

  /** After autocomplete the grid is the solution, which matches itself. */
  lemma SolutionMatches(p: IpuzData)
    requires WellFormed(p)
    ensures AllPlayableMatch(p, p.solution)
  {
  }

  /** A freshly loaded grid is solved only when every playable solution cell
      is the empty string. */
  lemma EmptyGridMatchesIff(p: IpuzData)
    requires WellFormed(p)
    ensures AllPlayableMatch(p, EmptyGrid(p.height, p.width)) <==>
      forall r, c :: 0 <= r < p.height && 0 <= c < p.width && p.puzzle[r][c] != Block ==> p.solution[r][c] == ""
  {
  }
}
