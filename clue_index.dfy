/** The clue index (`fromIpuz`) that the game synthesises when the payload
    carries none: for every clue of each list, the first cell carrying its
    number and the solution letters of the run that starts there. */
module ClueIndex {
  import opened Ipuz

  /** One `fromIpuz` record: clue text, answer, start row and column. */
  datatype ClueDetail = ClueDetail(clue: string, answer: string, row: nat, col: nat)

  /** The two records, keyed by clue number. */
  datatype Index = Index(across: map<nat, ClueDetail>, down: map<nat, ClueDetail>)

  function Clues(idx: Index, d: Direction): map<nat, ClueDetail>
  {
    if d == Across then idx.across else idx.down
  }

  function ClueList(p: IpuzData, d: Direction): seq<ClueEntry>
  {
    if d == Across then p.across else p.down
  }

  /** The cell `i` steps from `q` in direction `d`. */
  function Step(d: Direction, q: Pos, i: nat): Pos
  {
    if d == Across then Pos(q.r, q.c + i) else Pos(q.r + i, q.c)
  }

  function StartOfDetail(x: ClueDetail): Pos
  {
    Pos(x.row, x.col)
  }

  /** Number of consecutive playable cells from `q` on in direction `d`. */
  function RunLength(p: IpuzData, d: Direction, q: Pos): nat
    requires WellFormed(p)
    decreases if d == Across then p.width - q.c else p.height - q.r
  {
    if Playable(p, q.r, q.c) then 1 + RunLength(p, d, Step(d, q, 1)) else 0
  }

  /** The solution strings of that run, concatenated. */
  function RunAnswer(p: IpuzData, d: Direction, q: Pos): (a: string)
    requires WellFormed(p)
    ensures !Playable(p, q.r, q.c) ==> a == ""
    ensures SingleLetters(p) ==> |a| == RunLength(p, d, q)
    decreases if d == Across then p.width - q.c else p.height - q.r
  {
    if Playable(p, q.r, q.c) then p.solution[q.r][q.c] + RunAnswer(p, d, Step(d, q, 1)) else ""
  }

  /** The run is maximal: its cells are playable and the cell just past it is
      a block or off the grid. With one letter per solution cell, the answer
      is exactly the run's letters in order. */
  lemma RunSpec(p: IpuzData, d: Direction, q: Pos)
    requires WellFormed(p)
    ensures forall i :: 0 <= i < RunLength(p, d, q) ==> Playable(p, Step(d, q, i).r, Step(d, q, i).c)
    ensures !Playable(p, Step(d, q, RunLength(p, d, q)).r, Step(d, q, RunLength(p, d, q)).c)
    ensures Playable(p, q.r, q.c) <==> RunLength(p, d, q) >= 1
    ensures SingleLetters(p) ==>
      && |RunAnswer(p, d, q)| == RunLength(p, d, q)
      && forall i :: 0 <= i < RunLength(p, d, q) ==>
           RunAnswer(p, d, q)[i] == p.solution[Step(d, q, i).r][Step(d, q, i).c][0]
  {
    RunCells(p, d, q);
    if SingleLetters(p) {
      RunLetters(p, d, q);
    }
  }

  lemma {:induction false} RunCells(p: IpuzData, d: Direction, q: Pos)
    requires WellFormed(p)
    ensures forall i :: 0 <= i < RunLength(p, d, q) ==> Playable(p, Step(d, q, i).r, Step(d, q, i).c)
    ensures !Playable(p, Step(d, q, RunLength(p, d, q)).r, Step(d, q, RunLength(p, d, q)).c)
    decreases if d == Across then p.width - q.c else p.height - q.r
  {
    if Playable(p, q.r, q.c) {
      var q' := Step(d, q, 1);
      RunCells(p, d, q');
      assert Step(d, q', RunLength(p, d, q')) == Step(d, q, RunLength(p, d, q));
      forall i | 0 <= i < RunLength(p, d, q)
        ensures Playable(p, Step(d, q, i).r, Step(d, q, i).c)
      {
        if i > 0 { assert Step(d, q, i) == Step(d, q', i - 1); }
      }
    } else {
      assert Step(d, q, 0) == q;
    }
  }

  lemma {:induction false} RunLetters(p: IpuzData, d: Direction, q: Pos)
    requires WellFormed(p) && SingleLetters(p)
    ensures forall i :: 0 <= i < RunLength(p, d, q) ==> Playable(p, Step(d, q, i).r, Step(d, q, i).c)
    ensures forall i :: 0 <= i < RunLength(p, d, q) ==>
      RunAnswer(p, d, q)[i] == p.solution[Step(d, q, i).r][Step(d, q, i).c][0]
    decreases if d == Across then p.width - q.c else p.height - q.r
  {
    RunCells(p, d, q);
    if Playable(p, q.r, q.c) {
      var q' := Step(d, q, 1);
      RunLetters(p, d, q');
      var s := RunAnswer(p, d, q);
      assert |p.solution[q.r][q.c]| == 1;
      forall i | 0 <= i < RunLength(p, d, q)
        ensures s[i] == p.solution[Step(d, q, i).r][Step(d, q, i).c][0]
      {
        if i > 0 {
          assert Step(d, q, i) == Step(d, q', i - 1);
          assert s[i] == RunAnswer(p, d, q')[i - 1];
        }
      }
    }
  }

  /** `fromIpuz[d]` after processing `clues` in order: a clue whose number is
      found gets (or overwrites) its record; a clue whose number is nowhere in
      the puzzle is skipped. */
  function BuildDir(p: IpuzData, d: Direction, clues: seq<ClueEntry>): (m: map<nat, ClueDetail>)
    requires WellFormed(p)
    ensures forall num :: num in m ==> First(p, StartOf(num)) == Some(StartOfDetail(m[num]))
    decreases |clues|
  {
    if clues == [] then map[]
    else
      var m := BuildDir(p, d, clues[..|clues| - 1]);
      var e := clues[|clues| - 1];
      match First(p, StartOf(e.number))
      case None => m
      case Some(q) => m[e.number := ClueDetail(e.text, RunAnswer(p, d, q), q.r, q.c)]
  }

  /** The synthesised index: in both directions each record starts at the
      first row-major cell carrying its number. */
  function BuildIndex(p: IpuzData): (idx: Index)
    requires WellFormed(p)
    ensures forall d, num :: num in Clues(idx, d) ==> First(p, StartOf(num)) == Some(StartOfDetail(Clues(idx, d)[num]))
  {
    Index(BuildDir(p, Across, p.across), BuildDir(p, Down, p.down))
  }

  /** Some entry of `clues` carries `num`. */
  ghost predicate Listed(clues: seq<ClueEntry>, num: nat)
  {
    exists i :: 0 <= i < |clues| && clues[i].number == num
  }

  /** `text` is the text of the last entry of `clues` that carries `num`. */
  ghost predicate LastTextIs(clues: seq<ClueEntry>, num: nat, text: string)
  {
    exists i :: 0 <= i < |clues| && clues[i] == ClueEntry(num, text)
      && forall j :: i < j < |clues| ==> clues[j].number != num
  }

  /** A number has a record iff some clue carries it and the puzzle has a
      cell with that number. */
  lemma {:induction false} BuildDirKeys(p: IpuzData, d: Direction, clues: seq<ClueEntry>, num: nat)
    requires WellFormed(p)
    ensures num in BuildDir(p, d, clues) <==> Listed(clues, num) && First(p, StartOf(num)).Some?
    decreases |clues|
  {
    if clues != [] {
      var init := clues[..|clues| - 1];
      var e := clues[|clues| - 1];
      BuildDirKeys(p, d, init, num);
      if Listed(init, num) {
        var i :| 0 <= i < |init| && init[i].number == num;
        assert clues[i].number == num;
      }
      if e.number != num && Listed(clues, num) {
        var i :| 0 <= i < |clues| && clues[i].number == num;
        assert init[i].number == num;
      }
    }
  }

  /** A record starts at the first cell carrying its number, holds the run's
      answer and the text of the last clue carrying that number. */
  lemma BuildDirRecord(p: IpuzData, d: Direction, clues: seq<ClueEntry>, num: nat)
    requires WellFormed(p)
    requires num in BuildDir(p, d, clues)
    ensures First(p, StartOf(num)).Some?
    ensures var x := BuildDir(p, d, clues)[num];
      var q := First(p, StartOf(num)).value;
      && x.row == q.r && x.col == q.c
      && x.answer == RunAnswer(p, d, q)
      && LastTextIs(clues, num, x.clue)
  {
    BuildDirAnswer(p, d, clues, num);
    BuildDirText(p, d, clues, num);
  }

  lemma {:induction false} BuildDirAnswer(p: IpuzData, d: Direction, clues: seq<ClueEntry>, num: nat)
    requires WellFormed(p)
    requires num in BuildDir(p, d, clues)
    ensures BuildDir(p, d, clues)[num].answer == RunAnswer(p, d, StartOfDetail(BuildDir(p, d, clues)[num]))
    decreases |clues|
  {
    var init := clues[..|clues| - 1];
    var e := clues[|clues| - 1];
    var m0 := BuildDir(p, d, init);
    var m := BuildDir(p, d, clues);
    match First(p, StartOf(e.number))
    case None =>
      assert m == m0;
      BuildDirAnswer(p, d, init, num);
    case Some(q) =>
      assert m == m0[e.number := ClueDetail(e.text, RunAnswer(p, d, q), q.r, q.c)];
      if e.number != num {
        BuildDirAnswer(p, d, init, num);
      }
  }

  lemma {:induction false} BuildDirText(p: IpuzData, d: Direction, clues: seq<ClueEntry>, num: nat)
    requires WellFormed(p)
    requires num in BuildDir(p, d, clues)
    ensures LastTextIs(clues, num, BuildDir(p, d, clues)[num].clue)
    decreases |clues|
  {
    var init := clues[..|clues| - 1];
    var e := clues[|clues| - 1];
    var m0 := BuildDir(p, d, init);
    var m := BuildDir(p, d, clues);
    if e.number == num && First(p, StartOf(num)).Some? {
      var q := First(p, StartOf(num)).value;
      assert m[num] == ClueDetail(e.text, RunAnswer(p, d, q), q.r, q.c);
      assert clues[|clues| - 1] == ClueEntry(num, m[num].clue);
    } else {
      assert num in m0 && m[num] == m0[num] by {
        match First(p, StartOf(e.number))
        case None =>
          assert m == m0;
        case Some(q) =>
          assert e.number != num;
          assert m == m0[e.number := ClueDetail(e.text, RunAnswer(p, d, q), q.r, q.c)];
      }
      BuildDirText(p, d, init, num);
      assert clues == init + [e];
      LastTextExtend(init, e, num, m0[num].clue);
    }
  }

  /** Appending a clue with another number keeps the last text of `num`. */
  lemma LastTextExtend(init: seq<ClueEntry>, e: ClueEntry, num: nat, text: string)
    requires LastTextIs(init, num, text) && e.number != num
    ensures LastTextIs(init + [e], num, text)
  {
    var clues := init + [e];
    var i :| 0 <= i < |init| && init[i] == ClueEntry(num, text)
      && forall j :: i < j < |init| ==> init[j].number != num;
    assert clues[i] == ClueEntry(num, text);
    forall j | i < j < |clues| ensures clues[j].number != num {
      if j < |init| { assert clues[j] == init[j]; }
    }
  }

  /** The index has a record for a clue number exactly when that number is in
      the direction's clue list and some cell of the puzzle carries it: a
      number that appears nowhere in the grid gets no record. */
  lemma IndexKeys(p: IpuzData, d: Direction, num: nat)
    requires WellFormed(p)
    ensures num in Clues(BuildIndex(p), d) <==>
      Listed(ClueList(p, d), num)
      && exists i: nat, j: nat :: i < p.height && j < p.width && p.puzzle[i][j] == Numbered(num)
  {
    assert Clues(BuildIndex(p), d) == BuildDir(p, d, ClueList(p, d));
    BuildDirKeys(p, d, ClueList(p, d), num);
    FirstSpec(p, StartOf(num));
  }

  /** Every record of the built index describes a playable start cell: the
      first row-major cell carrying the clue's number, whose run is at least
      one cell long; with one letter per solution cell the answer spells that
      maximal run. */
  lemma DescriptorFacts(p: IpuzData, d: Direction, num: nat)
    requires WellFormed(p)
    requires num in Clues(BuildIndex(p), d)
    ensures var x := Clues(BuildIndex(p), d)[num];
      && InBounds(p, x.row, x.col)
      && p.puzzle[x.row][x.col] == Numbered(num)
      && (forall i: nat, j: nat :: i < p.height && j < p.width && RowMajorBefore(Pos(i, j), StartOfDetail(x))
            ==> p.puzzle[i][j] != Numbered(num))
      && Playable(p, x.row, x.col)
      && RunLength(p, d, StartOfDetail(x)) >= 1
      && (SingleLetters(p) ==> |x.answer| == RunLength(p, d, StartOfDetail(x)) >= 1)
  {
    var clues := ClueList(p, d);
    assert Clues(BuildIndex(p), d) == BuildDir(p, d, clues);
    BuildDirRecord(p, d, clues, num);
    FirstSpec(p, StartOf(num));
    var x := Clues(BuildIndex(p), d)[num];
    RunSpec(p, d, StartOfDetail(x));
  }

  /** The two `while` walks of `generateFromIpuz`, appending solution letters
      until a block or the grid edge. */
  method CollectAnswer(p: IpuzData, d: Direction, q: Pos) returns (answer: string)
    requires WellFormed(p) && InBounds(p, q.r, q.c)
    ensures answer == RunAnswer(p, d, q)
  {
    answer := "";
    if d == Across {
      var c := q.c;
      while c < p.width && p.puzzle[q.r][c] != Block
        invariant q.c <= c <= p.width
        invariant answer + RunAnswer(p, d, Pos(q.r, c)) == RunAnswer(p, d, q)
        decreases p.width - c
      {
        assert RunAnswer(p, d, Pos(q.r, c)) == p.solution[q.r][c] + RunAnswer(p, d, Pos(q.r, c + 1));
        answer := answer + p.solution[q.r][c];
        c := c + 1;
      }
    } else {
      var r := q.r;
      while r < p.height && p.puzzle[r][q.c] != Block
        invariant q.r <= r <= p.height
        invariant answer + RunAnswer(p, d, Pos(r, q.c)) == RunAnswer(p, d, q)
        decreases p.height - r
      {
        assert RunAnswer(p, d, Pos(r, q.c)) == p.solution[r][q.c] + RunAnswer(p, d, Pos(r + 1, q.c));
        answer := answer + p.solution[r][q.c];
        r := r + 1;
      }
    }
  }

  /** One `clues.X.forEach` pass of `generateFromIpuz`. */
  method ProcessClues(p: IpuzData, d: Direction, clues: seq<ClueEntry>) returns (m: map<nat, ClueDetail>)
    requires WellFormed(p)
    ensures m == BuildDir(p, d, clues)
  {
    m := map[];
    for i := 0 to |clues|
      invariant m == BuildDir(p, d, clues[..i])
    {
      assert clues[..i + 1][..i] == clues[..i];
      var e := clues[i];
      var coords := FindFirst(p, StartOf(e.number));
      FirstSpec(p, StartOf(e.number));
      if coords.Some? {
        var answer := CollectAnswer(p, d, coords.value);
        m := m[e.number := ClueDetail(e.text, answer, coords.value.r, coords.value.c)];
      }
    }
    assert clues[..|clues|] == clues;
  }

  /** `generateFromIpuz`: the across pass, then the down pass. */
  method GenerateFromIpuz(p: IpuzData) returns (idx: Index)
    requires WellFormed(p)
    ensures idx == BuildIndex(p)
  {
    var across := ProcessClues(p, Across, p.across);
    var down := ProcessClues(p, Down, p.down);
    idx := Index(across, down);
  }
}
