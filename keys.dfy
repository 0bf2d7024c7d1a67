/** Routing of physical key presses (`handleKeyDown`): Backspace and letters
    go to the virtual-key handler, arrows turn or move the cursor, Tab goes
    to the virtual-key handler as "TAB", anything else is ignored. */
module Keys {
  import opened Ipuz

  /** What a key press does: hand a key to `handleVirtualKey`, set the
      direction, call `moveCell(dr, dc)`, or nothing. */
  datatype Action = Virtual(key: string) | Turn(d: Direction) | Move(dr: int, dc: int) | Ignore

  /** The character class `[a-zA-Z]`. */
  predicate IsAsciiLetter(ch: char)
  {
    'a' <= ch <= 'z' || 'A' <= ch <= 'Z'
  }

  /** `toUpperCase` on an ASCII letter. */
  function Upper(ch: char): (u: char)
    requires IsAsciiLetter(ch)
    ensures 'A' <= u <= 'Z'
    ensures 'A' <= ch <= 'Z' ==> u == ch
    ensures 'a' <= ch <= 'z' ==> u as int - 'A' as int == ch as int - 'a' as int
  {
    if 'a' <= ch <= 'z' then (ch as int - 'a' as int + 'A' as int) as char else ch
  }

  /** `handleKeyDown`: the virtual-key handler only ever receives BACKSPACE,
      TAB or one upper-case letter; a move is one cell along the current
      direction; a turn always switches to the other direction. */
  function RouteKey(key: string, d: Direction): (a: Action)
    ensures a.Virtual? ==>
      a.key == "BACKSPACE" || a.key == "TAB" || (|a.key| == 1 && 'A' <= a.key[0] <= 'Z')
    ensures a.Move? && d == Across ==> a.dr == 0 && (a.dc == 1 || a.dc == -1)
    ensures a.Move? && d == Down ==> a.dc == 0 && (a.dr == 1 || a.dr == -1)
    ensures a.Turn? ==> a.d != d
  {
    if key == "Backspace" then Virtual("BACKSPACE")
    else if |key| == 1 && IsAsciiLetter(key[0]) then Virtual([Upper(key[0])])
    else if key == "ArrowRight" then (if d == Down then Turn(Across) else Move(0, 1))
    else if key == "ArrowLeft" then (if d == Down then Turn(Across) else Move(0, -1))
    else if key == "ArrowDown" then (if d == Across then Turn(Down) else Move(1, 0))
    else if key == "ArrowUp" then (if d == Across then Turn(Down) else Move(-1, 0))
    else if key == "Tab" then Virtual("TAB")
    else Ignore
  }

  /** The axis an arrow key points along. */
  function ArrowAxis(key: string): Option<Direction>
  {
    if key == "ArrowRight" || key == "ArrowLeft" then Some(Across)
    else if key == "ArrowDown" || key == "ArrowUp" then Some(Down)
    else None
  }

  /** A letter reaches the grid as one upper-case letter; any other single
      character is ignored. */
  lemma LetterRouting(ch: char, d: Direction)
    ensures IsAsciiLetter(ch) ==>
      RouteKey([ch], d).Virtual? && |RouteKey([ch], d).key| == 1 && 'A' <= RouteKey([ch], d).key[0] <= 'Z'
    ensures !IsAsciiLetter(ch) ==> RouteKey([ch], d) == Ignore
  {
  }

  /** An arrow across the current direction only turns to the arrow's axis;
      an arrow along it moves one cell along that axis, forwards for Right
      and Down, backwards for Left and Up. */
  lemma ArrowRouting(key: string, d: Direction)
    requires ArrowAxis(key).Some?
    ensures var a := ArrowAxis(key).value;
      && (d != a ==> RouteKey(key, d) == Turn(a))
      && (d == a ==>
            var unit := if key == "ArrowRight" || key == "ArrowDown" then 1 else -1;
            RouteKey(key, d) == (if a == Across then Move(0, unit) else Move(unit, 0)))
  {
  }

  /** Only Backspace, ASCII letters and Tab reach the virtual-key handler. */
  lemma VirtualRouting(key: string, d: Direction)
    ensures RouteKey(key, d).Virtual? <==>
      key == "Backspace" || key == "Tab" || (|key| == 1 && IsAsciiLetter(key[0]))
  {
  }
}
