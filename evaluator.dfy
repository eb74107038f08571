/** check_win: the terminal-state test over the eight lines of the grid. */
module Evaluator {
  import opened Board

  /** What check_win reports: Won(p) is (True, p), Tie is (False, 'tie'),
      Open is (False, None). */
  datatype Status = Won(winner: Player) | Tie | Open

  /** The positions of line l, in the order check_win visits the lines:
      rows 0 to 2, columns 0 to 2, the main diagonal, the anti-diagonal.
      The first position is the cell whose mark is reported. */
  function Line(l: nat): (t: (nat, nat, nat))
    requires l < 8
    ensures t.0 < 9 && t.1 < 9 && t.2 < 9
  {
    if l < 3 then (Index(l, 0), Index(l, 1), Index(l, 2))
    else if l < 6 then (Index(0, l - 3), Index(1, l - 3), Index(2, l - 3))
    else if l == 6 then (Index(0, 0), Index(1, 1), Index(2, 2))
    else (Index(0, 2), Index(1, 1), Index(2, 0))
  }

  /** All three cells of line l hold p. */
  predicate Holds(b: Grid, l: nat, p: Player)
    requires l < 8
  {
    var (x, y, z) := Line(l);
    b[x] == p && b[y] == p && b[z] == p
  }

  /** Line l is held entirely by one of the players. */
  predicate Completed(b: Grid, l: nat)
    requires l < 8
  {
    Holds(b, l, X) || Holds(b, l, O)
  }

  predicate NoCompletedLine(b: Grid)
  {
    forall l :: 0 <= l < 8 ==> !Completed(b, l)
  }

  /** The test check_win applies to one line: three equal cells, the first
      not empty; its result is the first cell's mark. */
  function LineWinner(b: Grid, l: nat): (r: Option<Player>)
    requires l < 8
    ensures r.Some? <==> Completed(b, l)
    ensures r.Some? ==> Holds(b, l, r.value)
  {
    var (x, y, z) := Line(l);
    if b[x] == b[y] && b[y] == b[z] && b[x] != Empty then Some(b[x]) else None
  }

  /** The first completed line at or after l, in visiting order. */
  function FirstLineFrom(b: Grid, l: nat): (r: Option<nat>)
    requires l <= 8
    decreases 8 - l
    ensures r.None? <==> forall m :: l <= m < 8 ==> !Completed(b, m)
    ensures r.Some? ==> l <= r.value < 8 && Completed(b, r.value)
    ensures r.Some? ==> forall m :: l <= m < r.value ==> !Completed(b, m)
  {
    if l == 8 then None
    else if LineWinner(b, l).Some? then Some(l)
    else FirstLineFrom(b, l + 1)
  }

  /** check_win: the mark of the first completed line in visiting order;
      failing that, Tie when the grid is full and Open otherwise. */
  function CheckWin(b: Grid): (s: Status)
    ensures s.Won? <==> FirstLineFrom(b, 0).Some?
    ensures s.Won? ==> Holds(b, FirstLineFrom(b, 0).value, s.winner)
    ensures !s.Won? ==> (s == Tie <==> IsFull(b))
  {
    match FirstLineFrom(b, 0)
    case Some(l) => Won(LineWinner(b, l).value)
    case None => if CheckTie(b) then Tie else Open
  }

  /** check_win reports a win exactly when some line is completed, and then
      the mark of the first completed line; otherwise a tie exactly when the
      grid is full. */
  lemma CheckWinCorrect(b: Grid)
    ensures CheckWin(b).Won? <==> exists l :: 0 <= l < 8 && Completed(b, l)
    ensures CheckWin(b).Won? ==>
              exists l :: 0 <= l < 8 && Holds(b, l, CheckWin(b).winner) &&
                          forall m :: 0 <= m < l ==> !Completed(b, m)
    ensures CheckWin(b) == Tie <==> NoCompletedLine(b) && IsFull(b)
    ensures CheckWin(b) == Open <==> NoCompletedLine(b) && !IsFull(b)
  {
  }

  /** A grid still in progress has an empty cell. */
  lemma OpenHasEmptyCell(b: Grid)
    requires CheckWin(b) == Open
    ensures exists k :: 0 <= k < 9 && b[k] == Empty
  {
  }

  /** A grid in which line l holds p and no cell holds the other mark is a
      win for p; in particular any one line filled with one mark, the rest
      empty. */
  lemma LoneLineWins(b: Grid, l: nat, p: Player)
    requires l < 8 && Holds(b, l, p)
    requires forall k :: 0 <= k < 9 ==> b[k] == Empty || b[k] == p
    ensures CheckWin(b) == Won(p)
  {
    CheckWinCorrect(b);
    assert Completed(b, l);
    var m :| 0 <= m < 8 && Holds(b, m, CheckWin(b).winner);
    var (x, y, z) := Line(m);
    assert b[x] == CheckWin(b).winner;
  }

  /** The all-empty grid a new game starts with is in progress. */
  lemma EmptyGridIsOpen(b: Grid)
    requires forall k :: 0 <= k < 9 ==> b[k] == Empty
    ensures CheckWin(b) == Open
  {
  }
}
