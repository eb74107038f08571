/** minimax: exhaustive search over the grid, X minimising and O maximising.
    Value and Best specify the score; the method Minimax computes it in place,
    writing each speculative mark and erasing it again. */
module Search {
  import opened Board
  import opened Evaluator

  /** Score of a finished grid: -1 when X has won, +1 when O has won, 0 for a tie. */
  function Score(s: Status): (v: int)
    requires !s.Open?
    ensures v == -1 <==> s == Won(X)
    ensures v == 1 <==> s == Won(O)
    ensures v == 0 <==> s == Tie
  {
    match s
    case Won(p) => if p == X then -1 else 1
    case Tie => 0
  }

  /** The starting best score of a search for p, standing for the source's
      math.inf (X minimises) and -math.inf (O maximises): outside every score. */
  function Sentinel(p: Player): (v: int)
  {
    if p == X then 2 else -2
  }

  /** The running aggregate: min(score, best) for X, max(score, best) for O. */
  function Better(p: Player, score: int, best: int): (v: int)
  {
    if p == X then (if score < best then score else best)
    else (if score > best then score else best)
  }

  /** The value of the grid b when p is to move. */
  function Value(b: Grid, p: Player): (v: int)
    decreases EmptyCount(b), 1, 0
    ensures -1 <= v <= 1
  {
    var s := CheckWin(b);
    if s.Open? then OpenHasEmptyCell(b); Best(b, p, 9) else Score(s)
  }

  /** The aggregate of the search loop for p after it has visited the
      positions 0 .. n-1: each empty one is tried with p's mark. */
  function Best(b: Grid, p: Player, n: nat): (r: int)
    requires n <= 9
    decreases EmptyCount(b), 0, n
    ensures if exists k :: 0 <= k < n && b[k] == Empty then -1 <= r <= 1 else r == Sentinel(p)
  {
    if n == 0 then Sentinel(p)
    else
      var best := Best(b, p, n - 1);
      if b[n - 1] == Empty then
        PlaceReducesEmptyCount(b, n - 1, p);
        Better(p, Value(Child(b, n - 1, p), Opponent(p)), best)
      else best
  }

  /** The value p obtains by moving at k. */
  function MoveValue(b: Grid, k: nat, p: Player): (v: int)
    requires k < 9
    ensures -1 <= v <= 1
  {
    Value(Child(b, k, p), Opponent(p))
  }

  /** One step of the search loop. */
  lemma BestStep(b: Grid, p: Player, k: nat)
    requires k < 9
    ensures Best(b, p, k + 1) ==
              if b[k] == Empty then Better(p, MoveValue(b, k, p), Best(b, p, k)) else Best(b, p, k)
  {
  }

  /** After visiting 0 .. n-1 the loop holds the least (for X) or greatest
      (for O) move value among the empty positions visited, and it is the
      value of one of them. */
  lemma {:induction false} BestIsExtremum(b: Grid, p: Player, n: nat)
    requires n <= 9
    ensures forall k :: 0 <= k < n && b[k] == Empty ==>
              if p == X then Best(b, p, n) <= MoveValue(b, k, p) else Best(b, p, n) >= MoveValue(b, k, p)
    ensures (exists k :: 0 <= k < n && b[k] == Empty) ==>
              exists k :: 0 <= k < n && b[k] == Empty && Best(b, p, n) == MoveValue(b, k, p)
  {
    if n > 0 {
      BestIsExtremum(b, p, n - 1);
      BestStep(b, p, n - 1);
    }
  }

  /** The minimax value: the score of a finished grid, and otherwise the
      least move value over the empty cells when X is to move and the
      greatest when O is to move. */
  lemma ValueIsMinimax(b: Grid, p: Player)
    ensures CheckWin(b) == Won(X) ==> Value(b, p) == -1
    ensures CheckWin(b) == Won(O) ==> Value(b, p) == 1
    ensures CheckWin(b) == Tie ==> Value(b, p) == 0
    ensures CheckWin(b) == Open ==>
              forall k :: 0 <= k < 9 && b[k] == Empty ==>
                if p == X then Value(b, p) <= MoveValue(b, k, p) else Value(b, p) >= MoveValue(b, k, p)
    ensures CheckWin(b) == Open ==>
              exists k :: 0 <= k < 9 && b[k] == Empty && Value(b, p) == MoveValue(b, k, p)
  {
    if CheckWin(b) == Open {
      BestIsExtremum(b, p, 9);
    }
  }

  /** minimax(grid, depth, player), with the unused depth left out. The
      nested row and cell loops become one loop over the nine positions in
      the same row-major order. The grid is left exactly as found. */
  method Minimax(g: array<Cell>, player: Player) returns (score: int)
    requires g.Length == 9
    modifies g
    decreases EmptyCount(g[..]), 1
    ensures g[..] == old(g[..])
    ensures score == Value(old(g[..]), player)
  {
    var status := CheckWin(g[..]);
    if status == Won(X) { return -1; }
    if status == Won(O) { return 1; }
    if status == Tie { return 0; }

    ghost var b: Grid := g[..];
    assert Value(b, player) == Best(b, player, 9);
    var best := Sentinel(player);
    for k := 0 to 9
      invariant g[..] == b
      invariant best == Best(b, player, k)
    {
      if g[k] == Empty {
        var s := TryMove(g, k, player);
        best := Better(player, s, best);
      }
      BestStep(b, player, k);
    }
    score := best;
  }

  /** One speculative move of the search: p's mark is written into the empty
      cell k, the grid is searched with the other player to move, and the cell
      is emptied again. */
  method TryMove(g: array<Cell>, k: nat, p: Player) returns (score: int)
    requires g.Length == 9 && k < 9 && g[k] == Empty
    modifies g
    decreases EmptyCount(g[..]), 0
    ensures g[..] == old(g[..])
    ensures score == MoveValue(old(g[..]), k, p)
  {
    ghost var b: Grid := g[..];
    g[k] := p;
    assert g[..] == Child(b, k, p);
    PlaceReducesEmptyCount(b, k, p);
    score := Minimax(g, Opponent(p));
    g[k] := Empty;
    assert g[..] == b;
  }
}
