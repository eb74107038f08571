/** get_ai_move: the computer plays X. Every empty cell is tried in
    row-major order and scored by minimax with O to move. The cell with the
    lowest score is played; when several cells share that score, the first one
    wins. */
module MoveSelector {
  import opened Board
  import opened Evaluator
  import opened Search

  /** (best_score, best_move) of the selection loop after it has visited
      positions 0 .. n-1; best_move is replaced only on a strictly lower score. */
  function Scan(b: Grid, n: nat): (r: (int, Option<nat>))
    requires n <= 9
    ensures (forall k :: 0 <= k < n ==> b[k] != Empty) ==> r == (Sentinel(X), None)
    ensures (exists k :: 0 <= k < n && b[k] == Empty) ==>
              r.1.Some? && r.1.value < n && b[r.1.value] == Empty && r.0 == MoveValue(b, r.1.value, X)
    ensures forall k :: 0 <= k < n && b[k] == Empty ==> r.0 <= MoveValue(b, k, X)
    ensures r.1.Some? ==> forall k :: 0 <= k < r.1.value && b[k] == Empty ==> MoveValue(b, k, X) > r.0
  {
    if n == 0 then (Sentinel(X), None)
    else
      var prev := Scan(b, n - 1);
      if b[n - 1] == Empty && MoveValue(b, n - 1, X) < prev.0 then (MoveValue(b, n - 1, X), Some(n - 1))
      else prev
  }

  /** m is an empty position whose score is the lowest over all empty
      positions, and every empty position before it scores strictly higher. */
  predicate IsAiMove(b: Grid, m: nat)
  {
    m < 9 && b[m] == Empty &&
    (forall k :: 0 <= k < 9 && b[k] == Empty ==> MoveValue(b, m, X) <= MoveValue(b, k, X)) &&
    (forall k :: 0 <= k < m && b[k] == Empty ==> MoveValue(b, k, X) > MoveValue(b, m, X))
  }

  /** The position get_ai_move commits on a grid with an empty cell. */
  function AiChoice(b: Grid): (m: nat)
    requires !IsFull(b)
    ensures IsAiMove(b, m)
  {
    Scan(b, 9).1.value
  }

  /** The tie-break rule singles out exactly one position. */
  lemma AiMoveIsUnique(b: Grid, m: nat)
    requires !IsFull(b)
    ensures IsAiMove(b, m) <==> m == AiChoice(b)
  {
  }

  /** get_ai_move on a grid with at least one empty cell: writes X into the
      chosen cell of the caller's grid and changes nothing else. */
  method GetAiMove(g: array<Cell>)
    requires g.Length == 9
    requires exists k :: 0 <= k < 9 && g[k] == Empty
    modifies g
    ensures g[..] == Child(old(g[..]), AiChoice(old(g[..])), X)
  {
    ghost var b: Grid := g[..];
    assert !IsFull(b);
    var bestScore := Sentinel(X);
    var bestMove: Option<nat> := None;
    for k := 0 to 9
      invariant g[..] == b
      invariant (bestScore, bestMove) == Scan(b, k)
    {
      if g[k] == Empty {
        var score := TryMove(g, k, X);
        if score < bestScore {
          bestScore := score;
          bestMove := Some(k);
        }
      }
    }
    g[bestMove.value] := X;
  }
}
