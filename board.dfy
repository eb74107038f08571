/** The 3x3 grid of the game and the two read-only scans over it:
    the first empty cell in row-major order, and the "no empty cell" test. */
module Board {

  datatype Option<+T> = None | Some(value: T)

  /** A cell of the grid: empty (the source's None) or holding a mark. */
  datatype Cell = Empty | X | O

  /** A player is a mark that can be placed on the grid. */
  type Player = c: Cell | c != Empty witness X

  function Opponent(p: Player): (q: Player)
    ensures q != p
  {
    if p == X then O else X
  }

  /** The grid in row-major order: the cell grid[i][j] is at position 3 * i + j. */
  type Grid = b: seq<Cell> | |b| == 9
    witness [Empty, Empty, Empty, Empty, Empty, Empty, Empty, Empty, Empty]

  /** Position of the cell in row i and column j. */
  function Index(i: nat, j: nat): (k: nat)
    requires i < 3 && j < 3
    ensures k < 9
  {
    3 * i + j
  }

  /** The row and column of position k: its inverse. */
  function Coordinates(k: nat): (c: (nat, nat))
    requires k < 9
    ensures c.0 < 3 && c.1 < 3 && Index(c.0, c.1) == k
  {
    (k / 3, k % 3)
  }

  /** The board after mark c is written at position k; nothing else changes. */
  function Child(b: Grid, k: nat, c: Cell): (r: Grid)
    requires k < 9
    ensures r[k] == c
    ensures forall m :: 0 <= m < 9 && m != k ==> r[m] == b[m]
  {
    b[k := c]
  }

  predicate IsFull(b: Grid)
  {
    forall k :: 0 <= k < 9 ==> b[k] != Empty
  }

  /** Number of empty cells: the measure by which the search terminates. */
  function EmptyCount(s: seq<Cell>): (n: nat)
  {
    if s == [] then 0 else (if s[0] == Empty then 1 else 0) + EmptyCount(s[1..])
  }

  /** Writing a mark into an empty cell leaves one empty cell fewer. */
  lemma {:induction false} PlaceReducesEmptyCount(s: seq<Cell>, k: nat, c: Cell)
    requires k < |s| && s[k] == Empty && c != Empty
    ensures EmptyCount(s[k := c]) == EmptyCount(s) - 1
  {
    if k == 0 {
      assert s[k := c][1..] == s[1..];
    } else {
      assert s[k := c][1..] == s[1..][k - 1 := c];
      PlaceReducesEmptyCount(s[1..], k - 1, c);
    }
  }

  /** Position of the first empty cell at or after k, scanning row-major. */
  function FirstEmptyFrom(b: Grid, k: nat): (r: Option<nat>)
    requires k <= 9
    decreases 9 - k
    ensures r.None? <==> forall m :: k <= m < 9 ==> b[m] != Empty
    ensures r.Some? ==> k <= r.value < 9 && b[r.value] == Empty
    ensures r.Some? ==> forall m :: k <= m < r.value ==> b[m] != Empty
  {
    if k == 9 then None
    else if b[k] == Empty then Some(k)
    else FirstEmptyFrom(b, k + 1)
  }

  /** find_available: the coordinates (row, column) of the first empty cell in
      row-major order, or None when every cell is taken. */
  function FindAvailable(b: Grid): (r: Option<(nat, nat)>)
    ensures r.None? <==> IsFull(b)
    ensures r.Some? ==> r.value.0 < 3 && r.value.1 < 3 && b[Index(r.value.0, r.value.1)] == Empty
    ensures r.Some? ==>
      forall i, j :: 0 <= i < 3 && 0 <= j < 3 && (i < r.value.0 || (i == r.value.0 && j < r.value.1))
        ==> b[Index(i, j)] != Empty
  {
    match FirstEmptyFrom(b, 0)
    case None => None
    case Some(k) => Some(Coordinates(k))
  }

  /** Is every cell at or after k taken? The scan stops at the first empty cell. */
  function NoEmptyFrom(b: Grid, k: nat): (r: bool)
    requires k <= 9
    decreases 9 - k
    ensures r <==> forall m :: k <= m < 9 ==> b[m] != Empty
  {
    if k == 9 then true
    else if b[k] == Empty then false
    else NoEmptyFrom(b, k + 1)
  }

  /** check_tie: true exactly when no cell of the grid is empty. */
  function CheckTie(b: Grid): (tie: bool)
    ensures tie <==> IsFull(b)
  {
    NoEmptyFrom(b, 0)
  }

  /** find_available on any grid whose top-left cell is empty, such as the
      all-empty grid a new game starts with, is the top-left corner. */
  lemma FindAvailableTopLeft(b: Grid)
    requires b[0] == Empty
    ensures FindAvailable(b) == Some((0, 0))
  {
  }
}
