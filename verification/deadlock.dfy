/** The dead-board probe: tentative exchanges of neighbouring cells, the pure
    three-in-a-row test run on the exchanged board, and HasNoMovementsLeft. */
module Deadlock {
  import opened Wrappers
  import opened Board

  /** Both cells of the exchange (x, y) <-> (x + dx, y + dy) lie on the board. */
  predicate CanSwitch(s: State, x: int, y: int, d: Direction) {
    InBounds(s, x, y) && InBounds(s, x + d.Dx(), y + d.Dy())
  }

  /** SwitchGem: exchanges the contents of cell (x, y) and its neighbour in
      direction `d` on the board only; no gem record changes. */
  function SwitchGem(s: State, x: int, y: int, d: Direction): (r: State)
    requires WellFormed(s) && CanSwitch(s, x, y, d)
    ensures WellFormed(r) && r.width == s.width && r.height == s.height && r.gems == s.gems
    ensures r.board[x][y] == s.board[x + d.Dx()][y + d.Dy()]
    ensures r.board[x + d.Dx()][y + d.Dy()] == s.board[x][y]
    ensures forall a, b :: InBounds(s, a, b) && (a != x || b != y) && (a != x + d.Dx() || b != y + d.Dy()) ==>
      r.board[a][b] == s.board[a][b]
  {
    var nx, ny := x + d.Dx(), y + d.Dy();
    var temp := s.board[nx][ny];
    var s1 := SetCell(s, nx, ny, s.board[x][y]);
    SetCell(s1, x, y, temp)
  }

  /** SwitchGem undoes itself. */
  lemma SwitchGemTwice(s: State, x: int, y: int, d: Direction)
    requires WellFormed(s) && CanSwitch(s, x, y, d)
    ensures SwitchGem(SwitchGem(s, x, y, d), x, y, d) == s
  {
    var s2 := SwitchGem(SwitchGem(s, x, y, d), x, y, d);
    StateExtensionality(s2, s);
  }

  /** Exchanging a cell with its left (lower) neighbour is exchanging that
      neighbour with its right (upper) neighbour. */
  lemma SwitchGemMirror(s: State, x: int, y: int)
    requires WellFormed(s)
    ensures CanSwitch(s, x, y, Left) ==>
      CanSwitch(s, x - 1, y, Right) && SwitchGem(s, x, y, Left) == SwitchGem(s, x - 1, y, Right)
    ensures CanSwitch(s, x, y, Down) ==>
      CanSwitch(s, x, y - 1, Up) && SwitchGem(s, x, y, Down) == SwitchGem(s, x, y - 1, Up)
  {
    if CanSwitch(s, x, y, Left) {
      StateExtensionality(SwitchGem(s, x, y, Left), SwitchGem(s, x - 1, y, Right));
    }
    if CanSwitch(s, x, y, Down) {
      StateExtensionality(SwitchGem(s, x, y, Down), SwitchGem(s, x, y - 1, Up));
    }
  }

  /** The column-major scan of WillHaveFutureMatches from (x, y): true at the
      first occupied cell that starts three equal kinds going right or up. */
  function FutureScan(s: State, x: nat, y: nat): (r: bool)
    requires WellFormed(s) && x <= s.width && y <= s.height
    ensures r <==> exists a, b :: InBounds(s, a, b) && NotBefore(a, b, x, y) && (HTriple(s, a, b) || VTriple(s, a, b))
    decreases s.width - x, s.height - y
  {
    if x == s.width then
      false
    else if y == s.height then
      var r := FutureScan(s, x + 1, 0);
      assert forall a, b :: InBounds(s, a, b) ==> (NotBefore(a, b, x, y) <==> NotBefore(a, b, x + 1, 0));
      r
    else if s.board[x][y].Some? && (HTriple(s, x, y) || VTriple(s, x, y)) then
      true
    else
      var r := FutureScan(s, x, y + 1);
      assert forall a, b :: InBounds(s, a, b) && NotBefore(a, b, x, y) ==> (a == x && b == y) || NotBefore(a, b, x, y + 1);
      r
  }

  /** WillHaveFutureMatches: a pure test (no gem is flagged) for three equal
      kinds in a row or column anywhere on the board. */
  function WillHaveFutureMatches(s: State): (r: bool)
    requires WellFormed(s)
    ensures r <==> AnyTriple(s)
  {
    FutureScan(s, 0, 0)
  }

  /** CheckForFutureMatches: exchanges the pair, tests the exchanged board,
      exchanges the pair back. The board comes back exactly as it was. */
  function CheckForFutureMatches(s: State, x: int, y: int, d: Direction): (r: (State, bool))
    requires WellFormed(s) && CanSwitch(s, x, y, d)
    ensures r.0 == s
    ensures r.1 <==> AnyTriple(SwitchGem(s, x, y, d))
  {
    var s1 := SwitchGem(s, x, y, d);
    var found := WillHaveFutureMatches(s1);
    SwitchGemTwice(s, x, y, d);
    (SwitchGem(s1, x, y, d), found)
  }

  /** The probe HasNoMovementsLeft makes at cell (x, y), with the source's
      precedence `occupied && notLastColumn && right || notLastRow && up`:
      the rightward exchange only from an occupied cell that is not in the
      last column, the upward exchange from every cell not in the last row. */
  predicate ProbeSucceeds(s: State, x: int, y: int)
    requires WellFormed(s) && InBounds(s, x, y)
  {
    (s.board[x][y].Some? && x < s.width - 1 && CheckForFutureMatches(s, x, y, Right).1) ||
    (y < s.height - 1 && CheckForFutureMatches(s, x, y, Up).1)
  }

  /** The column-major scan of HasNoMovementsLeft from (x, y): false at the
      first cell whose probe succeeds, true when none does. */
  function NoMovesScan(s: State, x: nat, y: nat): (r: bool)
    requires WellFormed(s) && x <= s.width && y <= s.height
    ensures r <==> forall a, b :: InBounds(s, a, b) && NotBefore(a, b, x, y) ==> !ProbeSucceeds(s, a, b)
    decreases s.width - x, s.height - y
  {
    if x == s.width then
      true
    else if y == s.height then
      var r := NoMovesScan(s, x + 1, 0);
      assert forall a, b :: InBounds(s, a, b) ==> (NotBefore(a, b, x, y) <==> NotBefore(a, b, x + 1, 0));
      r
    else if (s.board[x][y].Some? && x < s.width - 1 && CheckForFutureMatches(s, x, y, Right).1)
         || (y < s.height - 1 && CheckForFutureMatches(s, x, y, Up).1) then
      false
    else
      var r := NoMovesScan(s, x, y + 1);
      assert forall a, b :: InBounds(s, a, b) && NotBefore(a, b, x, y) ==> (a == x && b == y) || NotBefore(a, b, x, y + 1);
      r
  }

  /** HasNoMovementsLeft: true exactly when no cell's probe succeeds. Every
      probe restores the board, so the board is never changed. */
  function HasNoMovementsLeft(s: State): (r: bool)
    requires WellFormed(s)
    ensures r <==> forall a, b :: InBounds(s, a, b) ==> !ProbeSucceeds(s, a, b)
  {
    NoMovesScan(s, 0, 0)
  }

  /** Exchanging (x, y) with its neighbour in direction `d` makes three equal
      kinds in a row somewhere: a playable swap. */
  predicate SwapCreatesTriple(s: State, x: int, y: int, d: Direction)
    requires WellFormed(s)
  {
    CanSwitch(s, x, y, d) && AnyTriple(SwitchGem(s, x, y, d))
  }

  /** A successful probe names a playable swap: rightward or upward. */
  lemma ProbeNamesSwap(s: State, x: int, y: int)
    requires WellFormed(s) && InBounds(s, x, y) && ProbeSucceeds(s, x, y)
    ensures SwapCreatesTriple(s, x, y, Right) || SwapCreatesTriple(s, x, y, Up)
  {
  }

  /** On a full board every playable swap is seen by the probe of one of
      its two cells: the lower-left one. */
  lemma SwapSeenByProbe(s: State, x: int, y: int, d: Direction)
    requires WellFormed(s) && Full(s) && SwapCreatesTriple(s, x, y, d)
    ensures d == Right ==> ProbeSucceeds(s, x, y)
    ensures d == Up ==> ProbeSucceeds(s, x, y)
    ensures d == Left ==> InBounds(s, x - 1, y) && ProbeSucceeds(s, x - 1, y)
    ensures d == Down ==> InBounds(s, x, y - 1) && ProbeSucceeds(s, x, y - 1)
  {
    SwitchGemMirror(s, x, y);
  }

  /** On a full board (the only kind it is asked about) HasNoMovementsLeft is
      true exactly when no exchange of two neighbouring cells, in any of the
      four directions, produces three equal kinds in a row. */
  lemma HasNoMovementsLeftFull(s: State)
    requires WellFormed(s) && Full(s)
    ensures HasNoMovementsLeft(s) <==>
      forall x, y, d :: InBounds(s, x, y) ==> !SwapCreatesTriple(s, x, y, d)
  {
    if HasNoMovementsLeft(s) {
      forall x, y, d | InBounds(s, x, y) ensures !SwapCreatesTriple(s, x, y, d) {
        if SwapCreatesTriple(s, x, y, d) {
          SwapSeenByProbe(s, x, y, d);
        }
      }
    } else {
      var x, y :| InBounds(s, x, y) && ProbeSucceeds(s, x, y);
      ProbeNamesSwap(s, x, y);
    }
  }

  /** The precedence of the probe condition lets an empty cell's upward probe
      count: on the single column A A _ A no swipe is possible (a swipe needs a
      gem in the neighbouring cell), yet HasNoMovementsLeft answers false,
      because moving the empty cell up lines up A A A. */
  lemma EmptyCellUpProbeCounts()
    ensures var s := State(1, 4, [[Some(0), Some(1), None, Some(2)]],
                           map[0 := Gem(7, 0, 0, 0, 0, false, true, false, false),
                               1 := Gem(7, 0, 1, 0, 1, false, true, false, false),
                               2 := Gem(7, 0, 3, 0, 3, false, true, false, false)]);
      WellFormed(s) && !HasNoMovementsLeft(s)
  {
    var s := State(1, 4, [[Some(0), Some(1), None, Some(2)]],
                   map[0 := Gem(7, 0, 0, 0, 0, false, true, false, false),
                       1 := Gem(7, 0, 1, 0, 1, false, true, false, false),
                       2 := Gem(7, 0, 3, 0, 3, false, true, false, false)]);
    var t := SwitchGem(s, 0, 2, Up);
    assert t.board[0] == [Some(0), Some(1), Some(2), None];
    assert VTriple(t, 0, 0);
    assert ProbeSucceeds(s, 0, 2);
  }
}
