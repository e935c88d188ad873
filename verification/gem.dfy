/** Per-gem operations: coordinate updates, the board write a gem makes when
    it arrives, and the reset a gem gets when it leaves its pool. */
module GemOps {
  import opened Wrappers
  import opened Board

  /** What the animation driver reports for one tick of one gem: whether the
      gem is still farther than the convergence threshold from its target on
      each axis. The interpolation itself is not modelled. */
  datatype Axes = Axes(hFar: bool, vFar: bool)

  datatype Moved = Moved(s: State, moving: bool)

  /** A gem id whose record exists and whose coordinates name a cell. */
  predicate Addressable(s: State, g: GemId) {
    g in s.gems && InBounds(s, s.gems[g].column, s.gems[g].row)
  }

  /** Picks a new kind; `pick` is the random index the engine drew in [0, palette). */
  function RandomizeType(gem: Gem, palette: nat, pick: nat): (r: Gem)
    requires pick < palette
    ensures r.kind < palette
    ensures r.(kind := gem.kind) == gem
  {
    gem.(kind := pick)
  }

  /** The reset a gem gets when the pool hands it out: a fresh kind, the match
      flag and both movement flags cleared, everything else kept. */
  function OnSpawn(gem: Gem, palette: nat, pick: nat): (r: Gem)
    requires pick < palette
    ensures !r.isMatched && !r.hMoving && !r.vMoving
    ensures r.kind < palette
    ensures r.column == gem.column && r.row == gem.row && r.active == gem.active
    ensures r.lastColumn == gem.lastColumn && r.lastRow == gem.lastRow
  {
    RandomizeType(gem, palette, pick).(isMatched := false, hMoving := false, vMoving := false)
  }

  /** Writes the gem into the cell its coordinates name. */
  function UpdateGemBoard(s: State, g: GemId): (r: State)
    requires WellFormed(s) && Addressable(s, g)
    ensures WellFormed(r) && r.gems == s.gems && r.width == s.width && r.height == s.height
    ensures Placed(r, g)
    ensures forall a, b :: InBounds(s, a, b) && (a != s.gems[g].column || b != s.gems[g].row) ==>
      r.board[a][b] == s.board[a][b]
  {
    SetCell(s, s.gems[g].column, s.gems[g].row, Some(g))
  }

  /** Undoes a rejected swap: the gem takes back its recorded coordinates and
      writes itself into that cell. The move back on screen is not modelled. */
  function ReturnToLastPosition(s: State, g: GemId): (r: State)
    requires WellFormed(s) && g in s.gems
    requires InBounds(s, s.gems[g].lastColumn, s.gems[g].lastRow)
    ensures WellFormed(r) && r.width == s.width && r.height == s.height
    ensures r.gems.Keys == s.gems.Keys
    ensures r.gems[g].column == s.gems[g].lastColumn && r.gems[g].row == s.gems[g].lastRow
    ensures r.gems[g] == s.gems[g].(column := s.gems[g].lastColumn, row := s.gems[g].lastRow)
    ensures forall h :: h in s.gems && h != g ==> r.gems[h] == s.gems[h]
    ensures Placed(r, g)
    ensures forall a, b :: InBounds(s, a, b) && (a != s.gems[g].lastColumn || b != s.gems[g].lastRow) ==>
      r.board[a][b] == s.board[a][b]
  {
    var gem := s.gems[g];
    var s1 := s.(gems := s.gems[g := gem.(column := gem.lastColumn, row := gem.lastRow)]);
    UpdateGemBoard(s1, g)
  }

  /** The record of a gem that falls `n` rows: the row drops by `n` and the
      "last" coordinates become the new cell. The column and the rest stay. */
  function Lowered(gem: Gem, n: int): (r: Gem)
    ensures r.row == gem.row - n && r.column == gem.column
    ensures r.lastRow == r.row && r.lastColumn == r.column
    ensures r.(row := gem.row, lastRow := gem.lastRow, lastColumn := gem.lastColumn) == gem
  {
    gem.(row := gem.row - n, lastRow := gem.row - n, lastColumn := gem.column)
  }

  /** PrepareToFall: records a fall of `n` rows and writes the gem into its
      new cell. */
  function PrepareToFall(s: State, g: GemId, n: int): (r: State)
    requires WellFormed(s) && g in s.gems
    requires InBounds(s, s.gems[g].column, s.gems[g].row - n)
    ensures WellFormed(r) && r.width == s.width && r.height == s.height
    ensures r.gems.Keys == s.gems.Keys
    ensures r.gems[g] == Lowered(s.gems[g], n)
    ensures forall h :: h in s.gems && h != g ==> r.gems[h] == s.gems[h]
    ensures Placed(r, g)
    ensures forall a, b :: InBounds(s, a, b) && (a != s.gems[g].column || b != s.gems[g].row - n) ==>
      r.board[a][b] == s.board[a][b]
  {
    UpdateGemBoard(s.(gems := s.gems[g := Lowered(s.gems[g], n)]), g)
  }

  /** One animation tick of a gem. An axis that is still far marks the gem as
      moving on it; an axis that was moving and has now converged clears its
      flag and writes the gem into the cell its coordinates name (the deferred
      board commit of a swap or a fall). Returns whether either axis still moves. */
  function ProcessMovement(s: State, g: GemId, obs: Axes): (r: Moved)
    requires WellFormed(s) && Addressable(s, g)
    ensures WellFormed(r.s) && r.s.width == s.width && r.s.height == s.height
    ensures r.s.gems.Keys == s.gems.Keys
    ensures r.s.gems[g] == s.gems[g].(hMoving := obs.hFar, vMoving := obs.vFar)
    ensures forall h :: h in s.gems && h != g ==> r.s.gems[h] == s.gems[h]
    ensures r.moving <==> obs.hFar || obs.vFar
    ensures Arrives(s, g, obs) ==> Placed(r.s, g)
    ensures !Arrives(s, g, obs) ==> r.s.board == s.board
    ensures forall a, b :: InBounds(s, a, b) && (a != s.gems[g].column || b != s.gems[g].row) ==>
      r.s.board[a][b] == s.board[a][b]
  {
    var s1 := HorizontalTick(s, g, obs.hFar);
    var s2 := VerticalTick(s1, g, obs.vFar);
    Moved(s2, s2.gems[g].hMoving || s2.gems[g].vMoving)
  }

  /** The horizontal half of a tick: still far sets hMoving; converging while
      hMoving clears it and writes the gem into its cell; otherwise nothing. */
  function HorizontalTick(s: State, g: GemId, far: bool): (r: State)
    requires WellFormed(s) && Addressable(s, g)
    ensures WellFormed(r) && r.width == s.width && r.height == s.height
    ensures r.gems == s.gems[g := s.gems[g].(hMoving := far)]
    ensures !far && s.gems[g].hMoving ==> Placed(r, g)
    ensures far || !s.gems[g].hMoving ==> r.board == s.board
    ensures forall a, b :: InBounds(s, a, b) && (a != s.gems[g].column || b != s.gems[g].row) ==>
      r.board[a][b] == s.board[a][b]
  {
    var gem := s.gems[g];
    if far then s.(gems := s.gems[g := gem.(hMoving := true)])
    else if gem.hMoving then UpdateGemBoard(s.(gems := s.gems[g := gem.(hMoving := false)]), g)
    else s
  }

  /** The vertical half of a tick, the same on vMoving. */
  function VerticalTick(s: State, g: GemId, far: bool): (r: State)
    requires WellFormed(s) && Addressable(s, g)
    ensures WellFormed(r) && r.width == s.width && r.height == s.height
    ensures r.gems == s.gems[g := s.gems[g].(vMoving := far)]
    ensures !far && s.gems[g].vMoving ==> Placed(r, g)
    ensures far || !s.gems[g].vMoving ==> r.board == s.board
    ensures forall a, b :: InBounds(s, a, b) && (a != s.gems[g].column || b != s.gems[g].row) ==>
      r.board[a][b] == s.board[a][b]
  {
    var gem := s.gems[g];
    if far then s.(gems := s.gems[g := gem.(vMoving := true)])
    else if gem.vMoving then UpdateGemBoard(s.(gems := s.gems[g := gem.(vMoving := false)]), g)
    else s
  }

  /** The tick finishes a movement on some axis, so the gem commits its cell. */
  predicate Arrives(s: State, g: GemId, obs: Axes)
    requires g in s.gems
  {
    (!obs.hFar && s.gems[g].hMoving) || (!obs.vFar && s.gems[g].vMoving)
  }
}
