/** The swap controller: turning a swipe into a pair of gems exchanging
    coordinates, finishing or undoing the exchange once both gems arrive, and
    the flags that gate it (AllowSwipe, needFallGems, hasNewGems, the pending
    pairs). Swipe angles are given in degrees; movement is the per-tick
    convergence report of GemOps.Axes. */
module Controller {
  import opened Wrappers
  import opened Board
  import opened GemOps
  import opened Matching
  import opened Destroy
  import opened Shuffle

  /** Every gem record names a cell with both its coordinates and its "last"
      coordinates. Swipes, returns, falls, spawns and shuffles all keep this. */
  predicate Tracked(s: State) {
    && WellFormed(s)
    && forall g :: g in s.gems ==>
         InBounds(s, s.gems[g].column, s.gems[g].row) && InBounds(s, s.gems[g].lastColumn, s.gems[g].lastRow)
  }

  /** `t` has the records of `s`, with the same four coordinates each. */
  predicate SameCoords(s: State, t: State) {
    && t.gems.Keys == s.gems.Keys
    && forall g :: g in s.gems ==>
         && t.gems[g].column == s.gems[g].column && t.gems[g].row == s.gems[g].row
         && t.gems[g].lastColumn == s.gems[g].lastColumn && t.gems[g].lastRow == s.gems[g].lastRow
  }

  lemma TrackedKept(s: State, t: State)
    requires Tracked(s) && WellFormed(t) && t.width == s.width && t.height == s.height && SameCoords(s, t)
    ensures Tracked(t)
  {
  }

  lemma TrackedCoordsInBounds(s: State)
    requires Tracked(s)
    ensures CoordsInBounds(s)
  {
  }

  // ---------------------------------------------------------------- swipes

  /** GetNeighboarGem's angle sectors, tested in the source's order: right
      (-45, 45], up (45, 135], left beyond 135 or at most -135, down
      [-135, -45). The down test is reached only by angles the first three
      refused, and exactly -45 passes none of them. */
  function Sector(angle: real): (r: Option<Direction>)
    ensures r == Some(Right) <==> -45.0 < angle <= 45.0
    ensures r == Some(Up) <==> 45.0 < angle <= 135.0
    ensures r == Some(Left) <==> angle > 135.0 || angle <= -135.0
    ensures r == Some(Down) <==> -135.0 < angle < -45.0
    ensures r.None? <==> angle == -45.0
  {
    if -45.0 < angle <= 45.0 then Some(Right)
    else if 45.0 < angle <= 135.0 then Some(Up)
    else if angle > 135.0 || angle <= -135.0 then Some(Left)
    else if angle < -45.0 && angle >= -135.0 then Some(Down)
    else None
  }

  /** The cell the neighbour lookup inspects, when it lies on the board. */
  function Target(s: State, g: GemId, d: Direction): (r: Option<GemId>)
    requires WellFormed(s) && Addressable(s, g)
    ensures r.Some? <==>
      InBounds(s, s.gems[g].column + d.Dx(), s.gems[g].row + d.Dy()) &&
      s.board[s.gems[g].column + d.Dx()][s.gems[g].row + d.Dy()].Some?
    ensures r.Some? ==> s.board[s.gems[g].column + d.Dx()][s.gems[g].row + d.Dy()] == r
  {
    var x, y := s.gems[g].column + d.Dx(), s.gems[g].row + d.Dy();
    if InBounds(s, x, y) then s.board[x][y] else None
  }

  /** The coordinate step GetHorizontalNeighboar / GetVerticalNeighboar give a
      gem: on the swipe axis the old coordinate goes to Last* and the gem moves
      `k` steps in direction `d`; the other axis, Last* included, is untouched. */
  function Shift(gem: Gem, d: Direction, k: int): (r: Gem)
    ensures d.Dy() == 0 ==> r.lastColumn == gem.column && r.column == gem.column + k * d.Dx()
    ensures d.Dx() == 0 ==> r.lastRow == gem.row && r.row == gem.row + k * d.Dy()
    ensures d.Dy() == 0 ==> r.row == gem.row && r.lastRow == gem.lastRow
    ensures d.Dx() == 0 ==> r.column == gem.column && r.lastColumn == gem.lastColumn
    ensures r.(column := gem.column, row := gem.row, lastColumn := gem.lastColumn, lastRow := gem.lastRow) == gem
  {
    if d.Dy() == 0 then gem.(lastColumn := gem.column, column := gem.column + k * d.Dx())
    else gem.(lastRow := gem.row, row := gem.row + k * d.Dy())
  }

  /** The neighbour lookup as written: no neighbour (off the board or an empty
      cell) leaves everything alone; otherwise the neighbour steps back against
      `d` and then the selected gem steps along `d`, each recording only the
      coordinate of the swipe axis. The board array is not touched. */
  function Neighbour(s: State, g: GemId, d: Direction): (r: (State, Option<GemId>))
    requires WellFormed(s) && Addressable(s, g)
    ensures r.1 == Target(s, g, d)
    ensures r.1.None? ==> r.0 == s
    ensures r.0.board == s.board && r.0.width == s.width && r.0.height == s.height && r.0.gems.Keys == s.gems.Keys
    ensures r.1.Some? && r.1.value != g ==>
      r.0.gems[g] == Shift(s.gems[g], d, 1) && r.0.gems[r.1.value] == Shift(s.gems[r.1.value], d, -1)
    ensures forall h :: h in s.gems && h != g && Some(h) != r.1 ==> r.0.gems[h] == s.gems[h]
  {
    match Target(s, g, d)
    case None => (s, None)
    case Some(n) =>
      var s1 := s.(gems := s.gems[n := Shift(s.gems[n], d, -1)]);
      (s1.(gems := s1.gems[g := Shift(s1.gems[g], d, 1)]), Some(n))
  }

  /** On a consistent board a found neighbour is another gem, and the lookup
      exchanges the two gems' coordinates: the selected gem names the
      neighbour's cell and the neighbour the selected gem's, each having
      recorded its old coordinate on the swipe axis. */
  lemma NeighbourExchanges(s: State, g: GemId, d: Direction)
    requires WellFormed(s) && Consistent(s) && Addressable(s, g) && Placed(s, g)
    requires Neighbour(s, g, d).1.Some?
    ensures var (r, n) := Neighbour(s, g, d);
      && n.value != g && Placed(s, n.value)
      && r.gems[g].column == s.gems[n.value].column && r.gems[g].row == s.gems[n.value].row
      && r.gems[n.value].column == s.gems[g].column && r.gems[n.value].row == s.gems[g].row
      && (d.Dy() == 0 ==> r.gems[g].lastColumn == s.gems[g].column && r.gems[n.value].lastColumn == s.gems[n.value].column)
      && (d.Dx() == 0 ==> r.gems[g].lastRow == s.gems[g].row && r.gems[n.value].lastRow == s.gems[n.value].row)
  {
    var n := Neighbour(s, g, d).1.value;
    assert s.board[s.gems[g].column + d.Dx()][s.gems[g].row + d.Dy()] == Some(n);
  }

  /** The lookup with both Last* coordinates recorded, so that a return to
      them restores the pre-swipe cell whatever the other axis held. */
  function ShiftFixed(gem: Gem, d: Direction, k: int): (r: Gem)
    ensures r.lastColumn == gem.column && r.lastRow == gem.row
    ensures r.column == gem.column + k * d.Dx() && r.row == gem.row + k * d.Dy()
    ensures r.(column := gem.column, row := gem.row, lastColumn := gem.lastColumn, lastRow := gem.lastRow) == gem
  {
    gem.(lastColumn := gem.column, lastRow := gem.row, column := gem.column + k * d.Dx(), row := gem.row + k * d.Dy())
  }

  /** The neighbour lookup with both Last* coordinates recorded. */
  function NeighbourFixed(s: State, g: GemId, d: Direction): (r: (State, Option<GemId>))
    requires WellFormed(s) && Addressable(s, g)
    ensures r.1 == Target(s, g, d)
    ensures r.1.None? ==> r.0 == s
    ensures r.0.board == s.board && r.0.width == s.width && r.0.height == s.height && r.0.gems.Keys == s.gems.Keys
    ensures r.1.Some? && r.1.value != g ==>
      r.0.gems[g] == ShiftFixed(s.gems[g], d, 1) && r.0.gems[r.1.value] == ShiftFixed(s.gems[r.1.value], d, -1)
    ensures forall h :: h in s.gems && h != g && Some(h) != r.1 ==> r.0.gems[h] == s.gems[h]
  {
    match Target(s, g, d)
    case None => (s, None)
    case Some(n) =>
      var s1 := s.(gems := s.gems[n := ShiftFixed(s.gems[n], d, -1)]);
      (s1.(gems := s1.gems[g := ShiftFixed(s1.gems[g], d, 1)]), Some(n))
  }

  // ------------------------------------------------------------ gem pairs

  /** A pending swap: the swiped gem, its neighbour, and whether the swap
      produced a match. A null reference is None. */
  datatype Pair = Pair(selected: Option<GemId>, neighbour: Option<GemId>, hasMatch: bool)

  /** The pair's gems are known records (when not null). */
  predicate Known(s: State, p: Pair) {
    && (p.selected.Some? ==> p.selected.value in s.gems)
    && (p.neighbour.Some? ==> p.neighbour.value in s.gems)
  }

  /** The outcome of one UpdateMovements call: the state, the pair, whether
      the call returned true (the pair is finished), and how many AddScore
      calls the destruction made. */
  datatype PairStep = PairStep(s: State, pair: Pair, done: bool, scoreCalls: nat)

  lemma ProcessMovementKeeps(s: State, g: GemId, obs: Axes)
    requires Tracked(s) && g in s.gems
    ensures Addressable(s, g) && Tracked(ProcessMovement(s, g, obs).s)
    ensures SameCoords(s, ProcessMovement(s, g, obs).s)
  {
    TrackedKept(s, ProcessMovement(s, g, obs).s);
  }

  lemma HasMatchesKeeps(s: State, a: GemId, b: GemId)
    requires Tracked(s) && a in s.gems && b in s.gems
    ensures Addressable(s, a) && Addressable(s, b)
    ensures Tracked(HasMatches(s, a, b).s) && SameCoords(s, HasMatches(s, a, b).s)
  {
    TrackedKept(s, HasMatches(s, a, b).s);
  }

  lemma DestroyKeeps(s: State)
    requires Tracked(s)
    ensures CoordsInBounds(s)
    ensures Tracked(DestroyAllMatchedGems(s).s) && SameCoords(s, DestroyAllMatchedGems(s).s)
  {
    TrackedCoordsInBounds(s);
    TrackedKept(s, DestroyAllMatchedGems(s).s);
  }

  /** The cell writes UpdateGemBoard and ReturnToLastPosition make keep every
      record naming a cell. */
  lemma UpdateGemBoardKeeps(s: State, g: GemId)
    requires Tracked(s) && g in s.gems
    ensures Addressable(s, g) && Tracked(UpdateGemBoard(s, g)) && SameCoords(s, UpdateGemBoard(s, g))
  {
  }

  lemma ReturnKeeps(s: State, g: GemId)
    requires Tracked(s) && g in s.gems
    ensures Tracked(ReturnToLastPosition(s, g))
    ensures forall h :: h in s.gems && h != g ==> ReturnToLastPosition(s, g).gems[h] == s.gems[h]
  {
  }

  /** The pair check once both gems have stopped: HasMatches is asked twice
      (the first answer is dropped); no match sends both gems back to their
      Last* coordinates; a match destroys every matched gem, then each swapped
      gem still active writes itself into the cell it now names. */
  function Settle(s: State, p: Pair, a: GemId, b: GemId): (r: PairStep)
    requires Tracked(s) && a in s.gems && b in s.gems
    ensures Tracked(r.s) && r.s.width == s.width && r.s.height == s.height && r.s.gems.Keys == s.gems.Keys
    ensures r.done
  {
    HasMatchesKeeps(s, a, b);
    var h1 := HasMatches(s, a, b);
    HasMatchesKeeps(h1.s, a, b);
    var h2 := HasMatches(h1.s, a, b);
    if !h2.found then
      ReturnKeeps(h2.s, a);
      var r1 := ReturnToLastPosition(h2.s, a);
      ReturnKeeps(r1, b);
      PairStep(ReturnToLastPosition(r1, b), p, true, 0)
    else
      DestroyKeeps(h2.s);
      var dd := DestroyAllMatchedGems(h2.s);
      var d := dd.s;
      UpdateGemBoardKeeps(d, a);
      var u1 := if d.gems[a].active then UpdateGemBoard(d, a) else d;
      UpdateGemBoardKeeps(u1, b);
      var u2 := if u1.gems[b].active then UpdateGemBoard(u1, b) else u1;
      PairStep(u2, p.(hasMatch := true), true, dd.scoreCalls)
  }

  /** GemPair.UpdateMovements for one tick, given each gem's convergence
      report. The neighbour is ticked only once the selected gem has stopped
      (the source's short-circuit `&&`). */
  function UpdateMovements(s: State, p: Pair, selObs: Axes, nbObs: Axes): (r: PairStep)
    requires Tracked(s) && Known(s, p)
    ensures Tracked(r.s) && r.s.width == s.width && r.s.height == s.height && r.s.gems.Keys == s.gems.Keys
    ensures r.done <==>
      p.selected.Some? && p.neighbour.Some? && !selObs.hFar && !selObs.vFar && !nbObs.hFar && !nbObs.vFar
    ensures !r.done ==> r.pair == p && r.scoreCalls == 0
    ensures r.pair == p || r.pair == p.(hasMatch := true)
  {
    if p.selected.None? || p.neighbour.None? then PairStep(s, p, false, 0)
    else
      var a, b := p.selected.value, p.neighbour.value;
      ProcessMovementKeeps(s, a, selObs);
      var m1 := ProcessMovement(s, a, selObs);
      if m1.moving then PairStep(m1.s, p, false, 0)
      else
        ProcessMovementKeeps(m1.s, b, nbObs);
        var m2 := ProcessMovement(m1.s, b, nbObs);
        if m2.moving then PairStep(m2.s, p, false, 0)
        else Settle(m2.s, p, a, b)
  }

  /** When neither gem of the pair finds a match, Settle sends both gems back:
      each takes its Last* coordinates as its cell and writes itself there,
      nothing is destroyed and the pair keeps HasMatch false. */
  lemma SettleRejects(s: State, p: Pair, a: GemId, b: GemId)
    requires Tracked(s) && a in s.gems && b in s.gems
    requires !Finds(s, Some(a)) && !Finds(s, Some(b))
    ensures Addressable(s, a) && Addressable(s, b)
    ensures var r := Settle(s, p, a, b);
      && r.pair == p && r.scoreCalls == 0
      && r.s == ReturnToLastPosition(ReturnToLastPosition(s, a), b)
  {
    HasMatchesKeeps(s, a, b);
  }

  /** When a gem of the pair finds a match, Settle marks the pair as matched
      and every swapped gem still active names a cell that holds it. The
      double HasMatches acts as one call. When both gems stand in their cells
      (as their arrivals leave them), the board keeps I2 and no matched gem
      is left on it. */
  lemma SettleMatches(s: State, p: Pair, a: GemId, b: GemId)
    requires Tracked(s) && Consistent(s) && a in s.gems && b in s.gems
    requires Finds(s, Some(a)) || Finds(s, Some(b))
    ensures var r := Settle(s, p, a, b);
      && r.pair == p.(hasMatch := true)
      && (r.s.gems[b].active ==> Placed(r.s, b))
      && (r.s.gems[a].active && (r.s.gems[a].column != r.s.gems[b].column || r.s.gems[a].row != r.s.gems[b].row) ==>
            Placed(r.s, a))
    ensures Placed(s, a) && Placed(s, b) ==>
      var r := Settle(s, p, a, b);
      Consistent(r.s) && forall x, y :: InBounds(r.s, x, y) ==> !MatchedCell(r.s, x, y)
  {
    SettleMatchesPairs(s, p, a, b);
    if Placed(s, a) && Placed(s, b) {
      SettleMatchesClears(s, p, a, b);
    }
  }

  /** The first half of SettleMatches: the pair and the swapped gems. */
  lemma SettleMatchesPairs(s: State, p: Pair, a: GemId, b: GemId)
    requires Tracked(s) && Consistent(s) && a in s.gems && b in s.gems
    requires Finds(s, Some(a)) || Finds(s, Some(b))
    ensures var r := Settle(s, p, a, b);
      && r.pair == p.(hasMatch := true)
      && (r.s.gems[b].active ==> Placed(r.s, b))
      && (r.s.gems[a].active && (r.s.gems[a].column != r.s.gems[b].column || r.s.gems[a].row != r.s.gems[b].row) ==>
            Placed(r.s, a))
  {
    HasMatchesKeeps(s, a, b);
    HasMatchesIdempotent(s, a, b);
    var h := HasMatches(s, a, b).s;
    DestroyKeeps(h);
    var d := DestroyAllMatchedGems(h).s;
    UpdateGemBoardKeeps(d, a);
    var u1 := if d.gems[a].active then UpdateGemBoard(d, a) else d;
    UpdateGemBoardKeeps(u1, b);
  }

  /** The second half of SettleMatches: with both gems in their cells, the
      board after Settle is the board after the destruction alone. */
  lemma SettleMatchesClears(s: State, p: Pair, a: GemId, b: GemId)
    requires Tracked(s) && Consistent(s) && Placed(s, a) && Placed(s, b)
    requires Finds(s, Some(a)) || Finds(s, Some(b))
    ensures var r := Settle(s, p, a, b);
      Consistent(r.s) && forall x, y :: InBounds(r.s, x, y) ==> !MatchedCell(r.s, x, y)
  {
    HasMatchesKeeps(s, a, b);
    var h := HasMatches(s, a, b).s;
    assert Consistent(h) && Placed(h, a) && Placed(h, b) by { FlagsKeepConsistent(s, h); }
    assert Settle(s, p, a, b).s == DestroyAllMatchedGems(h).s by {
      HasMatchesIdempotent(s, a, b);
      DestroyKeeps(h);
      SurvivorsStayPut(h, a, b);
    }
    SurvivorsStayPut(h, a, b);
  }

  /** On an I2 board where both swapped gems stand in their cells, the
      destruction empties every matched cell and keeps I2, and a swapped gem
      that survives it still stands in its cell, so its UpdateGemBoard
      writes nothing new. */
  lemma SurvivorsStayPut(h: State, a: GemId, b: GemId)
    requires WellFormed(h) && Consistent(h) && Placed(h, a) && Placed(h, b)
    ensures CoordsInBounds(h)
    ensures var d := DestroyAllMatchedGems(h).s;
      && Consistent(d) && (forall x, y :: InBounds(d, x, y) ==> !MatchedCell(d, x, y))
      && Addressable(d, a) && Addressable(d, b)
      && (d.gems[a].active ==> UpdateGemBoard(d, a) == d)
      && (d.gems[b].active ==> UpdateGemBoard(d, b) == d)
  {
    DestroyAllMatchedGemsSpec(h);
    var d := DestroyAllMatchedGems(h).s;
    if d.gems[a].active { UpdateGemBoardPlaced(d, a); }
    if d.gems[b].active { UpdateGemBoardPlaced(d, b); }
  }

  /** UpdateGemBoard of a gem already standing in its cell changes nothing. */
  lemma UpdateGemBoardPlaced(s: State, g: GemId)
    requires WellFormed(s) && Placed(s, g)
    ensures Addressable(s, g) && UpdateGemBoard(s, g) == s
  {
    var c := s.gems[g].column;
    assert s.board[c][s.gems[g].row := Some(g)] == s.board[c];
    assert s.board[c := s.board[c]] == s.board;
  }

  /** The board writes both gems of a swap make when their movements finish:
      each writes itself into the cell its coordinates name. */
  function Arrive(s: State, a: GemId, b: GemId): (r: State)
    requires Tracked(s) && a in s.gems && b in s.gems
    ensures Tracked(r) && SameCoords(s, r) && r.width == s.width && r.height == s.height && r.gems == s.gems
    ensures Placed(r, b)
  {
    UpdateGemBoardKeeps(s, a);
    var s1 := UpdateGemBoard(s, a);
    UpdateGemBoardKeeps(s1, b);
    UpdateGemBoard(s1, b)
  }

  /** A swipe that finds no match, as written: the lookup, both arrivals,
      both returns. */
  function RejectedSwipe(s: State, g: GemId, d: Direction): (r: State)
    requires Tracked(s) && Consistent(s) && g in s.gems
    ensures WellFormed(r) && r.width == s.width && r.height == s.height
  {
    NeighbourKeeps(s, g, d);
    var (t, n) := Neighbour(s, g, d);
    if n.None? then s
    else
      var u := Arrive(t, g, n.value);
      ReturnKeeps(u, g);
      ReturnToLastPosition(ReturnToLastPosition(u, g), n.value)
  }

  /** The same swipe with the corrected lookup. */
  function RejectedSwipeFixed(s: State, g: GemId, d: Direction): (r: State)
    requires Tracked(s) && Consistent(s) && g in s.gems
    ensures WellFormed(r) && r.width == s.width && r.height == s.height
  {
    NeighbourFixedKeeps(s, g, d);
    var (t, n) := NeighbourFixed(s, g, d);
    if n.None? then s
    else
      var u := Arrive(t, g, n.value);
      ReturnKeeps(u, g);
      ReturnToLastPosition(ReturnToLastPosition(u, g), n.value)
  }

  /** On a consistent board a found neighbour is another gem whose own
      coordinates name the target cell. */
  lemma TargetIsOther(s: State, g: GemId, d: Direction)
    requires WellFormed(s) && Consistent(s) && Addressable(s, g) && Target(s, g, d).Some?
    ensures var n := Target(s, g, d).value;
      && n != g && n in s.gems
      && s.gems[n].column == s.gems[g].column + d.Dx() && s.gems[n].row == s.gems[g].row + d.Dy()
  {
    assert s.board[s.gems[g].column + d.Dx()][s.gems[g].row + d.Dy()] == Target(s, g, d);
  }

  /** On a consistent board both lookups keep every record naming a cell. */
  lemma NeighbourKeeps(s: State, g: GemId, d: Direction)
    requires Tracked(s) && Consistent(s) && g in s.gems
    ensures Addressable(s, g) && Tracked(Neighbour(s, g, d).0)
  {
    if Target(s, g, d).Some? {
      TargetIsOther(s, g, d);
    }
  }

  lemma NeighbourFixedKeeps(s: State, g: GemId, d: Direction)
    requires Tracked(s) && Consistent(s) && g in s.gems
    ensures Addressable(s, g) && Tracked(NeighbourFixed(s, g, d).0)
  {
    if Target(s, g, d).Some? {
      TargetIsOther(s, g, d);
    }
  }

  /** Cell (a, b) is neither gem's cell. */
  predicate OffPair(s: State, a: int, b: int, g: GemId, m: GemId)
    requires g in s.gems && m in s.gems
  {
    (a != s.gems[g].column || b != s.gems[g].row) && (a != s.gems[m].column || b != s.gems[m].row)
  }

  /** The two arrivals of a swap: each gem writes itself into the other's old
      cell; no other cell changes. */
  lemma ArriveCells(s: State, t: State, g: GemId, m: GemId)
    requires Tracked(s) && Tracked(t) && t.board == s.board && t.width == s.width && t.height == s.height
    requires Placed(s, g) && Placed(s, m) && g != m && g in t.gems && m in t.gems
    requires t.gems[g].column == s.gems[m].column && t.gems[g].row == s.gems[m].row
    requires t.gems[m].column == s.gems[g].column && t.gems[m].row == s.gems[g].row
    ensures var u := Arrive(t, g, m);
      && u.board[s.gems[m].column][s.gems[m].row] == Some(g)
      && u.board[s.gems[g].column][s.gems[g].row] == Some(m)
      && forall a, b :: InBounds(s, a, b) && OffPair(s, a, b, g, m) ==> u.board[a][b] == s.board[a][b]
  {
    assert s.gems[g].column != s.gems[m].column || s.gems[g].row != s.gems[m].row;
  }

  /** The conditions under which two returns undo the two arrivals of a swap
      of `g` and `m`: both gems were placed in `s`, remember their cells of `s`
      in Last*, stand in each other's cells in `u`, and no other cell moved. */
  predicate Undoable(s: State, u: State, g: GemId, m: GemId)
  {
    && Tracked(s) && Tracked(u) && u.width == s.width && u.height == s.height
    && Placed(s, g) && Placed(s, m) && g != m && g in u.gems && m in u.gems
    && u.gems[g].lastColumn == s.gems[g].column && u.gems[g].lastRow == s.gems[g].row
    && u.gems[m].lastColumn == s.gems[m].column && u.gems[m].lastRow == s.gems[m].row
    && u.board[s.gems[m].column][s.gems[m].row] == Some(g)
    && u.board[s.gems[g].column][s.gems[g].row] == Some(m)
  }

  /** One cell after the two returns: the two gems' old cells hold them again,
      and any other cell is as the arrivals left it, so a cell the arrivals
      did not touch is back as it was in `s`. */
  lemma ReturnCell(s: State, u: State, g: GemId, m: GemId, a: int, b: int)
    requires Undoable(s, u, g, m) && InBounds(s, a, b)
    requires OffPair(s, a, b, g, m) ==> u.board[a][b] == s.board[a][b]
    ensures ReturnToLastPosition(ReturnToLastPosition(u, g), m).board[a][b] == s.board[a][b]
  {
    var v := ReturnToLastPosition(u, g);
    assert v.gems[m] == u.gems[m];
    assert s.gems[g].column != s.gems[m].column || s.gems[g].row != s.gems[m].row;
  }

  /** The two returns of a rejected swap, each gem writing itself into its
      Last* cell, undo the two arrivals. */
  lemma ReturnCells(s: State, u: State, g: GemId, m: GemId)
    requires Undoable(s, u, g, m)
    requires forall a, b :: InBounds(s, a, b) && OffPair(s, a, b, g, m) ==> u.board[a][b] == s.board[a][b]
    ensures ReturnToLastPosition(ReturnToLastPosition(u, g), m).board == s.board
  {
    var r := ReturnToLastPosition(ReturnToLastPosition(u, g), m);
    ReturnGrid(s, u, g, m);
    BoardExtensionality(r, s);
  }

  /** ReturnCells cell by cell. */
  lemma ReturnGrid(s: State, u: State, g: GemId, m: GemId)
    requires Undoable(s, u, g, m)
    requires forall a, b :: InBounds(s, a, b) && OffPair(s, a, b, g, m) ==> u.board[a][b] == s.board[a][b]
    ensures var r := ReturnToLastPosition(ReturnToLastPosition(u, g), m);
      forall a, b :: InBounds(s, a, b) ==> r.board[a][b] == s.board[a][b]
  {
    forall a, b | InBounds(s, a, b)
      ensures ReturnToLastPosition(ReturnToLastPosition(u, g), m).board[a][b] == s.board[a][b]
    {
      ReturnCell(s, u, g, m, a, b);
    }
  }

  /** The corrected lookup on a consistent board: both gems record their old
      cells in Last* and take each other's cells. */
  lemma NeighbourFixedExchanges(s: State, g: GemId, d: Direction)
    requires Tracked(s) && Consistent(s) && Placed(s, g) && Target(s, g, d).Some?
    ensures var (t, n) := NeighbourFixed(s, g, d);
      var m := n.value;
      && m != g && Placed(s, m) && Tracked(t) && t.board == s.board && m in t.gems && g in t.gems
      && t.gems[g].column == s.gems[m].column && t.gems[g].row == s.gems[m].row
      && t.gems[m].column == s.gems[g].column && t.gems[m].row == s.gems[g].row
      && t.gems[g].lastColumn == s.gems[g].column && t.gems[g].lastRow == s.gems[g].row
      && t.gems[m].lastColumn == s.gems[m].column && t.gems[m].lastRow == s.gems[m].row
      && forall h :: h in s.gems && h != g && h != m ==> t.gems[h] == s.gems[h]
  {
    TargetIsOther(s, g, d);
    NeighbourFixedKeeps(s, g, d);
  }

  /** With the corrected lookup, a swipe that finds no match puts the board
      back exactly as it was. */
  lemma RejectedSwipeFixedRestores(s: State, g: GemId, d: Direction)
    requires Tracked(s) && Consistent(s) && Placed(s, g)
    ensures RejectedSwipeFixed(s, g, d).board == s.board
  {
    if Target(s, g, d).Some? {
      NeighbourFixedExchanges(s, g, d);
      var (t, n) := NeighbourFixed(s, g, d);
      var m := n.value;
      ArriveCells(s, t, g, m);
      ReturnCells(s, Arrive(t, g, m), g, m);
    }
  }

  /** With the corrected lookup, a swipe that finds no match puts every gem
      back on its old cell and changes no other field but Last*. */
  lemma RejectedSwipeFixedRecords(s: State, g: GemId, d: Direction)
    requires Tracked(s) && Consistent(s) && Placed(s, g)
    ensures var r := RejectedSwipeFixed(s, g, d);
      && r.gems.Keys == s.gems.Keys
      && forall h :: h in s.gems ==>
           r.gems[h] == s.gems[h].(lastColumn := r.gems[h].lastColumn, lastRow := r.gems[h].lastRow)
  {
    if Target(s, g, d).Some? {
      NeighbourFixedExchanges(s, g, d);
      var (t, n) := NeighbourFixed(s, g, d);
      var m := n.value;
      var u := Arrive(t, g, m);
      ReturnRecords(u, g, m);
      var r := RejectedSwipeFixed(s, g, d);
      assert r == ReturnToLastPosition(ReturnToLastPosition(u, g), m);
      forall h | h in s.gems
        ensures r.gems[h] == s.gems[h].(lastColumn := r.gems[h].lastColumn, lastRow := r.gems[h].lastRow)
      {
        if h == g {
          assert t.gems[g] == ShiftFixed(s.gems[g], d, 1);
        } else if h == m {
          assert t.gems[m] == ShiftFixed(s.gems[m], d, -1);
        }
      }
    }
  }

  /** Two returns change only the two gems' coordinates, to their Last* ones. */
  lemma ReturnRecords(u: State, g: GemId, m: GemId)
    requires Tracked(u) && g in u.gems && m in u.gems && g != m
    ensures var r := ReturnToLastPosition(ReturnToLastPosition(u, g), m);
      && r.gems.Keys == u.gems.Keys
      && r.gems[g] == u.gems[g].(column := u.gems[g].lastColumn, row := u.gems[g].lastRow)
      && r.gems[m] == u.gems[m].(column := u.gems[m].lastColumn, row := u.gems[m].lastRow)
      && forall h :: h in u.gems && h != g && h != m ==> r.gems[h] == u.gems[h]
  {
    ReturnKeeps(u, g);
  }

  /** The corrected rejected swipe keeps the board consistent. */
  lemma RejectedSwipeFixedConsistent(s: State, g: GemId, d: Direction)
    requires Tracked(s) && Consistent(s) && Placed(s, g)
    ensures Consistent(RejectedSwipeFixed(s, g, d))
  {
    RejectedSwipeFixedRestores(s, g, d);
    RejectedSwipeFixedRecords(s, g, d);
  }

  /** A consistent 2 x 2 board where gem 0 (at column 0, row 1) still carries
      LastRow 0 from before a shuffle; gem 3 is its right-hand neighbour. */
  function StaleBoard(): State {
    State(2, 2, [[Some(2), Some(0)], [Some(1), Some(3)]],
          map[0 := Gem(0, 0, 1, 0, 0, false, true, false, false),
              1 := Gem(1, 1, 0, 1, 0, false, true, false, false),
              2 := Gem(2, 0, 0, 0, 1, false, true, false, false),
              3 := Gem(3, 1, 1, 1, 1, false, true, false, false)])
  }

  /** StaleBoard meets the conditions of RejectedSwipeMisplaces for a swipe
      of gem 0 to the right. */
  lemma StaleBoardValid()
    ensures var s := StaleBoard();
      && Tracked(s) && Consistent(s) && Placed(s, 0)
      && Target(s, 0, Right) == Some(3) && s.gems[0].lastRow != s.gems[0].row
  {
    var s := StaleBoard();
    assert forall g :: g in s.gems ==> g == 0 || g == 1 || g == 2 || g == 3;
  }

  /** As written, a horizontal swipe records only LastColumn, so when the
      swiped gem's LastRow is not its row (as after a shuffle), a rejected
      swipe sends it to (its column, LastRow): it writes itself over the gem
      in that cell and the board no longer matches what it was. */
  lemma RejectedSwipeMisplaces(s: State, g: GemId, d: Direction)
    requires Tracked(s) && Consistent(s) && Placed(s, g) && d.Dy() == 0 && Target(s, g, d).Some?
    requires s.gems[g].lastRow != s.gems[g].row
    ensures var r := RejectedSwipe(s, g, d);
      && r.gems[g].column == s.gems[g].column && r.gems[g].row == s.gems[g].lastRow
      && r.board[s.gems[g].column][s.gems[g].lastRow] == Some(g)
      && s.board[s.gems[g].column][s.gems[g].lastRow] != Some(g)
      && r.board != s.board
  {
    TargetIsOther(s, g, d);
    NeighbourKeeps(s, g, d);
    var (t, n) := Neighbour(s, g, d);
    var m := n.value;
    assert t.gems[g] == Shift(s.gems[g], d, 1);
    assert t.gems[m] == Shift(s.gems[m], d, -1);
    var u := Arrive(t, g, m);
    ReturnRecords(u, g, m);
    ReturnKeeps(u, g);
    var r1 := ReturnToLastPosition(u, g);
    var r := ReturnToLastPosition(r1, m);
    assert r == RejectedSwipe(s, g, d);
    var gx, stale := s.gems[g].column, s.gems[g].lastRow;
    assert r1.board[gx][stale] == Some(g);
    assert r1.gems[m].lastColumn != gx;
    assert r.board[gx][stale] == Some(g);
    assert s.board[gx][stale] != Some(g);
  }

  /** A 2 x 2 board at rest: every gem's Last* coordinates name its cell. */
  function RestBoard(): State {
    State(2, 2, [[Some(0), Some(2)], [Some(1), Some(3)]],
          map[0 := Gem(0, 0, 0, 0, 0, false, true, false, false),
              1 := Gem(1, 1, 0, 1, 0, false, true, false, false),
              2 := Gem(2, 0, 1, 0, 1, false, true, false, false),
              3 := Gem(3, 1, 1, 1, 1, false, true, false, false)])
  }

  lemma RestBoardValid()
    ensures var rest := RestBoard();
      && WellFormed(rest) && Consistent(rest) && Full(rest) && Distinct(rest)
      && ValidOrders(rest, [0, 1], [[1, 0], [0, 1]])
  {
    var rest := RestBoard();
    assert 1 in [1, 0] && 0 in [1, 0] && 0 in [0, 1] && 1 in [0, 1];
    ConsistentDistinct(rest);
  }

  lemma RestBoardShuffledCells()
    ensures WellFormed(RestBoard()) && ValidOrders(RestBoard(), [0, 1], [[1, 0], [0, 1]])
    ensures ShuffledBoard(RestBoard(), [0, 1], [[1, 0], [0, 1]]) == StaleBoard().board
  {
    RestBoardValid();
    var board := ShuffledBoard(RestBoard(), [0, 1], [[1, 0], [0, 1]]);
    assert board[0][0] == Some(2) && board[0][1] == Some(0) && board[1][0] == Some(1) && board[1][1] == Some(3);
    assert board[0] == [Some(2), Some(0)] && board[1] == [Some(1), Some(3)];
  }

  /** StaleBoard is reachable: it is what ShuffleBoard makes of RestBoard
      when the first new column takes its rows in reverse order. Only Column
      and Row are rewritten, so gem 0 keeps LastRow 0 at row 1. */
  lemma StaleBoardAfterShuffle()
    ensures WellFormed(RestBoard()) && Full(RestBoard()) && ValidOrders(RestBoard(), [0, 1], [[1, 0], [0, 1]])
    ensures ShuffleBoard(RestBoard(), [0, 1], [[1, 0], [0, 1]]) == StaleBoard()
  {
    var rest := RestBoard();
    RestBoardValid();
    RestBoardShuffledCells();
    ShuffleBoardRecords(rest, [0, 1], [[1, 0], [0, 1]]);
    var r := ShuffleBoard(rest, [0, 1], [[1, 0], [0, 1]]);
    assert r.board == StaleBoard().board;
    assert r.gems[2] == rest.gems[2].(column := 0, row := 0) by { assert r.board[0][0] == Some(2); }
    assert r.gems[0] == rest.gems[0].(column := 0, row := 1) by { assert r.board[0][1] == Some(0); }
    assert r.gems[1] == rest.gems[1].(column := 1, row := 0) by { assert r.board[1][0] == Some(1); }
    assert r.gems[3] == rest.gems[3].(column := 1, row := 1) by { assert r.board[1][1] == Some(3); }
    assert r.gems == StaleBoard().gems;
  }

  /** While the selected gem still moves, the neighbour is not even ticked:
      the tick is the selected gem's alone. */
  lemma UpdateMovementsShortCircuits(s: State, p: Pair, selObs: Axes, nbObs: Axes)
    requires Tracked(s) && Known(s, p) && p.selected.Some? && p.neighbour.Some?
    requires selObs.hFar || selObs.vFar
    ensures Addressable(s, p.selected.value)
    ensures UpdateMovements(s, p, selObs, nbObs).s == ProcessMovement(s, p.selected.value, selObs).s
  {
  }

  /** The state after one tick of the selected gem and then the neighbour. */
  function BothTicked(s: State, a: GemId, b: GemId, selObs: Axes, nbObs: Axes): (r: State)
    requires Tracked(s) && a in s.gems && b in s.gems
    ensures Tracked(r) && r.gems.Keys == s.gems.Keys
  {
    ProcessMovementKeeps(s, a, selObs);
    var m1 := ProcessMovement(s, a, selObs).s;
    ProcessMovementKeeps(m1, b, nbObs);
    ProcessMovement(m1, b, nbObs).s
  }

  /** Once both gems have stopped, the pair is matched exactly when the
      selected gem's or the neighbour's FindMatches succeeds on the board as
      the arrivals left it: the second HasMatches answers as the first. */
  lemma UpdateMovementsMatch(s: State, p: Pair, selObs: Axes, nbObs: Axes)
    requires Tracked(s) && Known(s, p) && p.selected.Some? && p.neighbour.Some?
    requires !selObs.hFar && !selObs.vFar && !nbObs.hFar && !nbObs.vFar
    ensures var a, b := p.selected.value, p.neighbour.value;
      var m := BothTicked(s, a, b, selObs, nbObs);
      && Addressable(m, a) && Addressable(m, b)
      && (UpdateMovements(s, p, selObs, nbObs).pair.hasMatch <==> p.hasMatch || Finds(m, Some(a)) || Finds(m, Some(b)))
  {
    var a, b := p.selected.value, p.neighbour.value;
    var m := BothTicked(s, a, b, selObs, nbObs);
    HasMatchesKeeps(m, a, b);
    HasMatchesIdempotent(m, a, b);
  }

  // ------------------------------------------------------ the flag machine

  /** The controller's fields: the pending pairs and the three flags. */
  datatype Flags = Flags(pairs: seq<Pair>, needFall: bool, hasNewGems: bool, allowSwipe: bool)

  /** Every pending pair names known gems. */
  predicate AllKnown(s: State, pairs: seq<Pair>) {
    forall i :: 0 <= i < |pairs| ==> Known(s, pairs[i])
  }

  /** SwipeGem: angle 0 (no drag) is ignored; otherwise the sector picks a
      direction and, when the lookup finds a neighbour, a new pair is queued.
      AllowSwipe is not consulted. The lookup is the corrected one (both Last*
      coordinates recorded); see RejectedSwipeMisplaces for the as-written one. */
  function SwipeGem(c: Flags, s: State, g: GemId, angle: real): (r: (Flags, State))
    requires WellFormed(s) && Addressable(s, g)
    ensures angle == 0.0 || Sector(angle).None? ==> r == (c, s)
    ensures angle != 0.0 && Sector(angle).Some? ==>
      var n := Target(s, g, Sector(angle).value);
      && (n.None? ==> r == (c, s))
      && (n.Some? ==> r == (c.(pairs := c.pairs + [Pair(Some(g), n, false)]), NeighbourFixed(s, g, Sector(angle).value).0))
  {
    if angle == 0.0 then (c, s)
    else match Sector(angle)
      case None => (c, s)
      case Some(d) =>
        var (t, n) := NeighbourFixed(s, g, d);
        if n.None? then (c, s) else (c.(pairs := c.pairs + [Pair(Some(g), n, false)]), t)
  }

  /** Whatever AllowSwipe says, a swipe has the same effect. */
  lemma SwipeIgnoresAllowSwipe(c: Flags, s: State, g: GemId, angle: real, allow: bool)
    requires WellFormed(s) && Addressable(s, g)
    ensures SwipeGem(c.(allowSwipe := allow), s, g, angle).0 == SwipeGem(c, s, g, angle).0.(allowSwipe := allow)
    ensures SwipeGem(c.(allowSwipe := allow), s, g, angle).1 == SwipeGem(c, s, g, angle).1
  {
  }

  /** A swipe queues at most one pair, at the end, and touches no flag. */
  lemma SwipeQueuesOnePair(c: Flags, s: State, g: GemId, angle: real)
    requires WellFormed(s) && Addressable(s, g)
    ensures var r := SwipeGem(c, s, g, angle).0;
      && r.(pairs := c.pairs) == c
      && (r.pairs == c.pairs || (|r.pairs| == |c.pairs| + 1 && r.pairs[..|c.pairs|] == c.pairs))
  {
  }

  /** The outcome of the reverse loop over the pending pairs: the state, the
      pairs kept (those still moving), the needFallGems flag, whether some
      finished pair had a match, and the AddScore calls made. */
  datatype Sweep = Sweep(s: State, kept: seq<Pair>, needFall: bool, matched: bool, scoreCalls: nat)

  /** The loop of Update over the pairs, from the last one down: a pair whose
      UpdateMovements returns true is removed, and its HasMatch raises
      needFallGems; the others stay in their order. Against the per-pair
      steps of PairTrace: exactly the pairs whose step did not finish are
      kept, a match is reported exactly when a finished pair has HasMatch,
      and the score calls are all the steps'. */
  function ProcessPairs(s: State, pairs: seq<Pair>, obs: seq<(Axes, Axes)>, needFall: bool): (r: Sweep)
    requires Tracked(s) && |obs| == |pairs| && AllKnown(s, pairs)
    ensures Tracked(r.s) && r.s.width == s.width && r.s.height == s.height && r.s.gems.Keys == s.gems.Keys
    ensures r.needFall == (needFall || r.matched)
    ensures |r.kept| <= |pairs| && forall p :: p in r.kept ==> p in pairs
    ensures r.matched ==> |r.kept| < |pairs|
    ensures |pairs| == 0 ==> r == Sweep(s, [], needFall, false, 0)
    ensures var t := PairTrace(s, pairs, obs);
      && r.kept == Unfinished(pairs, t)
      && (r.matched <==> MatchFinished(t))
      && r.s == (if |t| == 0 then s else t[0].s)
      && r.scoreCalls == TraceScoreCalls(t)
    decreases |pairs|
  {
    if |pairs| == 0 then Sweep(s, [], needFall, false, 0)
    else
      var i := |pairs| - 1;
      var step := UpdateMovements(s, pairs[i], obs[i].0, obs[i].1);
      var hit := step.done && step.pair.hasMatch;
      PrefixIn(pairs, i);
      KeptKnown(s, step.s, pairs, pairs[..i]);
      var rest := ProcessPairs(step.s, pairs[..i], obs[..i], needFall || hit);
      var t := PairTrace(step.s, pairs[..i], obs[..i]);
      var r := Sweep(rest.s, if step.done then rest.kept else rest.kept + [pairs[i]],
                     rest.needFall, rest.matched || hit, rest.scoreCalls + step.scoreCalls);
      assert PairTrace(s, pairs, obs) == t + [step] by { PairTraceUnfold(s, pairs, obs); }
      assert && r.kept == Unfinished(pairs, t + [step])
             && (r.matched <==> MatchFinished(t + [step]))
             && r.s == (t + [step])[0].s
             && r.scoreCalls == TraceScoreCalls(t + [step]) by {
        SweepExtends(pairs[..i], pairs[i], t, step, rest, needFall);
        SplitLast(pairs);
      }
      r
  }

  /** The per-pair steps of Update's sweep: entry i is pair i's
      UpdateMovements, run on the state the later pairs left behind (the
      last pair runs on the state the sweep starts from); see
      PairTraceSteps. */
  function PairTrace(s: State, pairs: seq<Pair>, obs: seq<(Axes, Axes)>): (r: seq<PairStep>)
    requires Tracked(s) && |obs| == |pairs| && AllKnown(s, pairs)
    ensures |r| == |pairs|
    decreases |pairs|
  {
    if |pairs| == 0 then []
    else
      var i := |pairs| - 1;
      var step := UpdateMovements(s, pairs[i], obs[i].0, obs[i].1);
      PrefixIn(pairs, i);
      KeptKnown(s, step.s, pairs, pairs[..i]);
      PairTrace(step.s, pairs[..i], obs[..i]) + [step]
  }

  /** Each entry of the trace is its pair's UpdateMovements on the state the
      entry after it left, and the last entry runs on the starting state. */
  lemma {:induction false} PairTraceSteps(s: State, pairs: seq<Pair>, obs: seq<(Axes, Axes)>)
    requires Tracked(s) && |obs| == |pairs| && AllKnown(s, pairs)
    ensures var r := PairTrace(s, pairs, obs);
      && (forall i :: 0 <= i < |r| ==>
            Tracked(r[i].s) && r[i].s.gems.Keys == s.gems.Keys && r[i].s.width == s.width && r[i].s.height == s.height)
      && (|r| > 0 ==> r[|r| - 1] == UpdateMovements(s, pairs[|r| - 1], obs[|r| - 1].0, obs[|r| - 1].1))
      && (forall i :: 0 <= i < |r| - 1 ==>
            Known(r[i + 1].s, pairs[i]) && r[i] == UpdateMovements(r[i + 1].s, pairs[i], obs[i].0, obs[i].1))
    decreases |pairs|
  {
    if |pairs| > 0 {
      var i := |pairs| - 1;
      var step := UpdateMovements(s, pairs[i], obs[i].0, obs[i].1);
      PrefixIn(pairs, i);
      KeptKnown(s, step.s, pairs, pairs[..i]);
      var rest := PairTrace(step.s, pairs[..i], obs[..i]);
      assert PairTrace(s, pairs, obs) == rest + [step];
      PairTraceSteps(step.s, pairs[..i], obs[..i]);
      assert forall j :: 0 <= j < i ==> pairs[..i][j] == pairs[j] && obs[..i][j] == obs[j];
    }
  }

  /** The pairs whose step did not finish, in their order. */
  function Unfinished(pairs: seq<Pair>, steps: seq<PairStep>): (r: seq<Pair>)
    requires |steps| == |pairs|
    ensures |r| <= |pairs|
  {
    if |pairs| == 0 then []
    else (if steps[0].done then [] else [pairs[0]]) + Unfinished(pairs[1..], steps[1..])
  }

  /** Some step finished a pair that found a match. */
  predicate MatchFinished(steps: seq<PairStep>) {
    exists i :: 0 <= i < |steps| && steps[i].done && steps[i].pair.hasMatch
  }

  /** The AddScore calls of all steps. */
  function TraceScoreCalls(steps: seq<PairStep>): nat {
    if |steps| == 0 then 0 else steps[0].scoreCalls + TraceScoreCalls(steps[1..])
  }

  /** A trace extended by one step: the unfinished pairs gain that pair when
      its step did not finish, and the score calls add up. */
  lemma {:induction false} TraceSnoc(pairs: seq<Pair>, steps: seq<PairStep>, p: Pair, step: PairStep)
    requires |steps| == |pairs|
    ensures Unfinished(pairs + [p], steps + [step]) == Unfinished(pairs, steps) + (if step.done then [] else [p])
    ensures TraceScoreCalls(steps + [step]) == TraceScoreCalls(steps) + step.scoreCalls
    ensures MatchFinished(steps + [step]) <==> MatchFinished(steps) || (step.done && step.pair.hasMatch)
    decreases |pairs|
  {
    var ps, ss := pairs + [p], steps + [step];
    if |pairs| > 0 {
      assert ps[1..] == pairs[1..] + [p] && ss[1..] == steps[1..] + [step];
      TraceSnoc(pairs[1..], steps[1..], p, step);
    }
    if MatchFinished(ss) {
      var i :| 0 <= i < |ss| && ss[i].done && ss[i].pair.hasMatch;
      if i < |steps| {
        assert steps[i] == ss[i];
      }
    }
    if MatchFinished(steps) {
      var i :| 0 <= i < |steps| && steps[i].done && steps[i].pair.hasMatch;
      assert ss[i] == steps[i];
    }
    if step.done && step.pair.hasMatch {
      assert ss[|steps|] == step;
    }
  }

  /** One step of the trace: the last pair first, then the rest on the
      state its step leaves. */
  lemma PairTraceUnfold(s: State, pairs: seq<Pair>, obs: seq<(Axes, Axes)>)
    requires Tracked(s) && |obs| == |pairs| && AllKnown(s, pairs) && |pairs| > 0
    ensures var i := |pairs| - 1;
      var step := UpdateMovements(s, pairs[i], obs[i].0, obs[i].1);
      && Tracked(step.s) && AllKnown(step.s, pairs[..i])
      && PairTrace(s, pairs, obs) == PairTrace(step.s, pairs[..i], obs[..i]) + [step]
  {
    var i := |pairs| - 1;
    var step := UpdateMovements(s, pairs[i], obs[i].0, obs[i].1);
    PrefixIn(pairs, i);
    KeptKnown(s, step.s, pairs, pairs[..i]);
  }

  /** The combining step of ProcessPairs: a sweep that agrees with a
      trace agrees with that trace extended by one step. */
  lemma SweepExtends(pre: seq<Pair>, p: Pair, t: seq<PairStep>, step: PairStep, rest: Sweep, needFall: bool)
    requires |t| == |pre|
    requires var hit := step.done && step.pair.hasMatch;
      && rest.kept == Unfinished(pre, t)
      && (rest.matched <==> MatchFinished(t))
      && rest.needFall == (needFall || hit || MatchFinished(t))
      && rest.s == (if |t| == 0 then step.s else t[0].s)
      && rest.scoreCalls == TraceScoreCalls(t)
    ensures var hit := step.done && step.pair.hasMatch;
      var r := Sweep(rest.s, if step.done then rest.kept else rest.kept + [p],
                     rest.needFall, rest.matched || hit, rest.scoreCalls + step.scoreCalls);
      var t' := t + [step];
      && r.kept == Unfinished(pre + [p], t')
      && (r.matched <==> MatchFinished(t'))
      && r.needFall == (needFall || MatchFinished(t'))
      && r.s == t'[0].s
      && r.scoreCalls == TraceScoreCalls(t')
  {
    TraceSnoc(pre, t, p, step);
  }

  lemma SplitLast<T>(xs: seq<T>)
    requires |xs| > 0
    ensures xs[..|xs| - 1] + [xs[|xs| - 1]] == xs
  {
  }

  lemma PrefixIn<T>(xs: seq<T>, i: nat)
    requires i < |xs|
    ensures forall x :: x in xs[..i] ==> x in xs
    ensures xs[i] in xs
  {
  }

  /** The result of one Update: the controller, the state, whether the
      cascade (CalculateGemsToFall) was started, and the AddScore calls made. */
  datatype Tick = Tick(c: Flags, s: State, cascade: bool, scoreCalls: nat)

  /** The gating invariant: while gems are to fall, no swipe is processed. */
  predicate Gated(c: Flags) {
    c.needFall ==> !c.allowSwipe
  }

  /** GemsController.Update for one frame, given each pending pair's
      convergence reports. Nothing happens while new gems are settling; the
      cascade starts when gems are to fall and no pair is pending, clearing
      needFallGems; pairs are processed only while AllowSwipe holds, and a
      matched pair turns AllowSwipe off. */
  function Update(c: Flags, s: State, obs: seq<(Axes, Axes)>): (r: Tick)
    requires Tracked(s) && |obs| == |c.pairs| && AllKnown(s, c.pairs)
    ensures Tracked(r.s) && r.s.width == s.width && r.s.height == s.height && r.s.gems.Keys == s.gems.Keys
    ensures AllKnown(r.s, r.c.pairs)
    ensures c.hasNewGems ==> r == Tick(c, s, false, 0)
    ensures r.cascade <==> !c.hasNewGems && c.needFall && |c.pairs| == 0
    ensures r.cascade ==> !r.c.needFall && r.s == s && r.c.pairs == []
    ensures !c.allowSwipe ==> r.s == s && r.c.pairs == c.pairs && r.c.allowSwipe == c.allowSwipe
    ensures r.c.hasNewGems == c.hasNewGems
    ensures !c.hasNewGems && c.allowSwipe && r.c.needFall ==> !r.c.allowSwipe
    ensures Gated(c) ==> Gated(r.c)
    ensures !c.hasNewGems && c.allowSwipe ==>
      var t := PairTrace(s, c.pairs, obs);
      && r.c.pairs == Unfinished(c.pairs, t)
      && (r.c.needFall <==> (c.needFall && |c.pairs| > 0) || MatchFinished(t))
      && r.c.allowSwipe == !r.c.needFall
  {
    if c.hasNewGems then Tick(c, s, false, 0)
    else
      var cascade := c.needFall && |c.pairs| == 0;
      var c1 := if cascade then c.(needFall := false) else c;
      if !c1.allowSwipe then Tick(c1, s, cascade, 0)
      else
        var sw := ProcessPairs(s, c1.pairs, obs, c1.needFall);
        KeptKnown(s, sw.s, c1.pairs, sw.kept);
        var c2 := c1.(pairs := sw.kept, needFall := sw.needFall);
        Tick(if c2.needFall then c2.(allowSwipe := false) else c2, sw.s, cascade, sw.scoreCalls)
  }

  /** Pairs kept from known pairs stay known when the records keep their ids. */
  lemma KeptKnown(s: State, t: State, pairs: seq<Pair>, kept: seq<Pair>)
    requires AllKnown(s, pairs) && (forall p :: p in kept ==> p in pairs) && t.gems.Keys == s.gems.Keys
    ensures AllKnown(t, kept)
  {
    forall i | 0 <= i < |kept| ensures Known(t, kept[i]) {
      assert kept[i] in pairs;
    }
  }

  /** ResetController: no pending pair, no flag raised, swipes allowed. */
  function ResetController(c: Flags): (r: Flags)
    ensures r.pairs == [] && !r.needFall && !r.hasNewGems && r.allowSwipe
    ensures Gated(r)
  {
    Flags([], false, false, true)
  }

  /** The callback the cascade runs when it is over: swipes are allowed again. */
  function CascadeFinished(c: Flags): (r: Flags)
    ensures r.allowSwipe && r.(allowSwipe := c.allowSwipe) == c
    ensures !c.needFall ==> Gated(r)
  {
    c.(allowSwipe := true)
  }

  /** What reaches the controller while a cascade runs: a frame of Update on
      the board of that moment, a swipe, or the spawn step announcing new
      gems. The board is part of each input because the cascade changes it
      between frames. */
  datatype Input =
    | Frame(s: State, obs: seq<(Axes, Axes)>)
    | Swipe(s: State, g: GemId, angle: real)
    | Spawned(gems: seq<GemId>)

  /** The controller can take the input: Update's or SwipeGem's requirements. */
  predicate Fits(c: Flags, e: Input) {
    match e
    case Frame(s, obs) => Tracked(s) && |obs| == |c.pairs| && AllKnown(s, c.pairs)
    case Swipe(s, g, _) => WellFormed(s) && Addressable(s, g)
    case Spawned(_) => true
  }

  /** The controller after one input it can take. */
  function Take(c: Flags, e: Input): (r: Flags)
    requires Fits(c, e)
    ensures r.needFall == c.needFall || e.Frame?
    ensures r.allowSwipe == c.allowSwipe || e.Frame?
  {
    match e
    case Frame(s, obs) => Update(c, s, obs).c
    case Swipe(s, g, angle) => SwipeQueuesOnePair(c, s, g, angle); SwipeGem(c, s, g, angle).0
    case Spawned(gems) => UpdatedNewSpawnedGems(c, gems)
  }

  /** The controller after a run of inputs, up to the first one it cannot take. */
  function Run(c: Flags, inputs: seq<Input>): Flags
    decreases |inputs|
  {
    if |inputs| == 0 || !Fits(c, inputs[0]) then c else Run(Take(c, inputs[0]), inputs[1..])
  }

  /** While swipes are off and no fall is pending, nothing raises needFallGems
      or allows swipes: Update processes no pair, a swipe only queues one,
      and new gems touch only hasNewGems. */
  lemma {:induction false} QuietWhileFalling(c: Flags, inputs: seq<Input>)
    requires !c.needFall && !c.allowSwipe
    ensures !Run(c, inputs).needFall && !Run(c, inputs).allowSwipe
    decreases |inputs|
  {
    if |inputs| > 0 && Fits(c, inputs[0]) {
      var next := Take(c, inputs[0]);
      assert !next.needFall && !next.allowSwipe by {
        if inputs[0].Frame? {
          assert Update(c, inputs[0].s, inputs[0].obs).c == c;
        }
      }
      QuietWhileFalling(next, inputs[1..]);
    }
  }

  /** A cascade started by Update ends with needFallGems clear, whatever
      frames, swipes and spawns arrive while it runs: swipes stay off until
      the callback, so no pair is processed and none can raise the flag; the
      callback that turns swipes back on then keeps the gate. */
  lemma CascadeKeepsGate(c: Flags, s: State, obs: seq<(Axes, Axes)>, later: seq<Input>)
    requires Tracked(s) && |obs| == |c.pairs| && AllKnown(s, c.pairs) && Gated(c)
    requires Update(c, s, obs).cascade
    ensures var e := Run(Update(c, s, obs).c, later);
      && !e.needFall && !e.allowSwipe
      && Gated(CascadeFinished(e)) && CascadeFinished(e).allowSwipe
  {
    QuietWhileFalling(Update(c, s, obs).c, later);
  }

  /** UpdatedNewSpawnedGems: an empty list clears hasNewGems at once; any new
      gem raises it until the settling coroutine has finished. */
  function UpdatedNewSpawnedGems(c: Flags, newGems: seq<GemId>): (r: Flags)
    ensures r.hasNewGems <==> |newGems| > 0
    ensures r.(hasNewGems := c.hasNewGems) == c
  {
    if |newGems| == 0 then c.(hasNewGems := false) else c.(hasNewGems := true)
  }

  /** The first `i` entries of two lists are their prefixes' entries, and the
      first list is its prefix plus its last entry. */
  lemma PrefixAgrees<T, U>(xs: seq<T>, ys: seq<U>, i: nat)
    requires i < |xs| && i < |ys|
    ensures forall j :: 0 <= j < i ==> xs[..i][j] == xs[j] && ys[..i][j] == ys[j]
    ensures i == |xs| - 1 ==> xs == xs[..i] + [xs[i]]
  {
  }

  /** One ProcessMovement tick seen from the settling coroutine: the records
      keep naming cells and the answer is whether the gem still moves. */
  function TickOne(s: State, g: GemId, o: Axes): (r: Moved)
    requires Tracked(s) && g in s.gems
    ensures Tracked(r.s) && r.s.width == s.width && r.s.height == s.height && r.s.gems.Keys == s.gems.Keys
    ensures r.moving <==> o.hFar || o.vFar
  {
    ProcessMovementKeeps(s, g, o);
    ProcessMovement(s, g, o)
  }

  /** One frame of the gems-settling coroutine over the list, from the last
      gem down: a gem whose movement has stopped leaves the list. The list
      left is exactly the gems whose tick reports them still moving, in
      their order. */
  function TickGems(s: State, gems: seq<GemId>, obs: seq<Axes>): (r: (State, seq<GemId>))
    requires Tracked(s) && |obs| == |gems| && forall i :: 0 <= i < |gems| ==> gems[i] in s.gems
    ensures Tracked(r.0) && r.0.width == s.width && r.0.height == s.height && r.0.gems.Keys == s.gems.Keys
    ensures |r.1| <= |gems| && forall g :: g in r.1 ==> g in gems
    ensures r.1 == StillMoving(gems, obs)
    decreases |gems|
  {
    if |gems| == 0 then (s, [])
    else
      var i := |gems| - 1;
      assert StillMoving(gems, obs) ==
        StillMoving(gems[..i], obs[..i]) + (if obs[i].hFar || obs[i].vFar then [gems[i]] else []) by {
        assert gems[..i] + [gems[i]] == gems;
        assert obs[..i] + [obs[i]] == obs;
        StillMovingSnoc(gems[..i], obs[..i], gems[i], obs[i]);
      }
      PrefixAgrees(gems, obs, i);
      var m := TickOne(s, gems[i], obs[i]);
      var rest := TickGems(m.s, gems[..i], obs[..i]);
      assert forall g :: g in rest.1 ==> g in gems[..i];
      (rest.0, if m.moving then rest.1 + [gems[i]] else rest.1)
  }

  /** The gems whose report says they still move, in their order. */
  function StillMoving(gems: seq<GemId>, obs: seq<Axes>): (r: seq<GemId>)
    requires |obs| == |gems|
    ensures |r| <= |gems|
  {
    if |gems| == 0 then []
    else (if obs[0].hFar || obs[0].vFar then [gems[0]] else []) + StillMoving(gems[1..], obs[1..])
  }

  /** StillMoving of a list extended by one gem. */
  lemma {:induction false} StillMovingSnoc(gems: seq<GemId>, obs: seq<Axes>, g: GemId, o: Axes)
    requires |obs| == |gems|
    ensures StillMoving(gems + [g], obs + [o]) == StillMoving(gems, obs) + (if o.hFar || o.vFar then [g] else [])
    decreases |gems|
  {
    if |gems| > 0 {
      assert (gems + [g])[1..] == gems[1..] + [g] && (obs + [o])[1..] == obs[1..] + [o];
      StillMovingSnoc(gems[1..], obs[1..], g, o);
    }
  }

  /** When every report says stopped nothing still moves; when every report
      says far, every gem still moves. */
  lemma {:induction false} StillMovingExtremes(gems: seq<GemId>, obs: seq<Axes>)
    requires |obs| == |gems|
    ensures (forall i :: 0 <= i < |gems| ==> !obs[i].hFar && !obs[i].vFar) ==> StillMoving(gems, obs) == []
    ensures (forall i :: 0 <= i < |gems| ==> obs[i].hFar) ==> StillMoving(gems, obs) == gems
    decreases |gems|
  {
    if |gems| > 0 {
      StillMovingExtremes(gems[1..], obs[1..]);
      assert forall i :: 0 <= i < |gems| - 1 ==> obs[1..][i] == obs[i + 1];
      assert [gems[0]] + gems[1..] == gems;
    }
  }

  /** A frame in which every gem stops empties the list; a frame in which every
      gem still moves keeps the list as it was, in its order. */
  lemma TickGemsSettles(s: State, gems: seq<GemId>, obs: seq<Axes>)
    requires Tracked(s) && |obs| == |gems| && forall i :: 0 <= i < |gems| ==> gems[i] in s.gems
    ensures (forall i :: 0 <= i < |gems| ==> !obs[i].hFar && !obs[i].vFar) ==> TickGems(s, gems, obs).1 == []
    ensures (forall i :: 0 <= i < |gems| ==> obs[i].hFar) ==> TickGems(s, gems, obs).1 == gems
  {
    StillMovingExtremes(gems, obs);
  }

  /** The settling coroutine after one resumption: the flags, the state, the
      gems still moving, and whether the callback has run. */
  datatype Settling = Settling(c: Flags, s: State, gems: seq<GemId>, finished: bool)

  /** The settling coroutine at one resumption: an empty list ends it, which
      clears hasNewGems and runs the caller's callback (`finished`); otherwise
      one frame of movement is made. */
  function SettleNewGems(c: Flags, s: State, gems: seq<GemId>, obs: seq<Axes>): (r: Settling)
    requires Tracked(s) && |obs| == |gems| && forall i :: 0 <= i < |gems| ==> gems[i] in s.gems
    ensures r.finished <==> |gems| == 0
    ensures r.finished ==> r.c == c.(hasNewGems := false) && r.s == s
    ensures !r.finished ==> r.c == c && |r.gems| <= |gems|
  {
    if |gems| == 0 then Settling(c.(hasNewGems := false), s, [], true)
    else
      var t := TickGems(s, gems, obs);
      Settling(c, t.0, t.1, false)
  }
}
