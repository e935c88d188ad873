/** ResetGemsBoard (GemsManager.cs): despawn the gem of every cell and empty
    the cell. As written the loop dereferences every cell, so an empty cell
    (a reset while a cascade has left holes) stops it with a null reference;
    the corrected loop skips empty cells. */
module Reset {
  import opened Wrappers
  import opened Board

  /** How the reset loop ends: it got through the board, or it met an empty
      cell at (x, y) and stopped there with the board as it was by then. */
  datatype Cleanup = Cleared(s: State) | Crashed(s: State, x: nat, y: nat)

  /** Despawn the gem in cell (x, y) (the pool deactivates it) and empty the cell. */
  function DespawnCell(s: State, x: int, y: int): (r: State)
    requires WellFormed(s) && InBounds(s, x, y) && s.board[x][y].Some?
    ensures WellFormed(r) && r.width == s.width && r.height == s.height && r.gems.Keys == s.gems.Keys
    ensures r.board[x][y].None?
    ensures forall a, b :: InBounds(s, a, b) && (a != x || b != y) ==> r.board[a][b] == s.board[a][b]
    ensures var g := s.board[x][y].value;
      r.gems[g] == s.gems[g].(active := false) && forall h :: h in s.gems && h != g ==> r.gems[h] == s.gems[h]
  {
    var g := s.board[x][y].value;
    SetCell(s.(gems := s.gems[g := s.gems[g].(active := false)]), x, y, None)
  }

  /** The loop of ResetGemsBoard from cell (x, y), as written: an empty cell is
      dereferenced and the loop stops there. */
  function ResetScan(s: State, x: nat, y: nat): (r: Cleanup)
    requires WellFormed(s) && x <= s.width && y <= s.height
    ensures WellFormed(r.s) && r.s.width == s.width && r.s.height == s.height && r.s.gems.Keys == s.gems.Keys
    decreases s.width - x, s.height - y
  {
    if x == s.width then Cleared(s)
    else if y == s.height then ResetScan(s, x + 1, 0)
    else if s.board[x][y].None? then Crashed(s, x, y)
    else ResetScan(DespawnCell(s, x, y), x, y + 1)
  }

  /** ResetGemsBoard as written. */
  function ResetGemsBoard(s: State): (r: Cleanup)
    requires WellFormed(s)
    ensures WellFormed(r.s) && r.s.width == s.width && r.s.height == s.height && r.s.gems.Keys == s.gems.Keys
  {
    ResetScan(s, 0, 0)
  }

  /** Every cell at or after (x, y), in column-major order, holds a gem. */
  ghost predicate FullFrom(s: State, x: int, y: int)
    requires WellFormed(s)
  {
    forall a, b :: InBounds(s, a, b) && NotBefore(a, b, x, y) ==> s.board[a][b].Some?
  }

  /** (x, y) is the first empty cell at or after (a0, b0). */
  ghost predicate FirstHoleFrom(s: State, x: int, y: int, a0: int, b0: int)
    requires WellFormed(s)
  {
    && InBounds(s, x, y) && NotBefore(x, y, a0, b0) && s.board[x][y].None?
    && forall a, b :: InBounds(s, a, b) && NotBefore(a, b, a0, b0) && !NotBefore(a, b, x, y) ==> s.board[a][b].Some?
  }

  /** The scan from (x, y) gets through exactly when no cell from there on is
      empty, and otherwise stops at the first empty one. */
  lemma {:induction false} ResetScanSpec(s: State, x: nat, y: nat)
    requires WellFormed(s) && x <= s.width && y <= s.height
    ensures ResetScan(s, x, y).Cleared? <==> FullFrom(s, x, y)
    ensures var r := ResetScan(s, x, y); r.Crashed? ==> FirstHoleFrom(s, r.x, r.y, x, y)
    decreases s.width - x, s.height - y, 1
  {
    if x == s.width {
    } else if y == s.height {
      ResetSpecNextColumn(s, x);
    } else if s.board[x][y].None? {
      assert !FullFrom(s, x, y) by { assert InBounds(s, x, y) && NotBefore(x, y, x, y); }
    } else {
      ResetSpecStep(s, x, y);
    }
  }

  /** The step of ResetScanSpec at the top of a column. */
  lemma {:induction false} ResetSpecNextColumn(s: State, x: nat)
    requires WellFormed(s) && x < s.width
    ensures ResetScan(s, x, s.height).Cleared? <==> FullFrom(s, x, s.height)
    ensures var r := ResetScan(s, x, s.height); r.Crashed? ==> FirstHoleFrom(s, r.x, r.y, x, s.height)
    decreases s.width - x, 0, 0
  {
    ResetScanSpec(s, x + 1, 0);
    NextColumnOrder(s, x);
    assert ResetScan(s, x, s.height) == ResetScan(s, x + 1, 0);
    assert FullFrom(s, x, s.height) <==> FullFrom(s, x + 1, 0);
  }

  /** The step of ResetScanSpec at an occupied cell. */
  lemma {:induction false} ResetSpecStep(s: State, x: nat, y: nat)
    requires WellFormed(s) && x < s.width && y < s.height && s.board[x][y].Some?
    ensures ResetScan(s, x, y).Cleared? <==> FullFrom(s, x, y)
    ensures var r := ResetScan(s, x, y); r.Crashed? ==> FirstHoleFrom(s, r.x, r.y, x, y)
    decreases s.width - x, s.height - y, 0
  {
    var t := DespawnCell(s, x, y);
    var r := ResetScan(t, x, y + 1);
    assert ResetScan(s, x, y) == r;
    assert (r.Cleared? <==> FullFrom(t, x, y + 1)) && (r.Crashed? ==> FirstHoleFrom(t, r.x, r.y, x, y + 1)) by {
      ResetScanSpec(t, x, y + 1);
    }
    assert (FullFrom(s, x, y) <==> FullFrom(t, x, y + 1)) && (r.Crashed? ==> FirstHoleFrom(s, r.x, r.y, x, y)) by {
      LaterCellsKept(s, t, x, y);
      FullCarries(s, t, x, y);
      if r.Crashed? {
        HoleCarries(s, t, x, y, r.x, r.y);
      }
    }
  }

  /** From an occupied cell (x, y) the board is full exactly when it is full
      from (x, y + 1) once that cell is emptied. */
  lemma FullCarries(s: State, t: State, x: int, y: int)
    requires WellFormed(s) && WellFormed(t) && t.width == s.width && t.height == s.height
    requires InBounds(s, x, y) && s.board[x][y].Some?
    requires forall a, b :: InBounds(s, a, b) && NotBefore(a, b, x, y + 1) ==> t.board[a][b] == s.board[a][b]
    ensures FullFrom(s, x, y) <==> FullFrom(t, x, y + 1)
  {
    if FullFrom(t, x, y + 1) {
      forall a, b | InBounds(s, a, b) && NotBefore(a, b, x, y) ensures s.board[a][b].Some? {
        if a != x || b != y {
          assert NotBefore(a, b, x, y + 1);
        }
      }
    }
  }

  /** The first hole after an occupied cell (x, y) is the first hole after
      (x, y + 1) once that cell is emptied. */
  lemma HoleCarries(s: State, t: State, x: int, y: int, hx: int, hy: int)
    requires WellFormed(s) && WellFormed(t) && t.width == s.width && t.height == s.height
    requires InBounds(s, x, y) && s.board[x][y].Some?
    requires forall a, b :: InBounds(s, a, b) && NotBefore(a, b, x, y + 1) ==> t.board[a][b] == s.board[a][b]
    requires FirstHoleFrom(t, hx, hy, x, y + 1)
    ensures FirstHoleFrom(s, hx, hy, x, y)
  {
    forall a, b | InBounds(s, a, b) && NotBefore(a, b, x, y) && !NotBefore(a, b, hx, hy)
      ensures s.board[a][b].Some?
    {
      if a != x || b != y {
        assert NotBefore(a, b, x, y + 1);
      }
    }
  }

  /** Despawning cell (x, y) leaves every later cell as it was; the cells at or
      after (x, y) are that cell and the ones at or after (x, y + 1). */
  lemma LaterCellsKept(s: State, t: State, x: int, y: int)
    requires WellFormed(s) && WellFormed(t) && t.width == s.width && t.height == s.height
    requires forall a, b :: InBounds(s, a, b) && (a != x || b != y) ==> t.board[a][b] == s.board[a][b]
    ensures forall a, b :: InBounds(s, a, b) && NotBefore(a, b, x, y + 1) ==> t.board[a][b] == s.board[a][b]
    ensures forall a, b :: NotBefore(a, b, x, y) <==> (a == x && b == y) || NotBefore(a, b, x, y + 1)
  {
  }

  /** As written, ResetGemsBoard gets through exactly the full boards; on any
      board with a hole it stops at the first hole in column-major order. */
  lemma ResetGemsBoardCrashes(s: State)
    requires WellFormed(s)
    ensures ResetGemsBoard(s).Cleared? <==> Full(s)
    ensures var r := ResetGemsBoard(s);
      r.Crashed? ==> FirstHoleFrom(s, r.x, r.y, 0, 0)
  {
    ResetScanSpec(s, 0, 0);
  }

  /** The smallest case: a one-cell board whose cell is empty, as a cascade
      leaves it between destroying a gem and refilling; the reset stops at once. */
  lemma ResetOfEmptyCellCrashes()
    ensures var s := State(1, 1, [[None]], map[]);
      WellFormed(s) && ResetGemsBoard(s) == Crashed(s, 0, 0)
  {
  }

  /** The loop of the corrected ResetGemsBoard from (x, y): empty cells are
      skipped, every gem found is despawned and its cell emptied. */
  function ResetScanFixed(s: State, x: nat, y: nat): (r: State)
    requires WellFormed(s) && x <= s.width && y <= s.height
    ensures WellFormed(r) && r.width == s.width && r.height == s.height && r.gems.Keys == s.gems.Keys
    ensures forall a, b :: InBounds(s, a, b) && NotBefore(a, b, x, y) ==> r.board[a][b].None?
    ensures forall a, b :: InBounds(s, a, b) && !NotBefore(a, b, x, y) ==> r.board[a][b] == s.board[a][b]
    decreases s.width - x, s.height - y
  {
    if x == s.width then s
    else if y == s.height then
      var r := ResetScanFixed(s, x + 1, 0);
      assert forall a, b :: InBounds(s, a, b) ==> (NotBefore(a, b, x, y) <==> NotBefore(a, b, x + 1, 0));
      r
    else if s.board[x][y].None? then ResetScanFixed(s, x, y + 1)
    else ResetScanFixed(DespawnCell(s, x, y), x, y + 1)
  }

  /** The corrected ResetGemsBoard: every cell ends empty. */
  function ResetGemsBoardFixed(s: State): (r: State)
    requires WellFormed(s)
    ensures WellFormed(r) && r.width == s.width && r.height == s.height && r.gems.Keys == s.gems.Keys
    ensures forall a, b :: InBounds(s, a, b) ==> r.board[a][b].None?
  {
    ResetScanFixed(s, 0, 0)
  }

  /** Gem `g` sits in some cell at or after (x, y). */
  ghost predicate OnBoardFrom(s: State, g: GemId, x: int, y: int)
    requires WellFormed(s)
  {
    exists a, b :: InBounds(s, a, b) && NotBefore(a, b, x, y) && s.board[a][b] == Some(g)
  }

  /** The corrected scan from (x, y) deactivates exactly the gems found from
      there on and leaves every other record as it was. */
  lemma {:induction false} ResetScanFixedGems(s: State, x: nat, y: nat, g: GemId)
    requires WellFormed(s) && x <= s.width && y <= s.height && g in s.gems
    ensures ResetScanFixed(s, x, y).gems[g] == if OnBoardFrom(s, g, x, y) then s.gems[g].(active := false) else s.gems[g]
    decreases s.width - x, s.height - y, 1
  {
    if x == s.width {
    } else if y == s.height {
      ResetScanFixedGems(s, x + 1, 0, g);
      NextColumnOrder(s, x);
      assert ResetScanFixed(s, x, y) == ResetScanFixed(s, x + 1, 0);
      assert OnBoardFrom(s, g, x, y) <==> OnBoardFrom(s, g, x + 1, 0);
    } else {
      FixedGemsStep(s, x, y, g);
    }
  }

  /** The step of ResetScanFixedGems at a cell. */
  lemma {:induction false} FixedGemsStep(s: State, x: nat, y: nat, g: GemId)
    requires WellFormed(s) && x < s.width && y < s.height && g in s.gems
    ensures ResetScanFixed(s, x, y).gems[g] == if OnBoardFrom(s, g, x, y) then s.gems[g].(active := false) else s.gems[g]
    decreases s.width - x, s.height - y, 0
  {
    var t := if s.board[x][y].None? then s else DespawnCell(s, x, y);
    assert ResetScanFixed(s, x, y) == ResetScanFixed(t, x, y + 1);
    ResetScanFixedGems(t, x, y + 1, g);
    LaterCellsKept(s, t, x, y);
    assert OnBoardFrom(s, g, x, y) <==> s.board[x][y] == Some(g) || OnBoardFrom(t, g, x, y + 1) by {
      if s.board[x][y] == Some(g) {
        assert InBounds(s, x, y) && NotBefore(x, y, x, y);
      } else if OnBoardFrom(s, g, x, y) {
        var a, b :| InBounds(s, a, b) && NotBefore(a, b, x, y) && s.board[a][b] == Some(g);
        assert InBounds(t, a, b) && NotBefore(a, b, x, y + 1) && t.board[a][b] == Some(g);
      }
      if OnBoardFrom(t, g, x, y + 1) {
        var a, b :| InBounds(t, a, b) && NotBefore(a, b, x, y + 1) && t.board[a][b] == Some(g);
        assert InBounds(s, a, b) && NotBefore(a, b, x, y);
      }
    }
  }

  /** The corrected reset despawns every gem on the board and touches no other
      gem record. */
  lemma ResetGemsBoardFixedGems(s: State, g: GemId)
    requires WellFormed(s) && g in s.gems
    ensures ResetGemsBoardFixed(s).gems[g] ==
      if OnBoardFrom(s, g, 0, 0) then s.gems[g].(active := false) else s.gems[g]
  {
    ResetScanFixedGems(s, 0, 0, g);
  }

  /** On a full board, the only kind of board the loop as written gets through,
      the corrected loop does exactly the same. */
  lemma {:induction false} ResetScanAgrees(s: State, x: nat, y: nat)
    requires WellFormed(s) && x <= s.width && y <= s.height && FullFrom(s, x, y)
    ensures ResetScan(s, x, y) == Cleared(ResetScanFixed(s, x, y))
    decreases s.width - x, s.height - y, 1
  {
    if x == s.width {
    } else if y == s.height {
      NextColumnOrder(s, x);
      assert FullFrom(s, x + 1, 0);
      ResetScanAgrees(s, x + 1, 0);
      assert ResetScan(s, x, y) == ResetScan(s, x + 1, 0);
      assert ResetScanFixed(s, x, y) == ResetScanFixed(s, x + 1, 0);
    } else {
      AgreesStep(s, x, y);
    }
  }

  /** The step of ResetScanAgrees at a cell. */
  lemma {:induction false} AgreesStep(s: State, x: nat, y: nat)
    requires WellFormed(s) && x < s.width && y < s.height && FullFrom(s, x, y)
    ensures ResetScan(s, x, y) == Cleared(ResetScanFixed(s, x, y))
    decreases s.width - x, s.height - y, 0
  {
    assert s.board[x][y].Some? by { assert InBounds(s, x, y) && NotBefore(x, y, x, y); }
    var t := DespawnCell(s, x, y);
    LaterCellsKept(s, t, x, y);
    assert FullFrom(t, x, y + 1);
    ResetScanAgrees(t, x, y + 1);
    assert ResetScan(s, x, y) == ResetScan(t, x, y + 1);
    assert ResetScanFixed(s, x, y) == ResetScanFixed(t, x, y + 1);
  }

  /** ResetGemsBoardFixed agrees with the source on every board the source can
      reset. */
  lemma ResetFixedAgreesWhenFull(s: State)
    requires WellFormed(s) && Full(s)
    ensures ResetGemsBoard(s) == Cleared(ResetGemsBoardFixed(s))
  {
    ResetScanAgrees(s, 0, 0);
  }
}
