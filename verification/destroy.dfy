/** Destruction of matched gems: DestroyGem and the board sweep of
    DestroyAllMatchedGems with its batching of score calls. */
module Destroy {
  import opened Wrappers
  import opened Board
  import opened GemOps

  /** Cell (x, y) holds a gem flagged as matched. */
  predicate MatchedCell(s: State, x: int, y: int)
    requires WellFormed(s) && InBounds(s, x, y)
  {
    s.board[x][y].Some? && s.gems[s.board[x][y].value].isMatched
  }

  /** The matched cells at or after (x, y) in scan order. */
  function MatchedFrom(s: State, x: int, y: int): set<(int, int)>
    requires WellFormed(s)
  {
    set a, b | 0 <= a < s.width && 0 <= b < s.height && NotBefore(a, b, x, y) && MatchedCell(s, a, b) :: (a, b)
  }

  /** Every matched cell of the board. */
  function MatchedCells(s: State): set<(int, int)>
    requires WellFormed(s)
  {
    MatchedFrom(s, 0, 0)
  }

  /** DestroyGem: when the cell the gem's coordinates name holds that gem, the
      cell is emptied and the gem goes back to its pool (it becomes inactive);
      otherwise nothing happens. */
  function DestroyGem(s: State, g: GemId): (r: State)
    requires WellFormed(s) && Addressable(s, g)
    ensures WellFormed(r) && r.width == s.width && r.height == s.height && r.gems.Keys == s.gems.Keys
    ensures !Placed(s, g) ==> r == s
    ensures Placed(s, g) ==> r.board[s.gems[g].column][s.gems[g].row].None?
    ensures Placed(s, g) ==> r.gems == s.gems[g := s.gems[g].(active := false)]
    ensures forall a, b :: InBounds(s, a, b) && (a != s.gems[g].column || b != s.gems[g].row) ==>
      r.board[a][b] == s.board[a][b]
  {
    var gem := s.gems[g];
    if s.board[gem.column][gem.row] != Some(g) then s
    else
      var s1 := SetCell(s, gem.column, gem.row, None);
      s1.(gems := s1.gems[g := gem.(active := false)])
  }

  /** The sweep of DestroyAllMatchedGems from cell (x, y): every cell that
      holds a matched gem when the scan reaches it is counted and its gem is
      destroyed. Returns the state and the count. Whatever the coordinates
      say, only cells holding matched gems ever change, and they become empty;
      the only record change is a matched gem becoming inactive. */
  function DestroyScan(s: State, x: nat, y: nat): (r: (State, nat))
    requires WellFormed(s) && CoordsInBounds(s) && x <= s.width && y <= s.height
    ensures WellFormed(r.0) && CoordsInBounds(r.0)
    ensures r.0.width == s.width && r.0.height == s.height && r.0.gems.Keys == s.gems.Keys
    ensures forall a, b :: InBounds(s, a, b) && !MatchedCell(s, a, b) ==> r.0.board[a][b] == s.board[a][b]
    ensures forall a, b :: InBounds(s, a, b) && r.0.board[a][b] != s.board[a][b] ==> r.0.board[a][b].None?
    ensures forall g :: g in s.gems ==>
      r.0.gems[g] == s.gems[g] || (s.gems[g].isMatched && r.0.gems[g] == s.gems[g].(active := false))
    decreases s.width - x, s.height - y
  {
    if x == s.width then
      (s, 0)
    else if y == s.height then
      DestroyScan(s, x + 1, 0)
    else if MatchedCell(s, x, y) then
      var rest := DestroyScan(DestroyGem(s, s.board[x][y].value), x, y + 1);
      (rest.0, rest.1 + 1)
    else
      DestroyScan(s, x, y + 1)
  }

  /** Destroying the gem of a matched cell on a consistent board empties that
      cell only, deactivates that gem only, and keeps the board consistent. */
  lemma DestroyGemAt(s: State, x: int, y: int)
    requires WellFormed(s) && Consistent(s) && InBounds(s, x, y) && MatchedCell(s, x, y)
    ensures Addressable(s, s.board[x][y].value)
    ensures var t := DestroyGem(s, s.board[x][y].value);
      && Consistent(t)
      && (forall a, b :: InBounds(s, a, b) ==> t.board[a][b] == if a == x && b == y then None else s.board[a][b])
      && t.gems == s.gems[s.board[x][y].value := s.gems[s.board[x][y].value].(active := false)]
  {
  }

  /** On a consistent board the sweep from (x, y) empties exactly the matched
      cells at or after (x, y) and keeps the board consistent. */
  lemma {:induction false} DestroyScanCells(s: State, x: nat, y: nat)
    requires WellFormed(s) && Consistent(s) && x <= s.width && y <= s.height
    ensures CoordsInBounds(s)
    ensures Consistent(DestroyScan(s, x, y).0)
    ensures forall a, b :: InBounds(s, a, b) ==>
      DestroyScan(s, x, y).0.board[a][b] == if NotBefore(a, b, x, y) && MatchedCell(s, a, b) then None else s.board[a][b]
    decreases s.width - x, s.height - y, 1
  {
    if x == s.width {
    } else if y == s.height {
      DestroyScanCells(s, x + 1, 0);
      NextColumnOrder(s, x);
    } else if MatchedCell(s, x, y) {
      DestroyCellsStep(s, x, y);
    } else {
      DestroyScanCells(s, x, y + 1);
      NextCellOrder(x, y);
    }
  }

  /** The step of DestroyScanCells at a matched cell. */
  lemma {:induction false} DestroyCellsStep(s: State, x: nat, y: nat)
    requires WellFormed(s) && Consistent(s) && x < s.width && y < s.height && MatchedCell(s, x, y)
    ensures CoordsInBounds(s)
    ensures Consistent(DestroyScan(s, x, y).0)
    ensures forall a, b :: InBounds(s, a, b) ==>
      DestroyScan(s, x, y).0.board[a][b] == if NotBefore(a, b, x, y) && MatchedCell(s, a, b) then None else s.board[a][b]
    decreases s.width - x, s.height - y, 0
  {
    var g := s.board[x][y].value;
    assert Addressable(s, g) && Consistent(DestroyGem(s, g)) by { DestroyGemAt(s, x, y); }
    var t := DestroyGem(s, g);
    var r := DestroyScan(t, x, y + 1).0;
    assert DestroyScan(s, x, y).0 == r;
    DestroyScanCells(t, x, y + 1);
    forall a, b | InBounds(s, a, b)
      ensures r.board[a][b] == if NotBefore(a, b, x, y) && MatchedCell(s, a, b) then None else s.board[a][b]
    {
      DestroyGemCell(s, x, y, a, b);
    }
  }

  /** Destroying the gem of matched cell (x, y), seen from one cell (a, b):
      (x, y) becomes empty, every other cell keeps its gem and its match flag. */
  lemma DestroyGemCell(s: State, x: int, y: int, a: int, b: int)
    requires WellFormed(s) && Consistent(s) && InBounds(s, x, y) && MatchedCell(s, x, y) && InBounds(s, a, b)
    ensures Addressable(s, s.board[x][y].value)
    ensures var t := DestroyGem(s, s.board[x][y].value);
      && t.board[a][b] == (if a == x && b == y then None else s.board[a][b])
      && ((a != x || b != y) ==> MatchedCell(t, a, b) == MatchedCell(s, a, b))
  {
    DestroyGemAt(s, x, y);
  }

  /** On a consistent board the sweep from (x, y) deactivates exactly the
      matched gems placed at or after (x, y). */
  lemma DestroyScanRecords(s: State, x: nat, y: nat)
    requires WellFormed(s) && Consistent(s) && x <= s.width && y <= s.height
    ensures CoordsInBounds(s)
    ensures forall g :: g in s.gems ==>
      DestroyScan(s, x, y).0.gems[g] == if MatchedAfter(s, g, x, y) then s.gems[g].(active := false) else s.gems[g]
  {
    forall g | g in s.gems
      ensures DestroyScan(s, x, y).0.gems[g] == if MatchedAfter(s, g, x, y) then s.gems[g].(active := false) else s.gems[g]
    {
      DestroyScanRecord(s, x, y, g);
    }
  }

  /** DestroyScanRecords for one gem `h`. */
  lemma {:induction false} DestroyScanRecord(s: State, x: nat, y: nat, h: GemId)
    requires WellFormed(s) && Consistent(s) && x <= s.width && y <= s.height && h in s.gems
    ensures CoordsInBounds(s)
    ensures DestroyScan(s, x, y).0.gems[h] == if MatchedAfter(s, h, x, y) then s.gems[h].(active := false) else s.gems[h]
    decreases s.width - x, s.height - y, 1
  {
    if x == s.width {
    } else if y == s.height {
      DestroyScanRecord(s, x + 1, 0, h);
      var c, d := s.gems[h].column, s.gems[h].row;
      assert Placed(s, h) ==> (NotBefore(c, d, x, y) <==> NotBefore(c, d, x + 1, 0));
    } else if MatchedCell(s, x, y) {
      DestroyRecordStep(s, x, y, h);
    } else {
      DestroyScanRecord(s, x, y + 1, h);
      assert MatchedAfter(s, h, x, y) <==> MatchedAfter(s, h, x, y + 1);
    }
  }

  /** The step of DestroyScanRecord at a matched cell. */
  lemma {:induction false} DestroyRecordStep(s: State, x: nat, y: nat, h: GemId)
    requires WellFormed(s) && Consistent(s) && x < s.width && y < s.height && h in s.gems && MatchedCell(s, x, y)
    ensures CoordsInBounds(s)
    ensures DestroyScan(s, x, y).0.gems[h] == if MatchedAfter(s, h, x, y) then s.gems[h].(active := false) else s.gems[h]
    decreases s.width - x, s.height - y, 0
  {
    var g := s.board[x][y].value;
    var t := DestroyGem(s, g);
    assert Addressable(s, g) && Consistent(t) && t.gems == s.gems[g := s.gems[g].(active := false)]
      && t.board[x][y].None? by {
      DestroyGemAt(s, x, y);
    }
    var r := DestroyScan(t, x, y + 1).0;
    assert DestroyScan(s, x, y).0 == r;
    assert r.gems[h] == if MatchedAfter(t, h, x, y + 1) then t.gems[h].(active := false) else t.gems[h] by {
      DestroyScanRecord(t, x, y + 1, h);
    }
    if h == g {
      assert MatchedAfter(s, h, x, y) && !MatchedAfter(t, h, x, y + 1);
    } else {
      assert MatchedAfter(t, h, x, y + 1) <==> MatchedAfter(s, h, x, y) by { MatchedAfterStep(s, x, y); }
    }
  }

  /** Gem `g` is matched and placed at or after (x, y) in scan order. */
  predicate MatchedAfter(s: State, g: GemId, x: int, y: int)
    requires WellFormed(s) && g in s.gems
  {
    Placed(s, g) && NotBefore(s.gems[g].column, s.gems[g].row, x, y) && s.gems[g].isMatched
  }

  /** Destroying the gem of matched cell (x, y) takes it, and only it, out of
      the matched gems the rest of the sweep will reach. */
  lemma MatchedAfterStep(s: State, x: int, y: int)
    requires WellFormed(s) && Consistent(s) && InBounds(s, x, y) && MatchedCell(s, x, y)
    ensures Addressable(s, s.board[x][y].value)
    ensures var g := s.board[x][y].value;
      var t := DestroyGem(s, g);
      && g in s.gems && MatchedAfter(s, g, x, y)
      && forall h :: h in s.gems && h != g ==> (MatchedAfter(t, h, x, y + 1) <==> MatchedAfter(s, h, x, y))
  {
    DestroyGemAt(s, x, y);
  }

  /** Scan-order bookkeeping of the matched cells. */
  lemma MatchedFromSplit(s: State, x: int, y: int)
    requires WellFormed(s) && 0 <= x < s.width && 0 <= y <= s.height
    ensures y == s.height ==> MatchedFrom(s, x, y) == MatchedFrom(s, x + 1, 0)
    ensures y < s.height && MatchedCell(s, x, y) ==>
      MatchedFrom(s, x, y) == MatchedFrom(s, x, y + 1) + {(x, y)} && (x, y) !in MatchedFrom(s, x, y + 1)
    ensures y < s.height && !MatchedCell(s, x, y) ==> MatchedFrom(s, x, y) == MatchedFrom(s, x, y + 1)
  {
  }

  /** On a consistent board the sweep from (x, y) counts exactly the matched
      cells at or after (x, y). */
  lemma {:induction false} DestroyScanCount(s: State, x: nat, y: nat)
    requires WellFormed(s) && Consistent(s) && x <= s.width && y <= s.height
    ensures CoordsInBounds(s)
    ensures DestroyScan(s, x, y).1 == |MatchedFrom(s, x, y)|
    decreases s.width - x, s.height - y, 1
  {
    if x == s.width {
      assert MatchedFrom(s, x, y) == {};
    } else if y == s.height {
      DestroyScanCount(s, x + 1, 0);
      MatchedFromSplit(s, x, y);
    } else if MatchedCell(s, x, y) {
      DestroyCountStep(s, x, y);
    } else {
      DestroyScanCount(s, x, y + 1);
      MatchedFromSplit(s, x, y);
    }
  }

  /** The step of DestroyScanCount at a matched cell. */
  lemma {:induction false} DestroyCountStep(s: State, x: nat, y: nat)
    requires WellFormed(s) && Consistent(s) && x < s.width && y < s.height && MatchedCell(s, x, y)
    ensures CoordsInBounds(s)
    ensures DestroyScan(s, x, y).1 == |MatchedFrom(s, x, y)|
    decreases s.width - x, s.height - y, 0
  {
    var g := s.board[x][y].value;
    assert Addressable(s, g) && Consistent(DestroyGem(s, g)) by { DestroyGemAt(s, x, y); }
    var t := DestroyGem(s, g);
    assert DestroyScan(t, x, y + 1).1 == |MatchedFrom(s, x, y + 1)| by {
      DestroyScanCount(t, x, y + 1);
      MatchedFromAfterDestroy(s, x, y);
    }
    assert |MatchedFrom(s, x, y)| == |MatchedFrom(s, x, y + 1)| + 1 by { MatchedFromSplit(s, x, y); }
  }

  /** Destroying the gem of matched cell (x, y) leaves the matched cells after
      it as they were. */
  lemma MatchedFromAfterDestroy(s: State, x: int, y: int)
    requires WellFormed(s) && Consistent(s) && InBounds(s, x, y) && MatchedCell(s, x, y)
    ensures Addressable(s, s.board[x][y].value)
    ensures MatchedFrom(DestroyGem(s, s.board[x][y].value), x, y + 1) == MatchedFrom(s, x, y + 1)
  {
    DestroyGemAt(s, x, y);
    var t := DestroyGem(s, s.board[x][y].value);
    assert forall a, b :: InBounds(s, a, b) && NotBefore(a, b, x, y + 1) ==> MatchedCell(t, a, b) == MatchedCell(s, a, b);
  }

  datatype Destroyed = Destroyed(s: State, scoreCalls: nat)

  /** DestroyAllMatchedGems: sweeps the board, then asks for one score award
      per full three matched gems counted (integer division). */
  function DestroyAllMatchedGems(s: State): (r: Destroyed)
    requires WellFormed(s) && CoordsInBounds(s)
    ensures WellFormed(r.s) && CoordsInBounds(r.s) && r.s.width == s.width && r.s.height == s.height
    ensures r.s.gems.Keys == s.gems.Keys
    ensures forall g :: g in s.gems ==>
      r.s.gems[g] == s.gems[g] || (s.gems[g].isMatched && r.s.gems[g] == s.gems[g].(active := false))
    ensures forall a, b :: InBounds(s, a, b) && !MatchedCell(s, a, b) ==> r.s.board[a][b] == s.board[a][b]
    ensures forall a, b :: InBounds(s, a, b) && r.s.board[a][b] != s.board[a][b] ==> r.s.board[a][b].None?
  {
    var swept := DestroyScan(s, 0, 0);
    Destroyed(swept.0, swept.1 / 3)
  }

  /** On a consistent board DestroyAllMatchedGems empties exactly the matched
      cells, deactivates exactly the gems in them, keeps the board consistent,
      and awards one score call per three of them. */
  lemma DestroyAllMatchedGemsSpec(s: State)
    requires WellFormed(s) && Consistent(s)
    ensures CoordsInBounds(s)
    ensures var r := DestroyAllMatchedGems(s);
      && Consistent(r.s)
      && r.scoreCalls == |MatchedCells(s)| / 3
      && (forall a, b :: InBounds(s, a, b) ==>
            r.s.board[a][b] == if MatchedCell(s, a, b) then None else s.board[a][b])
      && (forall g :: g in s.gems ==>
            r.s.gems[g] == if Placed(s, g) && s.gems[g].isMatched then s.gems[g].(active := false) else s.gems[g])
      && !exists a, b :: InBounds(s, a, b) && MatchedCell(r.s, a, b)
  {
    DestroyScanCells(s, 0, 0);
    DestroyScanRecords(s, 0, 0);
    DestroyScanCount(s, 0, 0);
  }

  /** DestroyGem goes by the gem's coordinates, not by the cell the sweep
      found it in: a matched gem whose coordinates name another cell (a swap
      still in flight) is counted but stays on the board. */
  lemma MisplacedMatchedGemSurvives()
    ensures var s := State(1, 2, [[Some(0), Some(1)]],
                           map[0 := Gem(3, 0, 1, 0, 0, true, true, false, true),
                               1 := Gem(4, 0, 1, 0, 1, false, true, false, false)]);
      && WellFormed(s) && CoordsInBounds(s)
      && DestroyScan(s, 0, 0).1 == 1
      && DestroyAllMatchedGems(s).s == s
  {
    var s := State(1, 2, [[Some(0), Some(1)]],
                   map[0 := Gem(3, 0, 1, 0, 0, true, true, false, true),
                       1 := Gem(4, 0, 1, 0, 1, false, true, false, false)]);
    assert MatchedCell(s, 0, 0) && !MatchedCell(s, 0, 1);
    assert DestroyGem(s, 0) == s;
  }
}
