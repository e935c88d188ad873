/** Gravity: ProcessGemsToFall compacts every column downwards, lowering each
    gem by the number of empty cells below it. */
module Gravity {
  import opened Wrappers
  import opened Board
  import opened GemOps

  type Column = seq<Option<GemId>>

  /** The ids of a column's gems, bottom to top. */
  function Occupied(col: Column): (ids: seq<GemId>)
    ensures |ids| <= |col|
    ensures forall i :: 0 <= i < |ids| ==> Some(ids[i]) in col
  {
    if |col| == 0 then []
    else
      var last := col[|col| - 1];
      var below := Occupied(col[..|col| - 1]);
      assert forall i :: 0 <= i < |below| ==> Some(below[i]) in col[..|col| - 1];
      below + (if last.Some? then [last.value] else [])
  }

  /** The number of empty cells strictly below row `y` of a column. */
  function Gaps(col: Column, y: nat): (n: nat)
    requires y <= |col|
    ensures n <= y
  {
    y - |Occupied(col[..y])|
  }

  /** The ids `ids` from row 0 up, then `k` empty cells. */
  function Packed(ids: seq<GemId>, k: nat): (r: Column)
    ensures |r| == |ids| + k
    ensures forall i :: 0 <= i < |r| ==> r[i] == if i < |ids| then Some(ids[i]) else None
  {
    seq(|ids| + k, i requires 0 <= i < |ids| + k => if i < |ids| then Some(ids[i]) else None)
  }

  /** The column after compaction: its gems, in order, from row 0, then empty cells. */
  function Compact(col: Column): (r: Column)
    ensures |r| == |col|
    ensures forall i :: 0 <= i < |col| ==>
      r[i] == if i < |Occupied(col)| then Some(Occupied(col)[i]) else None
  {
    Packed(Occupied(col), |col| - |Occupied(col)|)
  }

  /** The record a gem has after the fall: lowered by its gaps when it is on
      the board with at least one empty cell below it, untouched otherwise. */
  function FallenRecord(s: State, g: GemId): Gem
    requires WellFormed(s) && g in s.gems
  {
    var gem := s.gems[g];
    if Placed(s, g) && Gaps(s.board[gem.column], gem.row) > 0 then
      Lowered(gem, Gaps(s.board[gem.column], gem.row))
    else gem
  }

  /** The reference result of the fall: every column compacted, every record
      updated as FallenRecord says. */
  function Fallen(s: State): (r: State)
    requires WellFormed(s)
    ensures WellFormed(r) && r.width == s.width && r.height == s.height
    ensures r.gems.Keys == s.gems.Keys
  {
    var board := seq(s.width, x requires 0 <= x < s.width => Compact(s.board[x]));
    var r := State(s.width, s.height, board, map g | g in s.gems :: FallenRecord(s, g));
    assert forall x, y :: 0 <= x < r.width && 0 <= y < r.height && r.board[x][y].Some? ==>
      r.board[x][y] in s.board[x];
    r
  }

  /** The gems of a column extended by one cell. */
  lemma OccupiedSnoc(p: Column, c: Option<GemId>)
    ensures Occupied(p + [c]) == Occupied(p) + (if c.Some? then [c.value] else [])
  {
    assert (p + [c])[..|p|] == p;
  }

  /** Compacting a column one more cell up. */
  lemma CompactSnoc(p: Column, c: Option<GemId>)
    ensures c.None? ==> Compact(p + [c]) == Compact(p) + [None]
    ensures c.Some? ==> Compact(p + [c]) == (Compact(p) + [None])[|Occupied(p)| := c]
  {
    var ids := Occupied(p);
    var k := |p| - |ids|;
    assert Compact(p) == Packed(ids, k);
    if c.None? {
      assert Occupied(p + [c]) == ids by { OccupiedSnoc(p, c); }
      assert Compact(p + [c]) == Packed(ids, k + 1);
      assert Packed(ids, k + 1) == Packed(ids, k) + [None] by { PackedSnoc(ids, k + 1); }
    } else {
      assert Occupied(p + [c]) == ids + [c.value] by { OccupiedSnoc(p, c); }
      assert Compact(p + [c]) == Packed(ids + [c.value], k);
      assert Packed(ids + [c.value], k) == (Packed(ids, k) + [None])[|ids| := c] by { PackedPut(ids, c.value, k); }
    }
  }

  /** Packing one more id onto a packed column fills its lowest empty cell. */
  lemma PackedPut(ids: seq<GemId>, g: GemId, k: nat)
    ensures Packed(ids + [g], k) == (Packed(ids, k) + [None])[|ids| := Some(g)]
  {
    var want := (Packed(ids, k) + [None])[|ids| := Some(g)];
    assert forall i :: 0 <= i < |ids| + 1 + k ==> Packed(ids + [g], k)[i] == want[i];
  }

  /** The state of ProcessGemsToFall once columns 0 .. x - 1 are done. */
  predicate FallenBefore(s: State, r: State, x: int)
    requires WellFormed(s) && 0 <= x <= s.width
  {
    && WellFormed(r) && r.width == s.width && r.height == s.height
    && (forall a :: 0 <= a < x ==> r.board[a] == Compact(s.board[a]))
    && (forall a :: x <= a < s.width ==> r.board[a] == s.board[a])
    && r.gems.Keys == s.gems.Keys
    && (forall g :: g in s.gems ==>
          r.gems[g] == if s.gems[g].column < x then FallenRecord(s, g) else s.gems[g])
  }

  /** ProcessGemsToFall: the column-major scan that counts the empty cells met
      so far in the column and moves each gem above a gap down by that count. */
  method ProcessGemsToFall(s: State) returns (r: State)
    requires WellFormed(s) && Consistent(s)
    ensures r == Fallen(s)
  {
    r := s;
    var x := 0;
    while x < s.width
      invariant 0 <= x <= s.width
      invariant FallenBefore(s, r, x)
    {
      r := FallColumn(s, r, x);
      x := x + 1;
    }
    var want := Fallen(s);
    assert r.board == want.board;
    assert r.gems == want.gems;
  }

  /** The records of ProcessGemsToFall once the cells before (x, y) are done. */
  predicate RecordsDone(s: State, r: State, x: int, y: int)
    requires WellFormed(s)
  {
    && r.gems.Keys == s.gems.Keys
    && (forall g :: g in s.gems ==>
          r.gems[g] == if s.gems[g].column < x || (s.gems[g].column == x && s.gems[g].row < y)
                       then FallenRecord(s, g) else s.gems[g])
  }

  /** The board of ProcessGemsToFall once cells (x, 0) .. (x, y - 1) are done. */
  predicate ColumnDone(s: State, r0: State, r: State, x: int, y: int)
    requires WellFormed(s) && WellFormed(r0) && r0.width == s.width && 0 <= x < s.width && 0 <= y <= s.height
  {
    && WellFormed(r) && r.width == s.width && r.height == s.height
    && (forall a :: 0 <= a < s.width && a != x ==> r.board[a] == r0.board[a])
    && r.board[x][..y] == Compact(s.board[x][..y])
    && r.board[x][y..] == s.board[x][y..]
  }

  /** One column of ProcessGemsToFall: the `fallSteps` counter restarts at 0. */
  method FallColumn(s: State, r0: State, x: nat) returns (r: State)
    requires WellFormed(s) && Consistent(s) && x < s.width
    requires FallenBefore(s, r0, x)
    ensures FallenBefore(s, r, x + 1)
  {
    r := r0;
    var col := s.board[x];
    var fallSteps := 0;
    var y := 0;
    while y < s.height
      invariant 0 <= y <= s.height
      invariant ColumnDone(s, r0, r, x, y)
      invariant fallSteps == Gaps(col, y)
      invariant RecordsDone(s, r, x, y)
    {
      r, fallSteps := FallCell(s, r0, r, x, y, fallSteps);
      y := y + 1;
    }
    assert col[..s.height] == col;
    assert r.board[x][..s.height] == r.board[x];
  }

  /** One cell of ProcessGemsToFall: an empty cell adds one to the count; a
      gem with a non-zero count below it falls by the count. */
  method FallCell(s: State, r0: State, r1: State, x: nat, y: nat, fallSteps: nat)
    returns (r: State, steps: nat)
    requires WellFormed(s) && Consistent(s) && x < s.width && y < s.height
    requires WellFormed(r0) && r0.width == s.width
    requires ColumnDone(s, r0, r1, x, y) && RecordsDone(s, r1, x, y)
    requires fallSteps == Gaps(s.board[x], y)
    ensures ColumnDone(s, r0, r, x, y + 1) && RecordsDone(s, r, x, y + 1)
    ensures steps == Gaps(s.board[x], y + 1)
  {
    var col := s.board[x];
    assert col[..y + 1] == col[..y] + [col[y]];
    OccupiedSnoc(col[..y], col[y]);
    assert r1.board[x][y] == col[y] by {
      assert r1.board[x][y..][0] == col[y..][0];
    }
    r := r1;
    steps := fallSteps;
    if r1.board[x][y].None? {
      steps := fallSteps + 1;
      EmptyCellStep(s, r0, r1, x, y);
    } else if fallSteps > 0 {
      var g := r1.board[x][y].value;
      r := SetCell(PrepareToFall(r1, g, fallSteps), x, y, None);
      FallStep(s, r0, r1, r, x, y, g);
    } else {
      StayStep(s, r0, r1, x, y);
    }
  }

  /** An empty cell: nothing moves. */
  lemma EmptyCellStep(s: State, r0: State, r1: State, x: nat, y: nat)
    requires WellFormed(s) && x < s.width && y < s.height
    requires WellFormed(r0) && r0.width == s.width
    requires ColumnDone(s, r0, r1, x, y) && RecordsDone(s, r1, x, y)
    requires s.board[x][y].None?
    ensures ColumnDone(s, r0, r1, x, y + 1) && RecordsDone(s, r1, x, y + 1)
  {
    var col := s.board[x];
    assert col[..y + 1] == col[..y] + [col[y]];
    CompactSnoc(col[..y], col[y]);
    assert r1.board[x][y] == col[y] by {
      assert r1.board[x][y..][0] == col[y..][0];
    }
    assert r1.board[x][..y + 1] == r1.board[x][..y] + [r1.board[x][y]];
    forall g | g in s.gems && s.gems[g].column == x && s.gems[g].row == y
      ensures FallenRecord(s, g) == s.gems[g]
    {
      assert !Placed(s, g);
    }
  }

  /** A gem with no empty cell below it: nothing moves. */
  lemma StayStep(s: State, r0: State, r1: State, x: nat, y: nat)
    requires WellFormed(s) && Consistent(s) && x < s.width && y < s.height
    requires WellFormed(r0) && r0.width == s.width
    requires ColumnDone(s, r0, r1, x, y) && RecordsDone(s, r1, x, y)
    requires s.board[x][y].Some? && Gaps(s.board[x], y) == 0
    ensures ColumnDone(s, r0, r1, x, y + 1) && RecordsDone(s, r1, x, y + 1)
  {
    var col := s.board[x];
    assert col[..y + 1] == col[..y] + [col[y]];
    OccupiedSnoc(col[..y], col[y]);
    CompactSnoc(col[..y], col[y]);
    assert r1.board[x][y] == col[y] by {
      assert r1.board[x][y..][0] == col[y..][0];
    }
    assert r1.board[x][..y + 1] == r1.board[x][..y] + [r1.board[x][y]];
  }

  /** A gem with `Gaps` empty cells below it falls onto the first of them. */
  lemma FallStep(s: State, r0: State, r1: State, r: State, x: nat, y: nat, g: GemId)
    requires WellFormed(s) && Consistent(s) && x < s.width && y < s.height
    requires WellFormed(r0) && r0.width == s.width
    requires ColumnDone(s, r0, r1, x, y) && RecordsDone(s, r1, x, y)
    requires s.board[x][y] == Some(g) && Gaps(s.board[x], y) > 0
    requires g in r1.gems && InBounds(r1, r1.gems[g].column, r1.gems[g].row - Gaps(s.board[x], y))
    requires r == SetCell(PrepareToFall(r1, g, Gaps(s.board[x], y)), x, y, None)
    ensures ColumnDone(s, r0, r, x, y + 1) && RecordsDone(s, r, x, y + 1)
  {
    var col := s.board[x];
    var k := Gaps(col, y);
    assert col[..y + 1] == col[..y] + [col[y]];
    OccupiedSnoc(col[..y], col[y]);
    CompactSnoc(col[..y], col[y]);
    assert r1.board[x][y] == col[y] by {
      assert r1.board[x][y..][0] == col[y..][0];
    }
    assert s.gems[g].column == x && s.gems[g].row == y;
    assert r1.gems[g] == s.gems[g];
    assert r.board[x][..y + 1] == (r1.board[x][..y] + [None])[y - k := Some(g)];
    assert r.board[x][y + 1..] == r1.board[x][y + 1..];
  }

  /** Reading the gems back off a packed column gives the ids it was packed from. */
  lemma {:induction false} OccupiedPacked(ids: seq<GemId>, k: nat)
    ensures Occupied(Packed(ids, k)) == ids
    decreases |ids| + k
  {
    if k > 0 {
      assert Occupied(Packed(ids, k)) == Occupied(Packed(ids, k - 1)) by {
        PackedSnoc(ids, k);
        OccupiedSnoc(Packed(ids, k - 1), None);
      }
      assert Occupied(Packed(ids, k - 1)) == ids by { OccupiedPacked(ids, k - 1); }
    } else if |ids| > 0 {
      var n := |ids| - 1;
      assert Occupied(Packed(ids, 0)) == Occupied(Packed(ids[..n], 0)) + [ids[n]] by {
        PackedSnoc(ids, 0);
        OccupiedSnoc(Packed(ids[..n], 0), Some(ids[n]));
      }
      assert Occupied(Packed(ids[..n], 0)) == ids[..n] by { OccupiedPacked(ids[..n], 0); }
      assert ids[..n] + [ids[n]] == ids;
    } else {
      assert Occupied(Packed(ids, k)) == [] by { assert Packed(ids, k) == []; }
    }
  }

  /** A packed column is a shorter packed column plus its top cell. */
  lemma PackedSnoc(ids: seq<GemId>, k: nat)
    ensures k > 0 ==> Packed(ids, k) == Packed(ids, k - 1) + [None]
    ensures k == 0 && |ids| > 0 ==> Packed(ids, 0) == Packed(ids[..|ids| - 1], 0) + [Some(ids[|ids| - 1])]
  {
    if k > 0 {
      assert forall i :: 0 <= i < |ids| + k ==> Packed(ids, k)[i] == (Packed(ids, k - 1) + [None])[i];
    } else if |ids| > 0 {
      var n := |ids| - 1;
      assert forall i :: 0 <= i < |ids| ==> Packed(ids, 0)[i] == (Packed(ids[..n], 0) + [Some(ids[n])])[i];
    }
  }

  /** The gems below row `i` come first, in order, among a column's gems. */
  lemma {:induction false} OccupiedPrefix(col: Column, i: nat)
    requires i <= |col|
    ensures Occupied(col[..i]) <= Occupied(col)
    decreases |col| - i
  {
    if i < |col| {
      assert col[..i + 1] == col[..i] + [col[i]];
      OccupiedSnoc(col[..i], col[i]);
      OccupiedPrefix(col, i + 1);
    } else {
      assert col[..i] == col;
    }
  }

  /** The gem in row `b` is the (b - Gaps)-th gem of its column. */
  lemma OccupiedIndex(col: Column, b: nat)
    requires b < |col| && col[b].Some?
    ensures b - Gaps(col, b) < |Occupied(col)|
    ensures Occupied(col)[b - Gaps(col, b)] == col[b].value
  {
    assert col[..b + 1] == col[..b] + [col[b]];
    OccupiedSnoc(col[..b], col[b]);
    OccupiedPrefix(col, b + 1);
  }

  /** Every gem of a column comes from some row, the one Gaps maps onto its index. */
  lemma {:induction false} OccupiedSource(col: Column, i: nat) returns (b: nat)
    requires i < |Occupied(col)|
    ensures b < |col| && col[b] == Some(Occupied(col)[i]) && b - Gaps(col, b) == i
    decreases |col|
  {
    var n := |col| - 1;
    var p := col[..n];
    assert col == p + [col[n]];
    OccupiedSnoc(p, col[n]);
    if i < |Occupied(p)| {
      b := OccupiedSource(p, i);
      assert col[..b] == p[..b];
    } else {
      b := n;
      assert col[..n] == p;
    }
  }

  /** Per column, the fall keeps the column's gems and their bottom-to-top
      order, and leaves them contiguous from row 0. */
  lemma FallenColumns(s: State, x: int)
    requires WellFormed(s) && 0 <= x < s.width
    ensures Occupied(Fallen(s).board[x]) == Occupied(s.board[x])
    ensures forall y :: 0 <= y < s.height ==>
      (Fallen(s).board[x][y].Some? <==> y < |Occupied(s.board[x])|)
  {
    var col := s.board[x];
    OccupiedPacked(Occupied(col), |col| - |Occupied(col)|);
  }

  /** Each gem on the board drops by the number of empty cells below it: its
      record says so and the board holds it at that cell. A gem with no empty
      cell below it keeps its record unchanged. */
  lemma FallenGem(s: State, g: GemId)
    requires WellFormed(s) && Consistent(s) && g in s.gems && Placed(s, g)
    ensures var gem := s.gems[g];
      var k := Gaps(s.board[gem.column], gem.row);
      && Fallen(s).gems[g].column == gem.column
      && Fallen(s).gems[g].row == gem.row - k
      && At(Fallen(s), g, gem.column, gem.row - k)
      && (k == 0 ==> Fallen(s).gems[g] == gem)
  {
    OccupiedIndex(s.board[s.gems[g].column], s.gems[g].row);
  }

  /** Gems that are not on the board keep their records. */
  lemma FallenOffBoard(s: State, g: GemId)
    requires WellFormed(s) && g in s.gems && !Placed(s, g)
    ensures Fallen(s).gems[g] == s.gems[g]
  {
  }

  /** The fall keeps every cell's gem agreeing with its coordinates. */
  lemma FallenConsistent(s: State)
    requires WellFormed(s) && Consistent(s)
    ensures Consistent(Fallen(s))
  {
    var r := Fallen(s);
    forall x, y | 0 <= x < s.width && 0 <= y < s.height && r.board[x][y].Some?
      ensures r.gems[r.board[x][y].value].column == x && r.gems[r.board[x][y].value].row == y
    {
      var col := s.board[x];
      var b := OccupiedSource(col, y);
      var g := col[b].value;
      assert s.gems[g].column == x && s.gems[g].row == b;
    }
  }
}
