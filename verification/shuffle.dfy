/** ShuffleBoard: a full board is rearranged by a random order of its columns
    and, for each new column, a random order of the rows; every gem then takes
    its new cell as its coordinates. The random orders come in as parameters. */
module Shuffle {
  import opened Wrappers
  import opened Board

  /** `p` lists 0 .. n - 1, each exactly once. */
  predicate IsPerm(p: seq<int>, n: int) {
    && |p| == n
    && (forall i :: 0 <= i < n ==> 0 <= p[i] < n)
    && (forall i, j :: 0 <= i < j < n ==> p[i] != p[j])
    && (forall v :: 0 <= v < n ==> v in p)
  }

  /** The orders ShuffleBoard draws: one for the columns, one per new column
      for the rows. */
  predicate ValidOrders(s: State, columnOrder: seq<int>, rowOrders: seq<seq<int>>) {
    && IsPerm(columnOrder, s.width)
    && |rowOrders| == s.width
    && (forall i :: 0 <= i < s.width ==> IsPerm(rowOrders[i], s.height))
  }

  /** No gem occupies two cells. */
  predicate Distinct(s: State)
    requires WellFormed(s)
  {
    forall a, b, c, d ::
      0 <= a < s.width && 0 <= b < s.height && 0 <= c < s.width && 0 <= d < s.height &&
      (a != c || b != d) && s.board[a][b].Some? ==>
        s.board[a][b] != s.board[c][d]
  }

  /** A consistent board holds each gem in one cell at most. */
  lemma ConsistentDistinct(s: State)
    requires WellFormed(s) && Consistent(s)
    ensures Distinct(s)
  {
  }

  /** The old cell that new cell (i, j) takes its gem from. */
  function Source(columnOrder: seq<int>, rowOrders: seq<seq<int>>, i: int, j: int): (int, int)
    requires 0 <= i < |columnOrder| && i < |rowOrders| && 0 <= j < |rowOrders[i]|
  {
    (columnOrder[i], rowOrders[i][j])
  }

  /** The board array ShuffleBoard builds: new cell (i, j) receives the gem of
      old cell Source(i, j). */
  function ShuffledBoard(s: State, columnOrder: seq<int>, rowOrders: seq<seq<int>>): (board: Grid)
    requires WellFormed(s) && ValidOrders(s, columnOrder, rowOrders)
    ensures |board| == s.width && forall i :: 0 <= i < s.width ==> |board[i]| == s.height
    ensures forall i, j :: 0 <= i < s.width && 0 <= j < s.height ==>
      board[i][j] == s.board[Source(columnOrder, rowOrders, i, j).0][Source(columnOrder, rowOrders, i, j).1]
  {
    seq(s.width, i requires 0 <= i < s.width =>
      seq(s.height, j requires 0 <= j < s.height => s.board[columnOrder[i]][rowOrders[i][j]]))
  }

  /** The coordinate writes of ShuffleBoard from cell (x, y) on, in scan
      order: the gem of each cell takes that cell as its Column and Row. */
  function Relabel(s: State, x: nat, y: nat): (r: State)
    requires WellFormed(s) && Full(s) && x <= s.width && y <= s.height
    ensures WellFormed(r) && r.width == s.width && r.height == s.height && r.board == s.board
    ensures r.gems.Keys == s.gems.Keys
    decreases s.width - x, s.height - y
  {
    if x == s.width then s
    else if y == s.height then Relabel(s, x + 1, 0)
    else
      var g := s.board[x][y].value;
      Relabel(s.(gems := s.gems[g := s.gems[g].(column := x, row := y)]), x, y + 1)
  }

  /** Gem `g` lies in no cell at or after (x, y) in scan order. */
  ghost predicate AbsentFrom(s: State, g: GemId, x: int, y: int)
    requires WellFormed(s)
  {
    forall a, b :: InBounds(s, a, b) && NotBefore(a, b, x, y) ==> s.board[a][b] != Some(g)
  }

  /** Every gem in a cell at or after (x, y) has that cell in `r` as its
      coordinates, all else of its record as in `s`. */
  ghost predicate RelabelledFrom(s: State, r: State, x: int, y: int)
    requires WellFormed(s) && Full(s) && r.gems.Keys == s.gems.Keys
  {
    forall a, b :: InBounds(s, a, b) && NotBefore(a, b, x, y) ==>
      r.gems[s.board[a][b].value] == s.gems[s.board[a][b].value].(column := a, row := b)
  }

  /** Every gem absent from the cells at or after (x, y) keeps its record. */
  ghost predicate KeptFrom(s: State, r: State, x: int, y: int)
    requires WellFormed(s) && r.gems.Keys == s.gems.Keys
  {
    forall g :: g in s.gems && AbsentFrom(s, g, x, y) ==> r.gems[g] == s.gems[g]
  }

  /** On a board holding each gem once, Relabel from (x, y) moves the
      coordinates of exactly the gems at or after (x, y) to their cells and
      changes nothing else in any record. */
  lemma {:induction false} RelabelSpec(s: State, x: nat, y: nat)
    requires WellFormed(s) && Full(s) && Distinct(s) && x <= s.width && y <= s.height
    ensures RelabelledFrom(s, Relabel(s, x, y), x, y)
    ensures KeptFrom(s, Relabel(s, x, y), x, y)
    decreases s.width - x, s.height - y, 1
  {
    if x == s.width {
    } else if y == s.height {
      var r := Relabel(s, x + 1, 0);
      assert RelabelledFrom(s, r, x + 1, 0) && KeptFrom(s, r, x + 1, 0) by { RelabelSpec(s, x + 1, 0); }
      RelabelNextColumn(s, r, x);
    } else {
      RelabelSpecStep(s, x, y);
    }
  }

  /** The step of RelabelSpec at a cell. */
  lemma {:induction false} RelabelSpecStep(s: State, x: nat, y: nat)
    requires WellFormed(s) && Full(s) && Distinct(s) && x < s.width && y < s.height
    ensures RelabelledFrom(s, Relabel(s, x, y), x, y)
    ensures KeptFrom(s, Relabel(s, x, y), x, y)
    decreases s.width - x, s.height - y, 0
  {
    var g := s.board[x][y].value;
    var t := s.(gems := s.gems[g := s.gems[g].(column := x, row := y)]);
    assert Distinct(t);
    var r := Relabel(t, x, y + 1);
    assert Relabel(s, x, y) == r;
    assert RelabelledFrom(t, r, x, y + 1) && KeptFrom(t, r, x, y + 1) by { RelabelSpec(t, x, y + 1); }
    RelabelStep(s, t, r, x, y);
  }

  /** Past the top of column x the Relabel scan goes on at the bottom of
      column x + 1. */
  lemma RelabelNextColumn(s: State, r: State, x: nat)
    requires WellFormed(s) && Full(s) && x < s.width && r.gems.Keys == s.gems.Keys
    requires RelabelledFrom(s, r, x + 1, 0) && KeptFrom(s, r, x + 1, 0)
    ensures RelabelledFrom(s, r, x, s.height) && KeptFrom(s, r, x, s.height)
  {
    NextColumnOrder(s, x);
    forall g | g in s.gems && AbsentFrom(s, g, x, s.height)
      ensures AbsentFrom(s, g, x + 1, 0)
    {
    }
  }

  /** One cell of the Relabel scan: writing the gem of (x, y) and then relabelling
      the cells after it relabels the cells from (x, y). */
  lemma RelabelStep(s: State, t: State, r: State, x: nat, y: nat)
    requires WellFormed(s) && Full(s) && Distinct(s) && InBounds(s, x, y)
    requires t == s.(gems := s.gems[s.board[x][y].value := s.gems[s.board[x][y].value].(column := x, row := y)])
    requires r.gems.Keys == s.gems.Keys
    requires RelabelledFrom(t, r, x, y + 1) && KeptFrom(t, r, x, y + 1)
    ensures RelabelledFrom(s, r, x, y) && KeptFrom(s, r, x, y)
  {
    var g := s.board[x][y].value;
    assert AbsentFrom(t, g, x, y + 1);
    forall a, b | InBounds(s, a, b) && NotBefore(a, b, x, y)
      ensures r.gems[s.board[a][b].value] == s.gems[s.board[a][b].value].(column := a, row := b)
    {
      if a != x || b != y {
        assert NotBefore(a, b, x, y + 1);
        assert s.board[a][b] != s.board[x][y];
      }
    }
    forall h | h in s.gems && AbsentFrom(s, h, x, y)
      ensures r.gems[h] == s.gems[h]
    {
      assert s.board[x][y] != Some(h);
      assert AbsentFrom(t, h, x, y + 1);
    }
  }

  /** ShuffleBoard on a full board: the board array is rebuilt from the two
      orders, then each gem's Column and Row are set to its new cell; LastColumn
      and LastRow are left as they were. */
  function ShuffleBoard(s: State, columnOrder: seq<int>, rowOrders: seq<seq<int>>): (r: State)
    requires WellFormed(s) && Full(s) && ValidOrders(s, columnOrder, rowOrders)
    ensures WellFormed(r) && r.width == s.width && r.height == s.height && Full(r)
    ensures r.board == ShuffledBoard(s, columnOrder, rowOrders)
    ensures r.gems.Keys == s.gems.Keys
  {
    Relabel(State(s.width, s.height, ShuffledBoard(s, columnOrder, rowOrders), s.gems), 0, 0)
  }

  /** Both orders being permutations, distinct new cells draw from distinct
      old cells. */
  lemma SourceInjective(s: State, columnOrder: seq<int>, rowOrders: seq<seq<int>>, i: int, j: int, a: int, b: int)
    requires ValidOrders(s, columnOrder, rowOrders)
    requires InBounds(s, i, j) && InBounds(s, a, b) && (i != a || j != b)
    ensures InBounds(s, Source(columnOrder, rowOrders, i, j).0, Source(columnOrder, rowOrders, i, j).1)
    ensures Source(columnOrder, rowOrders, i, j) != Source(columnOrder, rowOrders, a, b)
  {
  }

  /** Both orders being permutations, every old cell is drawn from. */
  lemma SourceOnto(s: State, columnOrder: seq<int>, rowOrders: seq<seq<int>>, c: int, d: int)
    returns (i: int, j: int)
    requires ValidOrders(s, columnOrder, rowOrders) && InBounds(s, c, d)
    ensures InBounds(s, i, j) && Source(columnOrder, rowOrders, i, j) == (c, d)
  {
    assert c in columnOrder;
    i :| 0 <= i < s.width && columnOrder[i] == c;
    assert d in rowOrders[i];
    j :| 0 <= j < s.height && rowOrders[i][j] == d;
  }

  /** The board array ShuffleBoard builds holds each gem once when the old
      board did. */
  lemma ShuffledBoardDistinct(s: State, columnOrder: seq<int>, rowOrders: seq<seq<int>>)
    requires WellFormed(s) && Distinct(s) && ValidOrders(s, columnOrder, rowOrders)
    ensures Distinct(State(s.width, s.height, ShuffledBoard(s, columnOrder, rowOrders), s.gems))
  {
    var t := State(s.width, s.height, ShuffledBoard(s, columnOrder, rowOrders), s.gems);
    forall a, b, c, d | InBounds(s, a, b) && InBounds(s, c, d) && (a != c || b != d) && t.board[a][b].Some?
      ensures t.board[a][b] != t.board[c][d]
    {
      SourceInjective(s, columnOrder, rowOrders, a, b, c, d);
      SourceInjective(s, columnOrder, rowOrders, c, d, a, b);
    }
  }

  /** The board array ShuffleBoard builds holds every gem of the old board. */
  lemma ShuffledBoardCovers(s: State, columnOrder: seq<int>, rowOrders: seq<seq<int>>)
    requires WellFormed(s) && ValidOrders(s, columnOrder, rowOrders)
    ensures var board := ShuffledBoard(s, columnOrder, rowOrders);
      forall c, d :: InBounds(s, c, d) ==> exists i, j :: InBounds(s, i, j) && board[i][j] == s.board[c][d]
  {
    var board := ShuffledBoard(s, columnOrder, rowOrders);
    forall c, d | InBounds(s, c, d)
      ensures exists i, j :: InBounds(s, i, j) && board[i][j] == s.board[c][d]
    {
      var i, j := SourceOnto(s, columnOrder, rowOrders, c, d);
      assert board[i][j] == s.board[c][d];
    }
  }

  /** A gem in no old cell is in no new cell either. */
  lemma ShuffledBoardAbsent(s: State, columnOrder: seq<int>, rowOrders: seq<seq<int>>, g: GemId)
    requires WellFormed(s) && ValidOrders(s, columnOrder, rowOrders)
    requires forall a, b :: InBounds(s, a, b) ==> s.board[a][b] != Some(g)
    ensures AbsentFrom(State(s.width, s.height, ShuffledBoard(s, columnOrder, rowOrders), s.gems), g, 0, 0)
  {
    var t := State(s.width, s.height, ShuffledBoard(s, columnOrder, rowOrders), s.gems);
    forall a, b | InBounds(t, a, b) && NotBefore(a, b, 0, 0) ensures t.board[a][b] != Some(g) {
      var (c, d) := Source(columnOrder, rowOrders, a, b);
      assert t.board[a][b] == s.board[c][d];
    }
  }

  /** On a board holding each gem once, the shuffled board holds each gem
      once, and every gem of the old board is on it. */
  lemma ShuffleBoardCells(s: State, columnOrder: seq<int>, rowOrders: seq<seq<int>>)
    requires WellFormed(s) && Full(s) && Distinct(s) && ValidOrders(s, columnOrder, rowOrders)
    ensures var r := ShuffleBoard(s, columnOrder, rowOrders);
      && Distinct(r)
      && (forall c, d :: InBounds(s, c, d) ==> exists i, j :: InBounds(s, i, j) && r.board[i][j] == s.board[c][d])
  {
    ShuffledBoardDistinct(s, columnOrder, rowOrders);
    ShuffledBoardCovers(s, columnOrder, rowOrders);
    var r := ShuffleBoard(s, columnOrder, rowOrders);
    assert r.board == ShuffledBoard(s, columnOrder, rowOrders);
  }

  /** On a board holding each gem once, every gem on the shuffled board has
      its new cell as Column and Row and the rest of its record unchanged
      (LastColumn and LastRow included). */
  lemma ShuffleBoardRecords(s: State, columnOrder: seq<int>, rowOrders: seq<seq<int>>)
    requires WellFormed(s) && Full(s) && Distinct(s) && ValidOrders(s, columnOrder, rowOrders)
    ensures var r := ShuffleBoard(s, columnOrder, rowOrders);
      forall i, j :: InBounds(s, i, j) ==>
        r.gems[r.board[i][j].value] == s.gems[r.board[i][j].value].(column := i, row := j)
  {
    ShuffledBoardDistinct(s, columnOrder, rowOrders);
    var t := State(s.width, s.height, ShuffledBoard(s, columnOrder, rowOrders), s.gems);
    RelabelSpec(t, 0, 0);
    assert RelabelledFrom(t, Relabel(t, 0, 0), 0, 0);
    forall i, j | InBounds(s, i, j)
      ensures Relabel(t, 0, 0).gems[t.board[i][j].value] == t.gems[t.board[i][j].value].(column := i, row := j)
    {
      assert NotBefore(i, j, 0, 0);
    }
  }

  /** A gem in no cell of the old board keeps its record. */
  lemma ShuffleBoardKeeps(s: State, columnOrder: seq<int>, rowOrders: seq<seq<int>>, g: GemId)
    requires WellFormed(s) && Full(s) && Distinct(s) && ValidOrders(s, columnOrder, rowOrders)
    requires g in s.gems && forall a, b :: InBounds(s, a, b) ==> s.board[a][b] != Some(g)
    ensures ShuffleBoard(s, columnOrder, rowOrders).gems[g] == s.gems[g]
  {
    ShuffledBoardDistinct(s, columnOrder, rowOrders);
    var t := State(s.width, s.height, ShuffledBoard(s, columnOrder, rowOrders), s.gems);
    RelabelSpec(t, 0, 0);
    ShuffledBoardAbsent(s, columnOrder, rowOrders, g);
    assert KeptFrom(t, Relabel(t, 0, 0), 0, 0);
  }

  /** A shuffled board holding each gem once is consistent: every gem's
      coordinates name the cell that holds it. */
  lemma ShuffleBoardConsistent(s: State, columnOrder: seq<int>, rowOrders: seq<seq<int>>)
    requires WellFormed(s) && Full(s) && Distinct(s) && ValidOrders(s, columnOrder, rowOrders)
    ensures Consistent(ShuffleBoard(s, columnOrder, rowOrders))
  {
    ShuffleBoardRecords(s, columnOrder, rowOrders);
  }
}
