/** The logical board shared by every part of the engine: a W x H grid of
    optional gem ids (indexed `board[column][row]`, row 0 at the bottom) and
    the records of the gems those ids name. */
module Board {
  import opened Wrappers

  type GemId = nat

  /** A gem's logical state. `kind` is its palette index (the sprite it shows);
      `active` is the game object's active flag, cleared when the gem goes back
      to its pool; `hMoving`/`vMoving` are the per-axis movement flags. */
  datatype Gem = Gem(
    kind: nat,
    column: int,
    row: int,
    lastColumn: int,
    lastRow: int,
    isMatched: bool,
    active: bool,
    hMoving: bool,
    vMoving: bool)

  type Grid = seq<seq<Option<GemId>>>

  datatype State = State(width: nat, height: nat, board: Grid, gems: map<GemId, Gem>)

  /** The four swipe directions, with their unit steps on the grid. */
  datatype Direction = Right | Up | Left | Down {
    function Dx(): int {
      match this
      case Right => 1
      case Left => -1
      case _ => 0
    }
    function Dy(): int {
      match this
      case Up => 1
      case Down => -1
      case _ => 0
    }
  }

  predicate InBounds(s: State, x: int, y: int) {
    0 <= x < s.width && 0 <= y < s.height
  }

  /** The grid has the configured shape and every id on it names a gem record. */
  predicate WellFormed(s: State) {
    && |s.board| == s.width
    && (forall x :: 0 <= x < s.width ==> |s.board[x]| == s.height)
    && (forall x, y :: 0 <= x < s.width && 0 <= y < s.height && s.board[x][y].Some? ==>
          s.board[x][y].value in s.gems)
  }

  /** Invariant I2 at rest: the gem a cell refers to stores that cell as its coordinates.
      It also makes every gem occupy at most one cell. */
  predicate Consistent(s: State)
    requires WellFormed(s)
  {
    forall x, y :: 0 <= x < s.width && 0 <= y < s.height && s.board[x][y].Some? ==>
      s.gems[s.board[x][y].value].column == x && s.gems[s.board[x][y].value].row == y
  }

  /** Cell (a, b) comes at or after cell (x, y) in the column-major order every
      board scan of the engine uses (columns left to right, each bottom to top). */
  predicate NotBefore(a: int, b: int, x: int, y: int) {
    a > x || (a == x && b >= y)
  }

  /** Every cell holds a gem. */
  predicate Full(s: State)
    requires WellFormed(s)
  {
    forall x, y :: 0 <= x < s.width && 0 <= y < s.height ==> s.board[x][y].Some?
  }

  /** Every gem on the board stores coordinates inside the board (they may still
      disagree with its cell while a swap is in flight). */
  predicate CoordsInBounds(s: State)
    requires WellFormed(s)
  {
    forall x, y :: 0 <= x < s.width && 0 <= y < s.height && s.board[x][y].Some? ==>
      InBounds(s, s.gems[s.board[x][y].value].column, s.gems[s.board[x][y].value].row)
  }

  /** The gem id `g` is stored in cell (x, y). */
  predicate At(s: State, g: GemId, x: int, y: int)
    requires WellFormed(s)
  {
    InBounds(s, x, y) && s.board[x][y] == Some(g)
  }

  /** The gem `g` is on the board at the cell its own coordinates name. */
  predicate Placed(s: State, g: GemId)
    requires WellFormed(s)
  {
    g in s.gems && At(s, g, s.gems[g].column, s.gems[g].row)
  }

  /** The kind shown in cell (x, y), or None for an empty cell. */
  function KindAt(s: State, x: int, y: int): Option<nat>
    requires WellFormed(s) && InBounds(s, x, y)
  {
    match s.board[x][y]
    case None => None
    case Some(g) => Some(s.gems[g].kind)
  }

  /** The kinds along row `y`, left to right. */
  function RowKinds(s: State, y: int): (line: seq<Option<nat>>)
    requires WellFormed(s) && 0 <= y < s.height
    ensures |line| == s.width
    ensures forall i :: 0 <= i < s.width ==> line[i] == KindAt(s, i, y)
  {
    seq(s.width, i requires 0 <= i < s.width => KindAt(s, i, y))
  }

  /** The kinds along column `x`, bottom to top. */
  function ColumnKinds(s: State, x: int): (line: seq<Option<nat>>)
    requires WellFormed(s) && 0 <= x < s.width
    ensures |line| == s.height
    ensures forall j :: 0 <= j < s.height ==> line[j] == KindAt(s, x, j)
  {
    seq(s.height, j requires 0 <= j < s.height => KindAt(s, x, j))
  }

  /** The ids along row `y`, left to right. */
  function RowIds(s: State, y: int): (line: seq<Option<GemId>>)
    requires WellFormed(s) && 0 <= y < s.height
    ensures |line| == s.width
    ensures forall i :: 0 <= i < s.width ==> line[i] == s.board[i][y]
  {
    seq(s.width, i requires 0 <= i < s.width => s.board[i][y])
  }

  /** Writes `v` into cell (x, y); `gemsBoard[x, y] = v` in the source. */
  function SetCell(s: State, x: int, y: int, v: Option<GemId>): (r: State)
    requires WellFormed(s) && InBounds(s, x, y)
    requires v.Some? ==> v.value in s.gems
    ensures WellFormed(r)
    ensures r.width == s.width && r.height == s.height && r.gems == s.gems
    ensures r.board[x][y] == v
    ensures forall a, b :: InBounds(s, a, b) && (a != x || b != y) ==> r.board[a][b] == s.board[a][b]
  {
    s.(board := s.board[x := s.board[x][y := v]])
  }

  /** Three equal, non-empty kinds starting at (x, y) and going right. */
  predicate HTriple(s: State, x: int, y: int)
    requires WellFormed(s)
  {
    && 0 <= x && x + 2 < s.width && 0 <= y < s.height
    && KindAt(s, x, y).Some?
    && KindAt(s, x + 1, y) == KindAt(s, x, y)
    && KindAt(s, x + 2, y) == KindAt(s, x, y)
  }

  /** Three equal, non-empty kinds starting at (x, y) and going up. */
  predicate VTriple(s: State, x: int, y: int)
    requires WellFormed(s)
  {
    && 0 <= x < s.width && 0 <= y && y + 2 < s.height
    && KindAt(s, x, y).Some?
    && KindAt(s, x, y + 1) == KindAt(s, x, y)
    && KindAt(s, x, y + 2) == KindAt(s, x, y)
  }

  /** Some row or column holds three equal kinds in a row. */
  predicate AnyTriple(s: State)
    requires WellFormed(s)
  {
    exists x, y :: 0 <= x < s.width && 0 <= y < s.height && (HTriple(s, x, y) || VTriple(s, x, y))
  }

  /** Two states show the same kinds in the same cells (they may differ in
      match flags, coordinates or anything else the kinds do not depend on). */
  predicate SameKinds(s: State, t: State)
    requires WellFormed(s) && WellFormed(t)
  {
    && s.width == t.width && s.height == t.height
    && forall x, y :: 0 <= x < s.width && 0 <= y < s.height ==> KindAt(s, x, y) == KindAt(t, x, y)
  }

  /** Triples are a property of the kinds alone. */
  lemma SameKindsSameTriples(s: State, t: State)
    requires WellFormed(s) && WellFormed(t) && SameKinds(s, t)
    ensures forall x, y :: HTriple(s, x, y) <==> HTriple(t, x, y)
    ensures forall x, y :: VTriple(s, x, y) <==> VTriple(t, x, y)
    ensures AnyTriple(s) <==> AnyTriple(t)
  {
  }

  /** Two well-formed boards of one shape that agree in every cell are equal. */
  lemma BoardExtensionality(r: State, s: State)
    requires WellFormed(r) && WellFormed(s) && r.width == s.width && r.height == s.height
    requires forall a, b :: InBounds(s, a, b) ==> r.board[a][b] == s.board[a][b]
    ensures r.board == s.board
  {
    assert forall x :: 0 <= x < s.width ==> r.board[x] == s.board[x];
  }

  /** `t` differs from `s` at most in match flags being raised. */
  ghost predicate FlagsOnly(s: State, t: State) {
    && t == s.(gems := t.gems)
    && t.gems.Keys == s.gems.Keys
    && forall h :: h in s.gems ==> t.gems[h] == s.gems[h] || t.gems[h] == s.gems[h].(isMatched := true)
  }

  /** Raising match flags moves nothing: I2 survives it. */
  lemma FlagsKeepConsistent(s: State, t: State)
    requires WellFormed(s) && Consistent(s) && FlagsOnly(s, t)
    ensures WellFormed(t) && Consistent(t) && CoordsInBounds(t)
  {
    forall x, y | 0 <= x < t.width && 0 <= y < t.height && t.board[x][y].Some?
      ensures t.gems[t.board[x][y].value].column == x && t.gems[t.board[x][y].value].row == y
    {
      var g := t.board[x][y].value;
      assert t.gems[g] == s.gems[g] || t.gems[g] == s.gems[g].(isMatched := true);
    }
  }

  /** Two states with the same shape, records and cell contents are equal. */
  lemma StateExtensionality(s: State, t: State)
    requires WellFormed(s) && WellFormed(t)
    requires s.width == t.width && s.height == t.height && s.gems == t.gems
    requires forall a, b :: InBounds(s, a, b) ==> s.board[a][b] == t.board[a][b]
    ensures s == t
  {
    BoardExtensionality(s, t);
  }

  /** Past the top of column x the scan goes on at the bottom of column x + 1. */
  lemma NextColumnOrder(s: State, x: int)
    ensures forall a, b :: InBounds(s, a, b) ==> (NotBefore(a, b, x, s.height) <==> NotBefore(a, b, x + 1, 0))
  {
  }

  /** The cells at or after (x, y) are (x, y) itself and the cells at or after
      (x, y + 1). */
  lemma NextCellOrder(x: int, y: int)
    ensures forall a, b :: NotBefore(a, b, x, y) <==> (a == x && b == y) || NotBefore(a, b, x, y + 1)
  {
  }
}
