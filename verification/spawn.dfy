/** Putting gems on the board: SpawnGem, the spawn-time safety check
    GemWillMatch with the initial fill SpawnInitialGems, and the refill of
    empty cells SpawnNewGemsToRefil. The pool hands out gem ids and the random
    kinds come in as parameters. */
module Spawn {
  import opened Wrappers
  import opened Board
  import opened GemOps

  /** The record of a gem the pool has just handed out and SpawnGem has placed
      at (x, y) with kind `kind`. */
  function Spawned(kind: nat, x: int, y: int): Gem {
    Gem(kind, x, y, x, y, false, true, false, false)
  }

  /** SpawnGem: takes gem `g` from the pool (activated, OnSpawn run with the
      random pick `pick`), sets its current and last coordinates to (x, y) and
      writes it into that cell. Every other cell and record stays. */
  function SpawnGem(s: State, x: int, y: int, g: GemId, palette: nat, pick: nat): (r: State)
    requires WellFormed(s) && InBounds(s, x, y) && pick < palette
    ensures WellFormed(r) && r.width == s.width && r.height == s.height
    ensures r.gems.Keys == s.gems.Keys + {g}
    ensures r.gems[g] == Spawned(pick, x, y) && r.gems[g].kind < palette
    ensures forall h :: h in s.gems && h != g ==> r.gems[h] == s.gems[h]
    ensures Placed(r, g)
    ensures forall a, b :: InBounds(s, a, b) && (a != x || b != y) ==> r.board[a][b] == s.board[a][b]
  {
    var pooled := if g in s.gems then s.gems[g] else Spawned(0, x, y);
    var gem := OnSpawn(pooled.(active := true), palette, pick);
    var placed := gem.(column := x, lastColumn := x, row := y, lastRow := y);
    UpdateGemBoard(s.(gems := s.gems[g := placed]), g)
  }

  /** The cells GemWillMatch reads for a gem at (x, y) are occupied: the two to
      the left when x > 1, the two below when y > 1. */
  predicate Inspectable(s: State, x: int, y: int)
    requires WellFormed(s)
  {
    && InBounds(s, x, y)
    && (x > 1 ==> s.board[x - 1][y].Some? && s.board[x - 2][y].Some?)
    && (y > 1 ==> s.board[x][y - 1].Some? && s.board[x][y - 2].Some?)
  }

  /** GemWillMatch, with the source's branch structure: both pairs tested when
      column and row exceed 1, otherwise each pair whose index exceeds 1. */
  function GemWillMatch(s: State, g: GemId): (r: bool)
    requires WellFormed(s) && Addressable(s, g) && Inspectable(s, s.gems[g].column, s.gems[g].row)
    ensures var x, y, k := s.gems[g].column, s.gems[g].row, Some(s.gems[g].kind);
      r <==> ((x > 1 && KindAt(s, x - 1, y) == k && KindAt(s, x - 2, y) == k) ||
              (y > 1 && KindAt(s, x, y - 1) == k && KindAt(s, x, y - 2) == k))
  {
    var x, y, t := s.gems[g].column, s.gems[g].row, s.gems[g].kind;
    if x > 1 && y > 1 then
      (s.gems[s.board[x - 1][y].value].kind == t && s.gems[s.board[x - 2][y].value].kind == t) ||
      (s.gems[s.board[x][y - 1].value].kind == t && s.gems[s.board[x][y - 2].value].kind == t)
    else if y > 1 && s.gems[s.board[x][y - 1].value].kind == t && s.gems[s.board[x][y - 2].value].kind == t then
      true
    else if x > 1 && s.gems[s.board[x - 1][y].value].kind == t && s.gems[s.board[x - 2][y].value].kind == t then
      true
    else
      false
  }

  /** Cell (a, b) comes strictly before (x, y) in scan order: it is filled. */
  predicate Before(a: int, b: int, x: int, y: int) {
    a < x || (a == x && b < y)
  }

  /** A W x H table of gem ids with no id twice. */
  predicate DistinctIds(s: State, ids: seq<seq<GemId>>) {
    && |ids| == s.width
    && (forall a :: 0 <= a < s.width ==> |ids[a]| == s.height)
    && (forall a, b, c, d ::
          0 <= a < s.width && 0 <= b < s.height && 0 <= c < s.width && 0 <= d < s.height && (a != c || b != d) ==>
            ids[a][b] != ids[c][d])
  }

  /** The state of the initial fill once every cell before (x, y) is done:
      the cell holds its id, the gem is spawned there with a kind from the
      palette, and no three equal kinds end in a filled cell. */
  ghost predicate FilledBefore(s: State, ids: seq<seq<GemId>>, palette: nat, x: int, y: int)
    requires WellFormed(s) && DistinctIds(s, ids)
  {
    && (forall a, b :: InBounds(s, a, b) && Before(a, b, x, y) ==>
          s.board[a][b] == Some(ids[a][b]) &&
          s.gems[ids[a][b]].kind < palette && s.gems[ids[a][b]] == Spawned(s.gems[ids[a][b]].kind, a, b))
    && (forall a, b :: HTriple(s, a, b) ==> !Before(a + 2, b, x, y))
    && (forall a, b :: VTriple(s, a, b) ==> !Before(a, b + 2, x, y))
  }

  /** SpawnInitialGems: fills the board column by column, bottom to top; each
      new gem takes random kinds from `rolls` until GemWillMatch is false. The
      result is None when the rolls run out first. A filled board is full and
      consistent, every cell holds its id, and no row or column holds three
      equal kinds. `used` counts the rolls drawn: a None result has drawn
      them all. */
  method SpawnInitialGems(s: State, ids: seq<seq<GemId>>, palette: nat, rolls: seq<nat>)
    returns (r: Option<State>, used: nat)
    requires WellFormed(s) && DistinctIds(s, ids)
    requires forall i :: 0 <= i < |rolls| ==> rolls[i] < palette
    ensures used <= |rolls|
    ensures r.None? ==> used == |rolls|
    ensures r.Some? ==> WellFormed(r.value) && r.value.width == s.width && r.value.height == s.height
    ensures r.Some? ==> Full(r.value) && Consistent(r.value) && !AnyTriple(r.value)
    ensures r.Some? ==> forall a, b :: InBounds(s, a, b) ==>
      r.value.board[a][b] == Some(ids[a][b]) && !r.value.gems[ids[a][b]].isMatched && r.value.gems[ids[a][b]].kind < palette
  {
    var t := s;
    used := 0;
    var x := 0;
    while x < s.width
      invariant 0 <= x <= s.width && 0 <= used <= |rolls|
      invariant WellFormed(t) && t.width == s.width && t.height == s.height
      invariant FilledBefore(t, ids, palette, x, 0)
    {
      var y := 0;
      while y < s.height
        invariant 0 <= y <= s.height && 0 <= used <= |rolls|
        invariant WellFormed(t) && t.width == s.width && t.height == s.height
        invariant FilledBefore(t, ids, palette, x, y)
      {
        var ok;
        t, used, ok := SpawnSafeGem(t, ids, palette, rolls, used, x, y);
        if !ok {
          return None, used;
        }
        y := y + 1;
      }
      x := x + 1;
    }
    FilledIsSettled(t, ids, palette);
    r := Some(t);
  }

  /** One cell of the initial fill: spawn, then re-roll while GemWillMatch. */
  method SpawnSafeGem(s: State, ids: seq<seq<GemId>>, palette: nat, rolls: seq<nat>, used: nat, x: int, y: int)
    returns (r: State, used': nat, ok: bool)
    requires WellFormed(s) && DistinctIds(s, ids) && InBounds(s, x, y) && used <= |rolls|
    requires forall i :: 0 <= i < |rolls| ==> rolls[i] < palette
    requires FilledBefore(s, ids, palette, x, y)
    ensures WellFormed(r) && r.width == s.width && r.height == s.height && used <= used' <= |rolls|
    ensures ok ==> FilledBefore(r, ids, palette, x, y + 1)
    ensures !ok ==> used' == |rolls|
  {
    if used == |rolls| {
      return s, used, false;
    }
    var g := ids[x][y];
    SpawnKeepsFilled(s, ids, palette, x, y, rolls[used]);
    var kind;
    r, kind, used', ok := Reroll(s, x, y, g, palette, rolls, used);
    if ok {
      NoMatchExtendsFilled(s, ids, palette, x, y, kind);
    }
  }

  /** The re-roll loop of one cell: spawn with the next roll, then draw a new
      kind while GemWillMatch holds. On success the gem stands in its cell
      with a kind for which GemWillMatch is false. */
  method Reroll(s: State, x: int, y: int, g: GemId, palette: nat, rolls: seq<nat>, used: nat)
    returns (r: State, kind: nat, used': nat, ok: bool)
    requires WellFormed(s) && InBounds(s, x, y) && used < |rolls|
    requires forall i :: 0 <= i < |rolls| ==> rolls[i] < palette
    requires var t := SpawnGem(s, x, y, g, palette, rolls[used]); Addressable(t, g) && Inspectable(t, x, y)
    ensures used < used' <= |rolls| && kind < palette
    ensures r == SpawnGem(s, x, y, g, palette, kind)
    ensures ok ==> Addressable(r, g) && Inspectable(r, x, y) && !GemWillMatch(r, g)
    ensures !ok ==> used' == |rolls|
  {
    kind := rolls[used];
    r := SpawnGem(s, x, y, g, palette, kind);
    used' := used + 1;
    while GemWillMatch(r, g)
      invariant used < used' <= |rolls| && kind < palette
      invariant r == SpawnGem(s, x, y, g, palette, kind)
      invariant Addressable(r, g) && Inspectable(r, x, y)
      decreases |rolls| - used'
    {
      if used' == |rolls| {
        return r, kind, used', false;
      }
      kind := RandomizeType(r.gems[g], palette, rolls[used']).kind;
      r := r.(gems := r.gems[g := RandomizeType(r.gems[g], palette, rolls[used'])]);
      used' := used' + 1;
    }
    ok := true;
  }

  /** While a cell is being filled, the cells before it are undisturbed and
      GemWillMatch may read the cells it needs. */
  lemma SpawnKeepsFilled(s: State, ids: seq<seq<GemId>>, palette: nat, x: int, y: int, pick: nat)
    requires WellFormed(s) && DistinctIds(s, ids) && InBounds(s, x, y) && pick < palette
    requires FilledBefore(s, ids, palette, x, y)
    ensures var r := SpawnGem(s, x, y, ids[x][y], palette, pick);
      Addressable(r, ids[x][y]) && Inspectable(r, x, y)
  {
  }

  /** A kind for which GemWillMatch is false closes no triple at (x, y). */
  lemma NoMatchExtendsFilled(s: State, ids: seq<seq<GemId>>, palette: nat, x: int, y: int, pick: nat)
    requires WellFormed(s) && DistinctIds(s, ids) && InBounds(s, x, y) && pick < palette
    requires FilledBefore(s, ids, palette, x, y)
    requires var r := SpawnGem(s, x, y, ids[x][y], palette, pick);
      Addressable(r, ids[x][y]) && Inspectable(r, x, y) && !GemWillMatch(r, ids[x][y])
    ensures FilledBefore(SpawnGem(s, x, y, ids[x][y], palette, pick), ids, palette, x, y + 1)
  {
    var r := SpawnGem(s, x, y, ids[x][y], palette, pick);
    SpawnKeepsEarlierKinds(s, ids, palette, x, y, pick);
    NoRowTripleAdded(s, ids, palette, x, y, pick);
    NoColumnTripleAdded(s, ids, palette, x, y, pick);
  }

  /** Spawning at (x, y) keeps the kinds of the cells already filled, and the
      cell (x, y) now holds its id with a fresh record. */
  lemma SpawnKeepsEarlierKinds(s: State, ids: seq<seq<GemId>>, palette: nat, x: int, y: int, pick: nat)
    requires WellFormed(s) && DistinctIds(s, ids) && InBounds(s, x, y) && pick < palette
    requires FilledBefore(s, ids, palette, x, y)
    ensures var r := SpawnGem(s, x, y, ids[x][y], palette, pick);
      forall a, b :: InBounds(s, a, b) && Before(a, b, x, y) ==> KindAt(r, a, b) == KindAt(s, a, b)
    ensures var r := SpawnGem(s, x, y, ids[x][y], palette, pick);
      forall a, b :: InBounds(s, a, b) && Before(a, b, x, y + 1) ==>
        r.board[a][b] == Some(ids[a][b]) &&
        r.gems[ids[a][b]].kind < palette && r.gems[ids[a][b]] == Spawned(r.gems[ids[a][b]].kind, a, b)
  {
    var g := ids[x][y];
    var r := SpawnGem(s, x, y, g, palette, pick);
    forall a, b | InBounds(s, a, b) && Before(a, b, x, y)
      ensures r.board[a][b] == s.board[a][b] && r.gems[ids[a][b]] == s.gems[ids[a][b]]
    {
      assert ids[a][b] != g;
    }
  }

  /** No row triple ends at or after (x, y) once the gem there does not match. */
  lemma NoRowTripleAdded(s: State, ids: seq<seq<GemId>>, palette: nat, x: int, y: int, pick: nat)
    requires WellFormed(s) && DistinctIds(s, ids) && InBounds(s, x, y) && pick < palette
    requires FilledBefore(s, ids, palette, x, y)
    requires var r := SpawnGem(s, x, y, ids[x][y], palette, pick);
      Addressable(r, ids[x][y]) && Inspectable(r, x, y) && !GemWillMatch(r, ids[x][y])
    requires var r := SpawnGem(s, x, y, ids[x][y], palette, pick);
      forall a, b :: InBounds(s, a, b) && Before(a, b, x, y) ==> KindAt(r, a, b) == KindAt(s, a, b)
    ensures var r := SpawnGem(s, x, y, ids[x][y], palette, pick);
      forall a, b :: HTriple(r, a, b) ==> !Before(a + 2, b, x, y + 1)
  {
    var r := SpawnGem(s, x, y, ids[x][y], palette, pick);
    forall a, b | HTriple(r, a, b)
      ensures !Before(a + 2, b, x, y + 1)
    {
      if Before(a + 2, b, x, y + 1) && !(a + 2 == x && b == y) {
        assert HTriple(s, a, b);
      }
    }
  }

  /** No column triple ends at or after (x, y) once the gem there does not
      match. */
  lemma NoColumnTripleAdded(s: State, ids: seq<seq<GemId>>, palette: nat, x: int, y: int, pick: nat)
    requires WellFormed(s) && DistinctIds(s, ids) && InBounds(s, x, y) && pick < palette
    requires FilledBefore(s, ids, palette, x, y)
    requires var r := SpawnGem(s, x, y, ids[x][y], palette, pick);
      Addressable(r, ids[x][y]) && Inspectable(r, x, y) && !GemWillMatch(r, ids[x][y])
    requires var r := SpawnGem(s, x, y, ids[x][y], palette, pick);
      forall a, b :: InBounds(s, a, b) && Before(a, b, x, y) ==> KindAt(r, a, b) == KindAt(s, a, b)
    ensures var r := SpawnGem(s, x, y, ids[x][y], palette, pick);
      forall a, b :: VTriple(r, a, b) ==> !Before(a, b + 2, x, y + 1)
  {
    var r := SpawnGem(s, x, y, ids[x][y], palette, pick);
    forall a, b | VTriple(r, a, b)
      ensures !Before(a, b + 2, x, y + 1)
    {
      if Before(a, b + 2, x, y + 1) && !(a == x && b + 2 == y) {
        assert VTriple(s, a, b);
      }
    }
  }

  /** A board filled to the end is full, consistent and free of triples. */
  lemma FilledIsSettled(s: State, ids: seq<seq<GemId>>, palette: nat)
    requires WellFormed(s) && DistinctIds(s, ids) && FilledBefore(s, ids, palette, s.width, 0)
    ensures Full(s) && Consistent(s) && !AnyTriple(s)
  {
    if AnyTriple(s) {
      var a, b :| 0 <= a < s.width && 0 <= b < s.height && (HTriple(s, a, b) || VTriple(s, a, b));
    }
  }

  /** The number of empty cells at or after (x, y) in scan order. */
  function EmptyCount(s: State, x: int, y: int): nat
    requires WellFormed(s) && 0 <= x <= s.width && 0 <= y <= s.height
    decreases s.width - x, s.height - y
  {
    if x == s.width then 0
    else if y == s.height then EmptyCount(s, x + 1, 0)
    else (if s.board[x][y].None? then 1 else 0) + EmptyCount(s, x, y + 1)
  }

  /** EmptyCount is zero exactly when every cell at or after (x, y) is occupied. */
  lemma {:induction false} EmptyCountZero(s: State, x: int, y: int)
    requires WellFormed(s) && 0 <= x <= s.width && 0 <= y <= s.height
    ensures EmptyCount(s, x, y) == 0 <==>
      forall a, b :: InBounds(s, a, b) && NotBefore(a, b, x, y) ==> s.board[a][b].Some?
    decreases s.width - x, s.height - y
  {
    if x == s.width {
    } else if y == s.height {
      EmptyCountZero(s, x + 1, 0);
      assert forall a, b :: InBounds(s, a, b) ==> (NotBefore(a, b, x, y) <==> NotBefore(a, b, x + 1, 0));
    } else {
      EmptyCountZero(s, x, y + 1);
      assert forall a, b :: InBounds(s, a, b) && NotBefore(a, b, x, y) ==> (a == x && b == y) || NotBefore(a, b, x, y + 1);
    }
  }

  /** Two boards that agree on the cells at or after (x, y) have as many
      empty cells there. */
  lemma {:induction false} EmptyCountSame(s: State, t: State, x: int, y: int)
    requires WellFormed(s) && WellFormed(t) && s.width == t.width && s.height == t.height
    requires 0 <= x <= s.width && 0 <= y <= s.height
    requires forall a, b :: InBounds(s, a, b) && NotBefore(a, b, x, y) ==> s.board[a][b] == t.board[a][b]
    ensures EmptyCount(s, x, y) == EmptyCount(t, x, y)
    decreases s.width - x, s.height - y
  {
    if x == s.width {
    } else if y == s.height {
      EmptyCountSame(s, t, x + 1, 0);
    } else {
      EmptyCountSame(s, t, x, y + 1);
    }
  }

  /** What the pool hands out for a refill, in order: gem ids, each with the
      kind OnSpawn picks for it. No id is handed out twice, none is on the
      board (the pool only holds despawned gems), every kind is in the palette. */
  predicate FreshSupply(s: State, supply: seq<(GemId, nat)>, palette: nat)
    requires WellFormed(s)
  {
    && (forall i, j :: 0 <= i < j < |supply| ==> supply[i].0 != supply[j].0)
    && (forall i, a, b :: 0 <= i < |supply| && 0 <= a < s.width && 0 <= b < s.height ==> s.board[a][b] != Some(supply[i].0))
    && (forall i :: 0 <= i < |supply| ==> supply[i].1 < palette)
  }

  datatype Refilled = Refilled(s: State, newGems: seq<GemId>)

  /** The scan of SpawnNewGemsToRefil from (x, y): every empty cell gets the
      next gem of the supply, spawned in place; occupied cells are skipped.
      Returns the state and the spawned ids in scan order. */
  function RefillScan(s: State, x: nat, y: nat, supply: seq<(GemId, nat)>, palette: nat): (r: Refilled)
    requires WellFormed(s) && x <= s.width && y <= s.height
    requires FreshSupply(s, supply, palette) && EmptyCount(s, x, y) <= |supply|
    ensures WellFormed(r.s) && r.s.width == s.width && r.s.height == s.height
    ensures |r.newGems| == EmptyCount(s, x, y)
    ensures forall i :: 0 <= i < |r.newGems| ==> r.newGems[i] == supply[i].0
    ensures forall a, b :: InBounds(s, a, b) && (Before(a, b, x, y) || s.board[a][b].Some?) ==>
      r.s.board[a][b] == s.board[a][b]
    decreases s.width - x, s.height - y
  {
    if x == s.width then
      Refilled(s, [])
    else if y == s.height then
      RefillScan(s, x + 1, 0, supply, palette)
    else if s.board[x][y].None? then
      SpawnFromSupply(s, x, y, supply, palette);
      var t := SpawnGem(s, x, y, supply[0].0, palette, supply[0].1);
      var rest := RefillScan(t, x, y + 1, supply[1..], palette);
      Refilled(rest.s, [supply[0].0] + rest.newGems)
    else
      RefillScan(s, x, y + 1, supply, palette)
  }

  /** Spawning the next gem of the supply into the empty cell (x, y) leaves
      the rest of the supply fresh and enough for the empty cells after it. */
  lemma SpawnFromSupply(s: State, x: nat, y: nat, supply: seq<(GemId, nat)>, palette: nat)
    requires WellFormed(s) && x < s.width && y < s.height && s.board[x][y].None?
    requires FreshSupply(s, supply, palette) && EmptyCount(s, x, y) <= |supply|
    ensures |supply| > 0
    ensures var t := SpawnGem(s, x, y, supply[0].0, palette, supply[0].1);
      && FreshSupply(t, supply[1..], palette)
      && EmptyCount(t, x, y + 1) == EmptyCount(s, x, y + 1)
      && EmptyCount(s, x, y) == EmptyCount(s, x, y + 1) + 1
  {
    var t := SpawnGem(s, x, y, supply[0].0, palette, supply[0].1);
    EmptyCountSame(s, t, x, y + 1);
  }

  /** Every empty cell of `s` at or after (x, y) holds, in `r`, the k-th gem
      of the supply, k counting the empty cells before it from (x, y); the gem
      is spawned there with the kind the supply gives it. */
  ghost predicate FilledFromSupply(s: State, r: State, x: int, y: int, supply: seq<(GemId, nat)>)
    requires WellFormed(s) && WellFormed(r) && r.width == s.width && r.height == s.height
    requires 0 <= x <= s.width && 0 <= y <= s.height
  {
    forall a, b :: InBounds(s, a, b) && NotBefore(a, b, x, y) && s.board[a][b].None? ==>
      var k := EmptyCount(s, x, y) - EmptyCount(s, a, b);
      0 <= k < |supply| && r.board[a][b] == Some(supply[k].0) && r.gems[supply[k].0] == Spawned(supply[k].1, a, b)
  }

  /** Every gem of `s` other than the first `n` of the supply keeps its record in `r`. */
  ghost predicate OthersKept(s: State, r: State, n: int, supply: seq<(GemId, nat)>)
    requires 0 <= n <= |supply|
  {
    forall h :: h in s.gems && (forall i :: 0 <= i < n ==> supply[i].0 != h) ==> h in r.gems && r.gems[h] == s.gems[h]
  }

  /** The scan from (x, y) fills every empty cell at or after (x, y): the k-th
      such cell in scan order gets the k-th gem of the supply, spawned in place
      with the kind the supply gives it. Every other gem keeps its record. */
  lemma {:induction false} RefillScanSpec(s: State, x: nat, y: nat, supply: seq<(GemId, nat)>, palette: nat)
    requires WellFormed(s) && x <= s.width && y <= s.height
    requires FreshSupply(s, supply, palette) && EmptyCount(s, x, y) <= |supply|
    ensures FilledFromSupply(s, RefillScan(s, x, y, supply, palette).s, x, y, supply)
    ensures OthersKept(s, RefillScan(s, x, y, supply, palette).s, EmptyCount(s, x, y), supply)
    decreases s.width - x, s.height - y, 1
  {
    if x == s.width {
    } else if y == s.height {
      RefillNextColumn(s, x, supply, palette);
    } else if s.board[x][y].None? {
      RefillStep(s, x, y, supply, palette);
    } else {
      RefillSkip(s, x, y, supply, palette);
    }
  }

  /** The step of RefillScanSpec at the top of a column. */
  lemma {:induction false} RefillNextColumn(s: State, x: nat, supply: seq<(GemId, nat)>, palette: nat)
    requires WellFormed(s) && x < s.width
    requires FreshSupply(s, supply, palette) && EmptyCount(s, x, s.height) <= |supply|
    ensures FilledFromSupply(s, RefillScan(s, x, s.height, supply, palette).s, x, s.height, supply)
    ensures OthersKept(s, RefillScan(s, x, s.height, supply, palette).s, EmptyCount(s, x, s.height), supply)
    decreases s.width - x, 0, 0
  {
    RefillScanSpec(s, x + 1, 0, supply, palette);
    var r := RefillScan(s, x, s.height, supply, palette).s;
    assert r == RefillScan(s, x + 1, 0, supply, palette).s;
    forall a, b | InBounds(s, a, b) && NotBefore(a, b, x, s.height) && s.board[a][b].None?
      ensures NotBefore(a, b, x + 1, 0)
    {
    }
  }

  /** The step of RefillScanSpec at an occupied cell. */
  lemma {:induction false} RefillSkip(s: State, x: nat, y: nat, supply: seq<(GemId, nat)>, palette: nat)
    requires WellFormed(s) && x < s.width && y < s.height && s.board[x][y].Some?
    requires FreshSupply(s, supply, palette) && EmptyCount(s, x, y) <= |supply|
    ensures FilledFromSupply(s, RefillScan(s, x, y, supply, palette).s, x, y, supply)
    ensures OthersKept(s, RefillScan(s, x, y, supply, palette).s, EmptyCount(s, x, y), supply)
    decreases s.width - x, s.height - y, 0
  {
    RefillScanSpec(s, x, y + 1, supply, palette);
    var r := RefillScan(s, x, y, supply, palette).s;
    assert r == RefillScan(s, x, y + 1, supply, palette).s;
  }

  /** The step of RefillScanSpec at an empty cell. */
  lemma {:induction false} RefillStep(s: State, x: nat, y: nat, supply: seq<(GemId, nat)>, palette: nat)
    requires WellFormed(s) && x < s.width && y < s.height && s.board[x][y].None?
    requires FreshSupply(s, supply, palette) && EmptyCount(s, x, y) <= |supply|
    ensures FilledFromSupply(s, RefillScan(s, x, y, supply, palette).s, x, y, supply)
    ensures OthersKept(s, RefillScan(s, x, y, supply, palette).s, EmptyCount(s, x, y), supply)
    decreases s.width - x, s.height - y, 0
  {
    SpawnFromSupply(s, x, y, supply, palette);
    var t := SpawnGem(s, x, y, supply[0].0, palette, supply[0].1);
    RefillScanSpec(t, x, y + 1, supply[1..], palette);
    var r := RefillScan(s, x, y, supply, palette).s;
    assert r == RefillScan(t, x, y + 1, supply[1..], palette).s;
    RefillStepCells(s, t, r, x, y, supply);
    RefillStepOthers(s, t, r, EmptyCount(t, x, y + 1), supply);
  }

  /** The cells half of RefillStep. */
  lemma RefillStepCells(s: State, t: State, r: State, x: nat, y: nat, supply: seq<(GemId, nat)>)
    requires WellFormed(s) && WellFormed(t) && WellFormed(r) && x < s.width && y < s.height && s.board[x][y].None?
    requires t.width == s.width && t.height == s.height && r.width == s.width && r.height == s.height
    requires 0 < |supply| && (forall i, j :: 0 <= i < j < |supply| ==> supply[i].0 != supply[j].0)
    requires forall a, b :: InBounds(s, a, b) && (a != x || b != y) ==> t.board[a][b] == s.board[a][b]
    requires t.board[x][y] == Some(supply[0].0) && t.gems[supply[0].0] == Spawned(supply[0].1, x, y)
    requires EmptyCount(s, x, y) == EmptyCount(t, x, y + 1) + 1 <= |supply|
    requires forall a, b :: InBounds(s, a, b) && Before(a, b, x, y + 1) ==> r.board[a][b] == t.board[a][b]
    requires FilledFromSupply(t, r, x, y + 1, supply[1..])
    requires OthersKept(t, r, EmptyCount(t, x, y + 1), supply[1..])
    ensures FilledFromSupply(s, r, x, y, supply)
  {
    var n := EmptyCount(s, x, y);
    forall a, b | InBounds(s, a, b) && NotBefore(a, b, x, y) && s.board[a][b].None?
      ensures var k := n - EmptyCount(s, a, b);
        0 <= k < |supply| && r.board[a][b] == Some(supply[k].0) && r.gems[supply[k].0] == Spawned(supply[k].1, a, b)
    {
      if a == x && b == y {
        assert supply[0].0 in t.gems;
        forall i | 0 <= i < EmptyCount(t, x, y + 1) ensures supply[1..][i].0 != supply[0].0 {
          assert supply[1..][i] == supply[i + 1];
        }
      } else {
        assert NotBefore(a, b, x, y + 1);
        EmptyCountSame(s, t, a, b);
        assert supply[1..][EmptyCount(t, x, y + 1) - EmptyCount(t, a, b)] == supply[n - EmptyCount(s, a, b)];
      }
    }
  }

  /** The records half of RefillStep: `m` gems used after the spawn at (x, y). */
  lemma RefillStepOthers(s: State, t: State, r: State, m: nat, supply: seq<(GemId, nat)>)
    requires 0 < |supply| && m + 1 <= |supply|
    requires t.gems.Keys == s.gems.Keys + {supply[0].0}
    requires forall h :: h in s.gems && h != supply[0].0 ==> t.gems[h] == s.gems[h]
    requires OthersKept(t, r, m, supply[1..])
    ensures OthersKept(s, r, m + 1, supply)
  {
    forall h | h in s.gems && (forall i :: 0 <= i < m + 1 ==> supply[i].0 != h)
      ensures h in r.gems && r.gems[h] == s.gems[h]
    {
      assert supply[0].0 != h;
      forall i | 0 <= i < m ensures supply[1..][i].0 != h {
        assert supply[1..][i] == supply[i + 1];
      }
    }
  }

  /** SpawnNewGemsToRefil: fills every empty cell of the board from the pool
      and hands the new gems, in scan order, to the controller. */
  function SpawnNewGemsToRefil(s: State, supply: seq<(GemId, nat)>, palette: nat): (r: Refilled)
    requires WellFormed(s) && FreshSupply(s, supply, palette) && EmptyCount(s, 0, 0) <= |supply|
    ensures WellFormed(r.s) && r.s.width == s.width && r.s.height == s.height
    ensures Full(r.s)
    ensures forall a, b :: InBounds(s, a, b) && s.board[a][b].Some? ==> r.s.board[a][b] == s.board[a][b]
    ensures |r.newGems| == EmptyCount(s, 0, 0) && forall i :: 0 <= i < |r.newGems| ==> r.newGems[i] == supply[i].0
    ensures r.newGems == [] <==> Full(s)
  {
    RefillScanSpec(s, 0, 0, supply, palette);
    EmptyCountZero(s, 0, 0);
    RefillScan(s, 0, 0, supply, palette)
  }

  /** Refilling a consistent board gives a full, consistent board: each new gem
      is spawned at the cell it fills, each old gem keeps its record. */
  lemma RefillConsistent(s: State, supply: seq<(GemId, nat)>, palette: nat)
    requires WellFormed(s) && Consistent(s) && FreshSupply(s, supply, palette) && EmptyCount(s, 0, 0) <= |supply|
    ensures var r := SpawnNewGemsToRefil(s, supply, palette).s;
      Full(r) && Consistent(r) &&
      forall a, b :: InBounds(s, a, b) && s.board[a][b].None? ==>
        r.board[a][b].Some? && !r.gems[r.board[a][b].value].isMatched && r.gems[r.board[a][b].value].kind < palette
  {
    RefillScanSpec(s, 0, 0, supply, palette);
    var r := SpawnNewGemsToRefil(s, supply, palette).s;
    forall a, b | InBounds(s, a, b) && s.board[a][b].Some?
      ensures r.gems[r.board[a][b].value] == s.gems[s.board[a][b].value]
    {
      var h := s.board[a][b].value;
      forall i | 0 <= i < EmptyCount(s, 0, 0) ensures supply[i].0 != h {
      }
    }
  }
}
