/** The cascade that follows a fall: RefilGemsBoard and ShuffleEntireBoard
    (GemsManager.cs), seen as a machine over three phases. A board with holes
    is refilled; a full board is either matched (destroy, fall, refill again),
    deadlocked (shuffle) or stable (the player may move again). */
module Cascade {
  import opened Wrappers
  import opened Board
  import opened Matching
  import opened Deadlock
  import opened Destroy
  import opened Gravity
  import opened Spawn
  import opened Shuffle

  /** Falling: gems were destroyed and fell, holes wait to be refilled.
      Deadlocked: full, no triple, no playable swap.
      Stable: full, no triple, some playable swap. */
  datatype Phase = Falling | Deadlocked | Stable

  /** The outcome of one round: the board, the phase it is in, the gems the
      round spawned and how many times the round called AddScore. */
  datatype Round = Round(s: State, next: Phase, newGems: seq<GemId>, scoreCalls: nat)

  /** No swap anywhere on the board makes a triple. */
  ghost predicate NoSwap(s: State)
    requires WellFormed(s)
  {
    forall x, y, d :: InBounds(s, x, y) ==> !SwapCreatesTriple(s, x, y, d)
  }

  /** Some swap on the board makes a triple. */
  ghost predicate SomeSwap(s: State)
    requires WellFormed(s)
  {
    exists x, y, d :: InBounds(s, x, y) && SwapCreatesTriple(s, x, y, d)
  }

  /** What each phase guarantees about the board; every phase keeps I2. */
  ghost predicate Holds(s: State, phase: Phase)
    requires WellFormed(s)
  {
    && Consistent(s)
    && match phase
       case Falling => true
       case Deadlocked => Full(s) && !AnyTriple(s) && NoSwap(s)
       case Stable => Full(s) && !AnyTriple(s) && SomeSwap(s)
  }

  /** The decision both RefilGemsBoard and the loop of ShuffleEntireBoard take on
      a full board: if HasMatchesOnBoard flags a run, destroy the matched gems and
      let the rest fall; otherwise the board is deadlocked when
      HasNoMovementsLeft holds and stable when it does not. */
  function Resolve(t: State): (r: Round)
    requires WellFormed(t) && Consistent(t) && Full(t)
    ensures WellFormed(r.s) && r.s.width == t.width && r.s.height == t.height && r.s.gems.Keys == t.gems.Keys
    ensures Holds(r.s, r.next) && r.newGems == []
    ensures r.next != Falling ==> r.s == t && r.scoreCalls == 0
  {
    HasMatchesOnBoardFull(t);
    HasNoMovementsLeftFull(t);
    var p := HasMatchesOnBoard(t);
    if p.found then
      FlagsKeepConsistent(t, p.s);
      var d := DestroyAllMatchedGems(p.s);
      DestroyAllMatchedGemsSpec(p.s);
      FallenConsistent(d.s);
      Round(Fallen(d.s), Falling, [], d.scoreCalls)
    else if HasNoMovementsLeft(t) then
      Round(t, Deadlocked, [], 0)
    else
      Round(t, Stable, [], 0)
  }

  /** On a full board the three outcomes are exactly: a triple; no triple and no
      playable swap; no triple and some playable swap. */
  lemma ResolveOutcome(t: State)
    requires WellFormed(t) && Consistent(t) && Full(t)
    ensures Resolve(t).next == Falling <==> AnyTriple(t)
    ensures Resolve(t).next == Deadlocked <==> !AnyTriple(t) && NoSwap(t)
    ensures Resolve(t).next == Stable <==> !AnyTriple(t) && SomeSwap(t)
  {
    HasMatchesOnBoardFull(t);
    HasNoMovementsLeftFull(t);
  }

  /** A destroying round calls AddScore once per three gems matched on the
      flagged board. */
  lemma ResolveScore(t: State)
    requires WellFormed(t) && Consistent(t) && Full(t)
    ensures var p := HasMatchesOnBoard(t);
      Resolve(t).next == Falling ==> WellFormed(p.s) && Resolve(t).scoreCalls == |MatchedCells(p.s)| / 3
  {
    HasMatchesOnBoardFull(t);
    var p := HasMatchesOnBoard(t);
    if p.found {
      FlagsKeepConsistent(t, p.s);
      DestroyAllMatchedGemsSpec(p.s);
    }
  }

  /** RefilGemsBoard: fill every hole from the supply, then resolve the full board. */
  function RefilGemsBoard(s: State, supply: seq<(GemId, nat)>, palette: nat): (r: Round)
    requires WellFormed(s) && Consistent(s) && FreshSupply(s, supply, palette) && EmptyCount(s, 0, 0) <= |supply|
    ensures WellFormed(r.s) && r.s.width == s.width && r.s.height == s.height
    ensures Holds(r.s, r.next)
    ensures |r.newGems| == EmptyCount(s, 0, 0) && forall i :: 0 <= i < |r.newGems| ==> r.newGems[i] == supply[i].0
  {
    var f := SpawnNewGemsToRefil(s, supply, palette);
    RefillConsistent(s, supply, palette);
    Resolve(f.s).(newGems := f.newGems)
  }

  /** The refill round's phase is decided by the refilled board alone: falling
      again exactly when it shows a triple, deadlocked exactly when it shows none
      and has no playable swap. */
  lemma RefilOutcome(s: State, supply: seq<(GemId, nat)>, palette: nat)
    requires WellFormed(s) && Consistent(s) && FreshSupply(s, supply, palette) && EmptyCount(s, 0, 0) <= |supply|
    ensures var t := SpawnNewGemsToRefil(s, supply, palette).s;
      && WellFormed(t) && Full(t)
      && (RefilGemsBoard(s, supply, palette).next == Falling <==> AnyTriple(t))
      && (RefilGemsBoard(s, supply, palette).next == Deadlocked <==> !AnyTriple(t) && NoSwap(t))
      && (RefilGemsBoard(s, supply, palette).next == Stable <==> !AnyTriple(t) && SomeSwap(t))
  {
    RefillConsistent(s, supply, palette);
    ResolveOutcome(SpawnNewGemsToRefil(s, supply, palette).s);
  }

  /** One pass of the loop of ShuffleEntireBoard: shuffle, then resolve. */
  function ShuffleIteration(s: State, columnOrder: seq<int>, rowOrders: seq<seq<int>>): (r: Round)
    requires WellFormed(s) && Consistent(s) && Full(s) && ValidOrders(s, columnOrder, rowOrders)
    ensures WellFormed(r.s) && r.s.width == s.width && r.s.height == s.height && r.s.gems.Keys == s.gems.Keys
    ensures Holds(r.s, r.next) && r.newGems == []
  {
    ConsistentDistinct(s);
    ShuffleBoardConsistent(s, columnOrder, rowOrders);
    Resolve(ShuffleBoard(s, columnOrder, rowOrders))
  }

  /** What the environment feeds the machine: the pooled gems a refill spawns
      (id and kind, in scan order), or the orders a shuffle draws. */
  datatype Input =
    | Refill(supply: seq<(GemId, nat)>)
    | Reorder(columnOrder: seq<int>, rowOrders: seq<seq<int>>)

  /** The input suits the phase: a falling board takes a refill with enough
      fresh gems, a deadlocked board takes valid shuffle orders. */
  predicate Fits(s: State, phase: Phase, input: Input, palette: nat)
    requires WellFormed(s)
  {
    match input
    case Refill(supply) =>
      phase == Falling && FreshSupply(s, supply, palette) && EmptyCount(s, 0, 0) <= |supply|
    case Reorder(columnOrder, rowOrders) =>
      phase == Deadlocked && Full(s) && ValidOrders(s, columnOrder, rowOrders)
  }

  /** The end of a run: the board, its phase, the rounds played and the total
      number of AddScore calls. */
  datatype Chain = Chain(s: State, phase: Phase, rounds: nat, scoreCalls: nat)

  /** The whole cascade after ProcessGemsToFall, including the nested falls a
      shuffle can start: rounds are played until the board is stable or the
      inputs run out or stop fitting. Every board the machine passes through
      keeps I2, a deadlock is only ever answered by a shuffle, and a run that
      ends stable ends on a full board with no triple and a playable swap. */
  function RunCascade(s: State, phase: Phase, inputs: seq<Input>, palette: nat): (r: Chain)
    requires WellFormed(s) && Holds(s, phase)
    ensures WellFormed(r.s) && r.s.width == s.width && r.s.height == s.height
    ensures Holds(r.s, r.phase)
    ensures r.rounds <= |inputs|
    ensures r.rounds < |inputs| ==> r.phase == Stable || !Fits(r.s, r.phase, inputs[r.rounds], palette)
    ensures phase == Stable ==> r == Chain(s, Stable, 0, 0)
    decreases |inputs|
  {
    if phase == Stable || |inputs| == 0 || !Fits(s, phase, inputs[0], palette) then
      Chain(s, phase, 0, 0)
    else
      var o := PlayRound(s, phase, inputs[0], palette);
      var rest := RunCascade(o.s, o.next, inputs[1..], palette);
      assert rest.rounds < |inputs[1..]| ==> inputs[1..][rest.rounds] == inputs[rest.rounds + 1];
      Chain(rest.s, rest.phase, rest.rounds + 1, o.scoreCalls + rest.scoreCalls)
  }

  /** One round of the machine on an input that fits the phase: a refill for a
      falling board, a shuffle pass for a deadlocked one. */
  function PlayRound(s: State, phase: Phase, input: Input, palette: nat): (r: Round)
    requires WellFormed(s) && Holds(s, phase) && Fits(s, phase, input, palette)
    ensures WellFormed(r.s) && r.s.width == s.width && r.s.height == s.height
    ensures Holds(r.s, r.next)
  {
    match input
    case Refill(supply) => RefilGemsBoard(s, supply, palette)
    case Reorder(columnOrder, rowOrders) => ShuffleIteration(s, columnOrder, rowOrders)
  }
}
