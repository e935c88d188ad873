/** GameManager.StartGame and GameManager.ResetGame: the counters restart, the
    controller forgets its pairs, and a fresh board is spawned. */
module Game {
  import opened Wrappers
  import opened Board
  import opened Spawn
  import opened Controller
  import Score
  import Reset

  /** What a game holds: the board, the controller's flags, the score counters,
      and whether the game is running. */
  datatype Game = Game(s: State, c: Flags, tally: Score.Tally, running: bool)

  /** StartGame: score counters to their start, ResetController, then
      SpawnInitialGems. The result is None only when the rolls run out, and
      then `used` says every roll was drawn. A game
      that starts has a full board without a triple, cleared counters and an
      idle controller. */
  method StartGame(s: State, c: Flags, cfg: Score.Settings, ids: seq<seq<GemId>>, palette: nat, rolls: seq<nat>)
    returns (r: Option<Game>, used: nat)
    requires WellFormed(s) && DistinctIds(s, ids)
    requires forall i :: 0 <= i < |rolls| ==> rolls[i] < palette
    ensures used <= |rolls| && (r.None? ==> used == |rolls|)
    ensures r.Some? ==> WellFormed(r.value.s) && r.value.s.width == s.width && r.value.s.height == s.height
    ensures r.Some? ==> Full(r.value.s) && Consistent(r.value.s) && !AnyTriple(r.value.s)
    ensures r.Some? ==> r.value.running && r.value.tally == Score.Tally(0, 0, 1, cfg.initialScoreTarget)
    ensures r.Some? ==> r.value.c.pairs == [] && !r.value.c.needFall && !r.value.c.hasNewGems && r.value.c.allowSwipe
  {
    var tally := Score.StartGame(cfg);
    var flags := ResetController(c);
    var board;
    board, used := SpawnInitialGems(s, ids, palette, rolls);
    match board
    case None => r := None;
    case Some(b) => r := Some(Game(b, flags, tally, true));
  }

  /** ResetGame: ResetGemsBoard, then StartGame. With the corrected
      ResetGemsBoard the reset works on any board, holes included: the board
      is emptied and the new game starts as StartGame promises. */
  method ResetGame(g: Game, cfg: Score.Settings, ids: seq<seq<GemId>>, palette: nat, rolls: seq<nat>)
    returns (r: Option<Game>, used: nat)
    requires WellFormed(g.s) && DistinctIds(g.s, ids)
    requires forall i :: 0 <= i < |rolls| ==> rolls[i] < palette
    ensures used <= |rolls| && (r.None? ==> used == |rolls|)
    ensures r.Some? ==> WellFormed(r.value.s) && r.value.s.width == g.s.width && r.value.s.height == g.s.height
    ensures r.Some? ==> Full(r.value.s) && Consistent(r.value.s) && !AnyTriple(r.value.s)
    ensures r.Some? ==> r.value.running && r.value.tally == Score.Tally(0, 0, 1, cfg.initialScoreTarget)
    ensures r.Some? ==> r.value.c.pairs == [] && !r.value.c.needFall && !r.value.c.hasNewGems && r.value.c.allowSwipe
  {
    var cleared := Reset.ResetGemsBoardFixed(g.s);
    r, used := StartGame(cleared, g.c, cfg, ids, palette, rolls);
  }
}
