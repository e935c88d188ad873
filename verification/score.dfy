/** The integer side of GameManager.cs: the stage score, the running total,
    the stage number and the score target that moves the game to the next
    stage. The timer, the slider and the labels are presentation only. */
module Score {
  /** The designer's settings. The increase rate is a float in the source
      (range 0.001 to 1); it is modelled as an exact real. */
  datatype Settings = Settings(matchScoreValue: int, comboScoreMultiplier: int, initialScoreTarget: int, scoreIncreaseRate: real)

  /** The four counters GameManager keeps. */
  datatype Tally = Tally(stageScore: int, totalScore: int, stage: int, target: int)

  /** Settings as the inspector allows them and the game plays sensibly with:
      non-negative awards, a positive first target, the rate within its range. */
  predicate ValidSettings(cfg: Settings) {
    && cfg.matchScoreValue >= 0
    && cfg.comboScoreMultiplier >= 0
    && cfg.initialScoreTarget > 0
    && 0.001 <= cfg.scoreIncreaseRate <= 1.0
  }

  /** The C# cast from a floating value to int: truncation toward zero. */
  function TruncateToInt(v: real): (r: int)
    ensures v >= 0.0 ==> r as real <= v < r as real + 1.0
    ensures v <= 0.0 ==> r as real - 1.0 < v <= r as real
  {
    if v >= 0.0 then v.Floor else -((-v).Floor)
  }

  /** A share at a rate between 0 and 1 lies between nothing and the whole. */
  lemma ShareWithin(a: real, rate: real)
    requires a >= 0.0 && 0.0 <= rate <= 1.0
    ensures 0.0 <= a * rate <= a
  {
    assert a * (1.0 - rate) >= 0.0;
  }

  /** How much the target grows at each new stage: the first target plus its
      share at the increase rate, truncated. */
  function TargetIncrease(cfg: Settings): (r: int)
    ensures ValidSettings(cfg) ==> cfg.initialScoreTarget <= r <= 2 * cfg.initialScoreTarget
  {
    var initial := cfg.initialScoreTarget as real;
    var grown := initial + initial * cfg.scoreIncreaseRate;
    if ValidSettings(cfg) then
      ShareWithin(initial, cfg.scoreIncreaseRate);
      var r := TruncateToInt(grown);
      assert r as real <= grown <= (2 * cfg.initialScoreTarget) as real;
      r
    else
      TruncateToInt(grown)
  }

  /** The points one AddScore call is worth: the match value, multiplied by the
      combo score when that is positive. */
  function Award(cfg: Settings, comboMultiplier: int): (r: int)
    ensures ValidSettings(cfg) ==> r >= 0
    ensures comboMultiplier * cfg.comboScoreMultiplier <= 0 ==> r == cfg.matchScoreValue
  {
    var comboScore := comboMultiplier * cfg.comboScoreMultiplier;
    if comboScore > 0 then cfg.matchScoreValue * comboScore else cfg.matchScoreValue
  }

  /** StartGame: stage one, nothing scored, the first target. */
  function StartGame(cfg: Settings): (r: Tally)
    ensures r.stage == 1 && r.stageScore == 0 && r.totalScore == 0 && r.target == cfg.initialScoreTarget
    ensures ValidSettings(cfg) ==> Sane(r)
  {
    Tally(0, 0, 1, cfg.initialScoreTarget)
  }

  /** UpdateScoreTarget: reaching the target starts the next stage from a zero
      stage score with a larger target; otherwise nothing changes. */
  function UpdateScoreTarget(cfg: Settings, t: Tally): (r: Tally)
    ensures t.stageScore >= t.target ==>
      r.stage == t.stage + 1 && r.stageScore == 0 && r.target == t.target + TargetIncrease(cfg)
    ensures t.stageScore < t.target ==> r == t
    ensures r.totalScore == t.totalScore
  {
    if t.stageScore >= t.target then
      t.(stageScore := 0, target := t.target + TargetIncrease(cfg), stage := t.stage + 1)
    else
      t
  }

  /** AddScore: the award goes to the stage score, and then the whole new stage
      score (not just the award) is added to the total, before the target is
      checked. So the total grows by the award plus the stage score already
      held; the stage advances exactly when that sum reaches the target, and
      then the stage score restarts from zero. With valid settings the counters
      stay sane and the total, the stage and the target never go down. */
  function AddScore(cfg: Settings, t: Tally, comboMultiplier: int): (r: Tally)
    ensures var reached := t.stageScore + Award(cfg, comboMultiplier);
      && r.totalScore == t.totalScore + reached
      && (reached >= t.target <==> r.stage == t.stage + 1)
      && (reached >= t.target ==> r.stageScore == 0 && r.target == t.target + TargetIncrease(cfg))
      && (reached < t.target ==> r.stage == t.stage && r.stageScore == reached && r.target == t.target)
    ensures ValidSettings(cfg) && Sane(t) ==>
      Sane(r) && r.totalScore >= t.totalScore && r.stage >= t.stage && r.target >= t.target
  {
    var stageScore := t.stageScore + Award(cfg, comboMultiplier);
    UpdateScoreTarget(cfg, t.(stageScore := stageScore, totalScore := t.totalScore + stageScore))
  }

  /** The counters a running game can show: a stage of at least one, a stage
      score below a positive target, a non-negative total. */
  predicate Sane(t: Tally) {
    t.stage >= 1 && 0 <= t.stageScore < t.target && t.totalScore >= 0
  }

  /** The AddScore calls one DestroyAllMatchedGems makes: `n` calls without a
      combo. */
  function AddScores(cfg: Settings, t: Tally, n: nat): (r: Tally)
    decreases n
    requires ValidSettings(cfg) && Sane(t)
    ensures Sane(r) && r.totalScore >= t.totalScore && r.stage >= t.stage
  {
    if n == 0 then t
    else
      var u := AddScore(cfg, t, 0);
      assert Sane(u);
      AddScores(cfg, u, n - 1)
  }

  /** 1 + 2 + ... + n. */
  function Triangle(n: nat): (r: nat)
    ensures r == n * (n + 1) / 2
  {
    if n == 0 then 0 else n + Triangle(n - 1)
  }

  lemma Distribute(a: int, b: int, c: int)
    ensures a * (b + c) == a * b + a * c
  {
  }

  lemma MulSucc(m: int, a: int)
    ensures (m + 1) * a == m * a + a && a * (m + 1) == m * a + a
  {
  }

  /** Within one stage the total grows quadratically: the k-th call adds k match
      values on top of what the stage held, because the total is credited with
      the whole running stage score each time. Starting from `t`, `n` calls that
      stay below the target add n * t.stageScore + value * (1 + 2 + ... + n). */
  lemma {:induction false} AddScoresWithinStage(cfg: Settings, t: Tally, n: nat)
    requires ValidSettings(cfg) && Sane(t)
    requires t.stageScore + n * cfg.matchScoreValue < t.target
    ensures var r := AddScores(cfg, t, n);
      && r.stage == t.stage && r.target == t.target
      && r.stageScore == t.stageScore + n * cfg.matchScoreValue
      && r.totalScore == t.totalScore + n * t.stageScore + cfg.matchScoreValue * Triangle(n)
    decreases n
  {
    if n > 0 {
      var v, m, st := cfg.matchScoreValue, n - 1, t.stageScore;
      MulSucc(m, v);
      MulSucc(m, st);
      Distribute(m, st, v);
      Distribute(v, n, Triangle(m));
      var u := AddScore(cfg, t, 0);
      assert u == t.(stageScore := st + v, totalScore := t.totalScore + st + v);
      AddScoresWithinStage(cfg, u, m);
    }
  }
}
