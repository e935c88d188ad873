/** Match detection: the run scans along a row and a column, FindMatches for
    one gem, and the board-wide HasMatchesOnBoard. */
module Matching {
  import opened Wrappers
  import opened Board
  import opened GemOps

  /** A run of `len` cells starting at index `start` of a line. */
  datatype Run = Run(start: nat, len: nat)

  /** The outcome of a scan: the board after flagging, and whether anything matched. */
  datatype Probe = Probe(s: State, found: bool)

  /** Three equal, non-empty entries starting at index `t`. */
  predicate Triple(line: seq<Option<nat>>, t: int) {
    0 <= t && t + 2 < |line| && line[t].Some? && line[t + 1] == line[t] && line[t + 2] == line[t]
  }

  /** A scan starting at `i` gets as far as `t`: no empty entry in between. */
  predicate Reaches(line: seq<Option<nat>>, i: int, t: int) {
    forall k :: i <= k < t && 0 <= k < |line| ==> line[k].Some?
  }

  /** A triple a scan from index 0 can see: it starts before the first empty entry. */
  predicate LeadTriple(line: seq<Option<nat>>, t: int) {
    Reaches(line, 0, t) && Triple(line, t)
  }

  /** The same-kind chain that the recursive check grows from index `i`:
      it extends while the next entry is non-empty and of the same kind. */
  function ChainLength(line: seq<Option<nat>>, i: nat): (n: nat)
    requires i < |line| && line[i].Some?
    ensures 1 <= n <= |line| - i
    ensures forall k :: i <= k < i + n ==> line[k] == line[i]
    ensures i + n == |line| || line[i + n] != line[i]
    decreases |line| - i
  {
    if i + 1 < |line| && line[i + 1].Some? && line[i].value == line[i + 1].value then
      1 + ChainLength(line, i + 1)
    else
      1
  }

  /** A chain reaches three cells exactly when a triple starts there. */
  lemma ChainLengthTriple(line: seq<Option<nat>>, i: nat)
    requires i < |line| && line[i].Some?
    ensures ChainLength(line, i) >= 3 <==> Triple(line, i)
  {
  }

  /** The scan of one row or column from index `i`: at each index, stop at an
      empty entry; otherwise grow the chain there and accept it once it has
      three cells. The accepted run is the first one met, wherever the queried
      gem is. */
  function FirstRun(line: seq<Option<nat>>, i: nat): (r: Option<Run>)
    requires i <= |line|
    ensures r.Some? ==> i <= r.value.start && 3 <= r.value.len && r.value.start + r.value.len <= |line|
    ensures r.Some? ==> forall k :: r.value.start <= k < r.value.start + r.value.len ==>
      line[k].Some? && line[k] == line[r.value.start]
    ensures r.Some? ==> r.value.start + r.value.len == |line| || line[r.value.start + r.value.len] != line[r.value.start]
    ensures r.Some? ==> Reaches(line, i, r.value.start) && Triple(line, r.value.start)
    ensures r.Some? ==> forall t :: i <= t < r.value.start ==> !Triple(line, t)
    ensures r.None? <==> forall t :: i <= t && Reaches(line, i, t) ==> !Triple(line, t)
    decreases |line| - i
  {
    if i == |line| || line[i].None? then
      None
    else if ChainLength(line, i) >= 3 then
      ChainLengthTriple(line, i);
      Some(Run(i, ChainLength(line, i)))
    else
      ChainLengthTriple(line, i);
      var r := FirstRun(line, i + 1);
      assert forall t :: i + 1 <= t && Reaches(line, i, t) ==> Reaches(line, i + 1, t);
      r
  }

  /** The ids of a line's cells that a run covers. */
  function RunIds(ids: seq<Option<GemId>>, run: Option<Run>): (m: set<GemId>)
    requires run.Some? ==> run.value.start + run.value.len <= |ids|
    ensures forall h :: h in m ==> exists k :: 0 <= k < |ids| && ids[k] == Some(h)
  {
    match run
    case None => {}
    case Some(Run(start, len)) =>
      set k | start <= k < start + len && ids[k].Some? :: ids[k].value
  }

  /** The gem `h` sits somewhere in row `y` or in column `x`. */
  predicate OnLines(s: State, x: int, y: int, h: GemId)
    requires WellFormed(s) && InBounds(s, x, y)
  {
    (exists i :: 0 <= i < s.width && s.board[i][y] == Some(h)) ||
    (exists j :: 0 <= j < s.height && s.board[x][j] == Some(h))
  }

  /** The gems FindMatches accepts for the query gem `g`: the first run of its
      row and the first run of its column (row and column chosen by the gem's
      own coordinates, not by where it sits on the board). */
  function Matched(s: State, g: GemId): (m: set<GemId>)
    requires WellFormed(s) && Addressable(s, g)
    ensures m <= s.gems.Keys
  {
    var x, y := s.gems[g].column, s.gems[g].row;
    RunIds(RowIds(s, y), FirstRun(RowKinds(s, y), 0)) + RunIds(s.board[x], FirstRun(ColumnKinds(s, x), 0))
  }

  /** Every accepted gem lies on the query gem's row or column, and something is
      accepted exactly when one of the two lines holds a triple before its first
      empty cell. */
  lemma MatchedSpec(s: State, g: GemId)
    requires WellFormed(s) && Addressable(s, g)
    ensures forall h :: h in Matched(s, g) ==> OnLines(s, s.gems[g].column, s.gems[g].row, h)
    ensures Matched(s, g) == {} <==>
      (forall t :: !LeadTriple(RowKinds(s, s.gems[g].row), t)) &&
      (forall t :: !LeadTriple(ColumnKinds(s, s.gems[g].column), t))
  {
    var x, y := s.gems[g].column, s.gems[g].row;
    var hr := FirstRun(RowKinds(s, y), 0);
    var vr := FirstRun(ColumnKinds(s, x), 0);
    var mh := RunIds(RowIds(s, y), hr);
    var mv := RunIds(s.board[x], vr);
    assert Matched(s, g) == mh + mv;
    forall h | h in mh ensures OnLines(s, x, y, h) {
      var k :| 0 <= k < s.width && RowIds(s, y)[k] == Some(h);
      assert s.board[k][y] == Some(h);
    }
    forall h | h in mv ensures OnLines(s, x, y, h) {
      var k :| 0 <= k < s.height && s.board[x][k] == Some(h);
    }
    if hr.Some? {
      var k := hr.value.start;
      assert RowKinds(s, y)[k].Some?;
      assert s.board[k][y].value in mh;
    } else {
      assert forall t :: !LeadTriple(RowKinds(s, y), t);
    }
    if vr.Some? {
      var k := vr.value.start;
      assert ColumnKinds(s, x)[k].Some?;
      assert s.board[x][k].value in mv;
    } else {
      assert forall t :: !LeadTriple(ColumnKinds(s, x), t);
    }
    if hr.Some? {
      assert LeadTriple(RowKinds(s, y), hr.value.start);
    }
    if vr.Some? {
      assert LeadTriple(ColumnKinds(s, x), vr.value.start);
    }
  }

  /** Sets the match flag of every gem in `m`, leaving every other record alone. */
  function Flag(gems: map<GemId, Gem>, m: set<GemId>): (r: map<GemId, Gem>)
    ensures r.Keys == gems.Keys
    ensures forall h :: h in gems && h in m ==> r[h] == gems[h].(isMatched := true)
    ensures forall h :: h in gems && h !in m ==> r[h] == gems[h]
  {
    map h | h in gems :: if h in m then gems[h].(isMatched := true) else gems[h]
  }

  /** Flagging the same gems twice is flagging them once. */
  lemma FlagTwice(gems: map<GemId, Gem>, m: set<GemId>)
    ensures Flag(Flag(gems, m), m) == Flag(gems, m)
  {
  }

  /** A gem reference FindMatches may be given: null, or a gem whose coordinates name a cell. */
  predicate Queryable(s: State, gem: Option<GemId>) {
    gem.Some? ==> Addressable(s, gem.value)
  }

  /** Whether FindMatches succeeds for `gem`. */
  predicate Finds(s: State, gem: Option<GemId>)
    requires WellFormed(s) && Queryable(s, gem)
  {
    gem.Some? && Matched(s, gem.value) != {}
  }

  /** FindMatches: scans the query gem's row and column and flags every gem of
      the first run found on each; a null query flags nothing. */
  function FindMatches(s: State, gem: Option<GemId>): (r: Probe)
    requires WellFormed(s) && Queryable(s, gem)
    ensures WellFormed(r.s) && r.s == s.(gems := r.s.gems) && r.s.gems.Keys == s.gems.Keys
    ensures r.found == Finds(s, gem)
    ensures !r.found ==> r.s == s
    ensures forall h :: h in s.gems ==> r.s.gems[h] == s.gems[h] || r.s.gems[h] == s.gems[h].(isMatched := true)
  {
    match gem
    case None => Probe(s, false)
    case Some(g) =>
      var m := Matched(s, g);
      if m == {} then Probe(s, false) else Probe(s.(gems := Flag(s.gems, m)), true)
  }

  /** What FindMatches promises: a null query answers false and changes nothing;
      otherwise it only ever sets match flags, only on gems of the query gem's
      row and column, sets one on every accepted gem, and answers true exactly
      when it accepted a gem, i.e. when one of the two lines holds a triple the
      scan reaches before an empty cell. */
  lemma FindMatchesSpec(s: State, gem: Option<GemId>)
    requires WellFormed(s) && Queryable(s, gem)
    ensures gem.None? ==> FindMatches(s, gem) == Probe(s, false)
    ensures forall h :: h in s.gems ==>
      FindMatches(s, gem).s.gems[h] == s.gems[h] || FindMatches(s, gem).s.gems[h] == s.gems[h].(isMatched := true)
    ensures gem.Some? ==> forall h :: h in s.gems && FindMatches(s, gem).s.gems[h] != s.gems[h] ==>
      OnLines(s, s.gems[gem.value].column, s.gems[gem.value].row, h)
    ensures gem.Some? ==> (FindMatches(s, gem).found <==> Matched(s, gem.value) != {})
    ensures gem.Some? ==> forall h :: h in Matched(s, gem.value) ==> FindMatches(s, gem).s.gems[h].isMatched
    ensures gem.Some? ==> forall h :: h in s.gems ==>
      (FindMatches(s, gem).s.gems[h].isMatched <==> s.gems[h].isMatched || h in Matched(s, gem.value))
    ensures gem.Some? ==> (FindMatches(s, gem).found <==>
      (exists t :: LeadTriple(RowKinds(s, s.gems[gem.value].row), t)) ||
      (exists t :: LeadTriple(ColumnKinds(s, s.gems[gem.value].column), t)))
  {
    if gem.Some? {
      MatchedSpec(s, gem.value);
    }
  }

  /** Changing only match flags keeps every kind, hence every scan, the same. */
  lemma FlagKeepsKinds(s: State, m: set<GemId>)
    requires WellFormed(s)
    ensures WellFormed(s.(gems := Flag(s.gems, m)))
    ensures SameKinds(s, s.(gems := Flag(s.gems, m)))
  {
  }

  /** The accepted set depends only on the kinds and the query gem's coordinates. */
  lemma MatchedAfterFlag(s: State, m: set<GemId>, g: GemId)
    requires WellFormed(s) && Addressable(s, g)
    ensures Addressable(s.(gems := Flag(s.gems, m)), g)
    ensures Matched(s.(gems := Flag(s.gems, m)), g) == Matched(s, g)
  {
    var t := s.(gems := Flag(s.gems, m));
    FlagKeepsKinds(s, m);
    assert t.gems[g].column == s.gems[g].column && t.gems[g].row == s.gems[g].row;
    assert RowKinds(t, t.gems[g].row) == RowKinds(s, s.gems[g].row);
    assert ColumnKinds(t, t.gems[g].column) == ColumnKinds(s, s.gems[g].column);
    assert RowIds(t, t.gems[g].row) == RowIds(s, s.gems[g].row);
  }

  /** FindMatches is idempotent: a second call with the same gem finds the same
      runs and flags nothing new. */
  lemma FindMatchesIdempotent(s: State, gem: Option<GemId>)
    requires WellFormed(s) && Queryable(s, gem)
    ensures Queryable(FindMatches(s, gem).s, gem)
    ensures FindMatches(FindMatches(s, gem).s, gem) == FindMatches(s, gem)
  {
    var r := FindMatches(s, gem);
    if gem.Some? && r.found {
      var g := gem.value;
      var m := Matched(s, g);
      var t := s.(gems := Flag(s.gems, m));
      assert r == Probe(t, true);
      MatchedAfterFlag(s, m, g);
      FlagTwice(s.gems, m);
      assert FindMatches(t, gem) == Probe(t.(gems := Flag(t.gems, m)), true);
    }
  }

  /** HasMatches of the swap pair: the selected gem's scan, and the neighbour's
      only when the first found nothing. */
  function HasMatches(s: State, a: GemId, b: GemId): (r: Probe)
    requires WellFormed(s) && Addressable(s, a) && Addressable(s, b)
    ensures WellFormed(r.s) && r.s == s.(gems := r.s.gems) && r.s.gems.Keys == s.gems.Keys
    ensures r.found <==> Finds(s, Some(a)) || Finds(s, Some(b))
    ensures !r.found ==> r.s == s
    ensures forall h :: h in s.gems ==> r.s.gems[h] == s.gems[h] || r.s.gems[h] == s.gems[h].(isMatched := true)
  {
    var p := FindMatches(s, Some(a));
    if p.found then p else FindMatches(p.s, Some(b))
  }

  /** What HasMatches flags: only the selected gem's accepted runs when its
      scan succeeds, so the neighbour's runs stay unflagged then, and
      otherwise only the neighbour's accepted runs. */
  lemma HasMatchesSpec(s: State, a: GemId, b: GemId)
    requires WellFormed(s) && Addressable(s, a) && Addressable(s, b)
    ensures forall h :: h in s.gems ==>
      (HasMatches(s, a, b).s.gems[h].isMatched <==>
       s.gems[h].isMatched || h in (if Finds(s, Some(a)) then Matched(s, a) else Matched(s, b)))
  {
    FindMatchesSpec(s, Some(a));
    if !Finds(s, Some(a)) {
      FindMatchesSpec(s, Some(b));
    }
  }

  /** Calling HasMatches a second time changes nothing and answers the same,
      so the pair check that calls it twice after a swap acts as one call. */
  lemma HasMatchesIdempotent(s: State, a: GemId, b: GemId)
    requires WellFormed(s) && Addressable(s, a) && Addressable(s, b)
    ensures HasMatches(HasMatches(s, a, b).s, a, b) == HasMatches(s, a, b)
  {
    var p := FindMatches(s, Some(a));
    if p.found {
      FindMatchesIdempotent(s, Some(a));
    } else {
      var q := FindMatches(s, Some(b));
      FindMatchesIdempotent(s, Some(b));
      if q.found {
        MatchedAfterFlag(s, Matched(s, b), a);
        assert q.s == s.(gems := Flag(s.gems, Matched(s, b)));
        assert !Finds(q.s, Some(a));
      }
    }
  }

  /** FindMatches run on the gem in cell (x, y), null cells included. */
  predicate MatchAt(s: State, x: int, y: int)
    requires WellFormed(s) && CoordsInBounds(s) && InBounds(s, x, y)
  {
    Finds(s, s.board[x][y])
  }

  /** (a, b) is the first cell at or after (x, y), in column-major order,
      where FindMatches succeeds. */
  ghost predicate FirstMatchFrom(s: State, a: int, b: int, x: int, y: int)
    requires WellFormed(s) && CoordsInBounds(s)
  {
    && InBounds(s, a, b) && NotBefore(a, b, x, y) && MatchAt(s, a, b)
    && forall c, d :: InBounds(s, c, d) && NotBefore(c, d, x, y) && !NotBefore(c, d, a, b) ==> !MatchAt(s, c, d)
  }

  /** The column-major scan of HasMatchesOnBoard from cell (x, y): FindMatches
      on every cell in turn, stopping at the first one that finds something. */
  function ScanBoard(s: State, x: nat, y: nat): (r: Probe)
    requires WellFormed(s) && CoordsInBounds(s) && x <= s.width && y <= s.height
    ensures !r.found ==> r.s == s
    decreases s.width - x, s.height - y
  {
    if x == s.width then
      Probe(s, false)
    else if y == s.height then
      ScanBoard(s, x + 1, 0)
    else
      var p := FindMatches(s, s.board[x][y]);
      if p.found then p else
        ScanBoard(s, x, y + 1)
  }

  /** The scan from (x, y) succeeds exactly when FindMatches succeeds for some
      cell at or after (x, y); when it succeeds its result is FindMatches on the
      first such cell. */
  lemma ScanBoardSpec(s: State, x: nat, y: nat)
    requires WellFormed(s) && CoordsInBounds(s) && x <= s.width && y <= s.height
    ensures ScanBoard(s, x, y).found <==> exists a, b :: InBounds(s, a, b) && NotBefore(a, b, x, y) && MatchAt(s, a, b)
    ensures ScanBoard(s, x, y).found ==>
      exists a, b :: FirstMatchFrom(s, a, b, x, y) && ScanBoard(s, x, y) == FindMatches(s, s.board[a][b])
  {
    var a, b := ScanFirstMatch(s, x, y);
    if ScanBoard(s, x, y).found {
      assert InBounds(s, a, b) && NotBefore(a, b, x, y) && MatchAt(s, a, b);
    }
  }

  /** The cell where the scan from (x, y) stops, when it finds something; when
      it does not, no cell at or after (x, y) has a match. */
  lemma {:induction false} ScanFirstMatch(s: State, x: nat, y: nat) returns (a: int, b: int)
    requires WellFormed(s) && CoordsInBounds(s) && x <= s.width && y <= s.height
    ensures ScanBoard(s, x, y).found ==>
      FirstMatchFrom(s, a, b, x, y) && ScanBoard(s, x, y) == FindMatches(s, s.board[a][b])
    ensures !ScanBoard(s, x, y).found ==>
      forall c, d :: InBounds(s, c, d) && NotBefore(c, d, x, y) ==> !MatchAt(s, c, d)
    decreases s.width - x, s.height - y
  {
    if x == s.width {
      a, b := 0, 0;
    } else if y == s.height {
      a, b := ScanFirstMatch(s, x + 1, 0);
      NextColumnOrder(s, x);
    } else if MatchAt(s, x, y) {
      a, b := x, y;
    } else {
      a, b := ScanFirstMatch(s, x, y + 1);
      NextCellOrder(x, y);
    }
  }

  /** HasMatchesOnBoard: true exactly when FindMatches succeeds for some cell;
      only the first such cell's runs get flagged, and a false answer leaves the
      board and every match flag as they were. */
  function HasMatchesOnBoard(s: State): (r: Probe)
    requires WellFormed(s) && CoordsInBounds(s)
    ensures WellFormed(r.s) && r.s == s.(gems := r.s.gems) && r.s.gems.Keys == s.gems.Keys
    ensures forall h :: h in s.gems ==> r.s.gems[h] == s.gems[h] || r.s.gems[h] == s.gems[h].(isMatched := true)
    ensures !r.found ==> r.s == s
  {
    ScanBoardSpec(s, 0, 0);
    ScanBoard(s, 0, 0)
  }

  /** HasMatchesOnBoard is true exactly when FindMatches succeeds for some cell,
      and then it has flagged what FindMatches flags for the first such cell in
      column-major order and nothing else. */
  lemma HasMatchesOnBoardSpec(s: State)
    requires WellFormed(s) && CoordsInBounds(s)
    ensures HasMatchesOnBoard(s).found <==> exists a, b :: InBounds(s, a, b) && MatchAt(s, a, b)
    ensures HasMatchesOnBoard(s).found ==>
      exists a, b :: FirstMatchFrom(s, a, b, 0, 0) && HasMatchesOnBoard(s) == FindMatches(s, s.board[a][b])
  {
    ScanBoardSpec(s, 0, 0);
  }

  /** On a full line every triple is a lead triple. */
  lemma FullLineLead(line: seq<Option<nat>>)
    requires forall k :: 0 <= k < |line| ==> line[k].Some?
    ensures forall t :: LeadTriple(line, t) <==> Triple(line, t)
  {
  }

  /** On a full, consistent board FindMatches for the gem in (x, y) succeeds
      exactly when row y or column x holds three equal kinds somewhere. */
  lemma FullBoardMatchAt(s: State, x: int, y: int)
    requires WellFormed(s) && Consistent(s) && Full(s) && InBounds(s, x, y)
    ensures CoordsInBounds(s)
    ensures MatchAt(s, x, y) <==> (exists t :: HTriple(s, t, y)) || (exists t :: VTriple(s, x, t))
  {
    var row := RowKinds(s, y);
    var col := ColumnKinds(s, x);
    assert MatchAt(s, x, y) <==> (exists t :: LeadTriple(row, t)) || (exists t :: LeadTriple(col, t)) by {
      var g := s.board[x][y].value;
      assert s.gems[g].column == x && s.gems[g].row == y;
      MatchedSpec(s, g);
    }
    FullLinesLead(s, x, y);
    if MatchAt(s, x, y) {
      if exists t :: LeadTriple(row, t) {
        var t :| LeadTriple(row, t);
        assert HTriple(s, t, y);
      } else {
        var t :| LeadTriple(col, t);
        assert VTriple(s, x, t);
      }
    }
    if exists t :: HTriple(s, t, y) {
      var t :| HTriple(s, t, y);
      assert LeadTriple(row, t);
    }
    if exists t :: VTriple(s, x, t) {
      var t :| VTriple(s, x, t);
      assert LeadTriple(col, t);
    }
  }

  /** On a full board every triple of row y and of column x is one a scan from
      the line's start can see. */
  lemma FullLinesLead(s: State, x: int, y: int)
    requires WellFormed(s) && Full(s) && InBounds(s, x, y)
    ensures forall t :: LeadTriple(RowKinds(s, y), t) <==> HTriple(s, t, y)
    ensures forall t :: LeadTriple(ColumnKinds(s, x), t) <==> VTriple(s, x, t)
  {
    FullLineLead(RowKinds(s, y));
    FullLineLead(ColumnKinds(s, x));
  }

  /** On a full, consistent board (every board HasMatchesOnBoard is asked about
      after a refill or a shuffle) it succeeds exactly when three equal kinds
      stand in a row or a column anywhere. */
  lemma HasMatchesOnBoardFull(s: State)
    requires WellFormed(s) && Consistent(s) && Full(s)
    ensures CoordsInBounds(s)
    ensures HasMatchesOnBoard(s).found <==> AnyTriple(s)
  {
    assert CoordsInBounds(s);
    ScanFindsSomeCell(s);
    if HasMatchesOnBoard(s).found {
      var a, b :| InBounds(s, a, b) && MatchAt(s, a, b);
      TripleOfMatchAt(s, a, b);
    }
    if AnyTriple(s) {
      var a, b :| 0 <= a < s.width && 0 <= b < s.height && (HTriple(s, a, b) || VTriple(s, a, b));
      MatchAtOfTriple(s, a, b);
    }
  }

  /** On a full, consistent board FindMatches succeeds for a gem that starts a
      triple. */
  lemma MatchAtOfTriple(s: State, a: int, b: int)
    requires WellFormed(s) && Consistent(s) && Full(s) && InBounds(s, a, b)
    requires HTriple(s, a, b) || VTriple(s, a, b)
    ensures CoordsInBounds(s) && MatchAt(s, a, b)
  {
    FullBoardMatchAt(s, a, b);
  }

  /** The board scan succeeds exactly when some cell's FindMatches does. */
  lemma ScanFindsSomeCell(s: State)
    requires WellFormed(s) && CoordsInBounds(s)
    ensures HasMatchesOnBoard(s).found <==> exists a, b :: InBounds(s, a, b) && MatchAt(s, a, b)
  {
    ScanBoardSpec(s, 0, 0);
  }

  /** A successful FindMatches on a full, consistent board witnesses a triple. */
  lemma TripleOfMatchAt(s: State, a: int, b: int)
    requires WellFormed(s) && Consistent(s) && Full(s) && InBounds(s, a, b)
    requires CoordsInBounds(s) && MatchAt(s, a, b)
    ensures AnyTriple(s)
  {
    FullBoardMatchAt(s, a, b);
    if t :| HTriple(s, t, b) {
      assert 0 <= t < s.width && HTriple(s, t, b);
    } else {
      var t :| VTriple(s, a, t);
      assert 0 <= t < s.height && VTriple(s, a, t);
    }
  }

  /** The scan accepts the first run of a line, wherever the queried gem is:
      in A A A B B B the B gems' row scan accepts the A run and never the B run. */
  lemma FirstRunIgnoresQueryPosition()
    ensures var line := [Some(0), Some(0), Some(0), Some(1), Some(1), Some(1)];
      FirstRun(line, 0) == Some(Run(0, 3)) && Triple(line, 3)
  {
    var line := [Some(0), Some(0), Some(0), Some(1), Some(1), Some(1)];
    assert ChainLength(line, 2) == 1;
    assert ChainLength(line, 1) == 2;
  }

  /** The scan stops for good at the first empty cell: in _ A A A nothing is found. */
  lemma FirstRunStopsAtEmpty()
    ensures var line := [None, Some(0), Some(0), Some(0)];
      FirstRun(line, 0).None? && Triple(line, 1)
  {
  }
}
