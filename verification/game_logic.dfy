/**
  The game master node (`god`) and the conditional edge that follows it
  (`next_node`): round resolution at every sixth turn, and the win check
  plus next-player search.
 */
module GameLogic {
  import opened State
  import opened Tally

  /** Python's `list.remove`: drop the first occurrence of `v`. */
  function RemoveFirst(xs: seq<int>, v: int): (r: seq<int>)
    requires v in xs
    ensures |r| == |xs| - 1
    ensures forall x :: x != v ==> (x in r <==> x in xs)
  {
    var i := FirstIndex(xs, v);
    assert xs == xs[..i] + [v] + xs[i + 1..];
    xs[..i] + xs[i + 1..]
  }

  /** `RemoveFirst` takes away exactly one copy of `v` and nothing else. */
  lemma RemoveFirstCounts(xs: seq<int>, v: int)
    requires v in xs
    ensures multiset(RemoveFirst(xs, v)) == multiset(xs) - multiset{v}
  {
    var i := FirstIndex(xs, v);
    assert xs == xs[..i] + [v] + xs[i + 1..];
  }

  /** `RemoveFirst` cuts out the first occurrence, wherever it is. */
  lemma RemoveFirstAt(xs: seq<int>, v: int, i: nat)
    requires i < |xs| && xs[i] == v && v !in xs[..i]
    ensures RemoveFirst(xs, v) == xs[..i] + xs[i + 1..]
  {
    assert FirstIndex(xs, v) == i by {
      assert forall j :: 0 <= j < i ==> xs[..i][j] == xs[j];
    }
  }

  /** The history entry of a status announcement for the given alive list. */
  function StatusOf(alive: seq<int>): Entry {
    Status(CensusOf(alive).wolves, CensusOf(alive).villagers)
  }

  /** Both logs of `s'` extend those of `s`. */
  ghost predicate LogsGrow(s: GameState, s': GameState) {
    s.history <= s'.history && s.debugLog <= s'.debugLog
  }

  lemma LogsGrowTrans(a: GameState, b: GameState, c: GameState)
    requires LogsGrow(a, b) && LogsGrow(b, c)
    ensures LogsGrow(a, c)
  {
  }

  /** Removal of the voted-out player `t`: `t` always joins the dead list,
      but leaves the alive list, with a history entry, only if it was alive. */
  function Eliminate(s: GameState, t: int): (r: GameState)
    ensures r.dead == s.dead + [t]
    ensures t in s.alive ==> r.alive == RemoveFirst(s.alive, t)
                             && r.history == s.history + [Leaves(t)]
    ensures t !in s.alive ==> r.alive == s.alive && r.history == s.history
    ensures r.turn == s.turn && r.votes == s.votes
    ensures LogsGrow(s, r)
  {
    var dead := s.dead + [t];
    var logged := s.debugLog + [Leaving(t), MostCommonValue(t), DeadList(dead)];
    if t in s.alive then
      var alive := RemoveFirst(s.alive, t);
      s.(dead := dead, alive := alive,
         history := s.history + [Leaves(t)],
         debugLog := logged + [AliveBefore(s.alive), AliveAfter(alive)])
    else
      s.(dead := dead, debugLog := logged)
  }

  /** The voting block of a round: tally the pending votes, eliminate the
      winner when it has at least half the alive players' votes, then clear
      the votes and advance the turn. */
  function Vote(s: GameState): (r: GameState)
    requires s.votes != []
    ensures r.votes == [] && r.turn == s.turn + 1
    ensures LogsGrow(s, r)
  {
    var (t, n) := MostCommon(s.votes);
    var started := s.(debugLog := s.debugLog + [Suspects(s.votes), VotingStarted]);
    var decided :=
      if 2 * n >= |s.alive| then Eliminate(started, t)
      else started.(debugLog := started.debugLog + [NoOneLeaves]);
    decided.(debugLog := decided.debugLog + [VotingEnded], votes := [], turn := s.turn + 1)
  }

  /** The status block of a round: count the factions among the alive
      players and announce both numbers in the history. */
  function Announce(s: GameState): (r: Result<GameState>)
    ensures r.Ok? <==> forall i :: 0 <= i < |s.alive| ==> s.alive[i] in Roles
    ensures r.Ok? ==> r.value.history == s.history + [StatusOf(s.alive)]
    ensures r.Ok? ==> && r.value.alive == s.alive && r.value.dead == s.dead
                      && r.value.votes == s.votes && r.value.turn == s.turn
    ensures r.Ok? ==> LogsGrow(s, r.value)
    ensures r.Fail? ==> r.fault.UnknownRole? && r.fault.player in s.alive
  {
    match CountFactions(s.alive)
    case Fail(f) => Fail(f)
    case Ok(c) =>
      Ok(s.(history := s.history + [Status(c.wolves, c.villagers)],
            debugLog := s.debugLog + [RoundSeparator, RoundStarted, Stars,
                                      Summary(c.wolves, c.villagers), Stars]))
  }

  /** The `god` node. A turn slot held by a dead player is a no-op; any other
      call logs a separator, and at a round boundary (turn divisible by 6)
      also resolves the pending votes and announces the faction counts. */
  function God(s: GameState): (r: Result<GameState>)
    ensures s.turn in s.dead ==> r == Ok(s)
    ensures s.turn !in s.dead && s.turn % 6 != 0 ==>
              r == Ok(s.(debugLog := s.debugLog + [Separator]))
    ensures r.Ok? ==> LogsGrow(s, r.value)
    ensures r.Ok? && s.turn !in s.dead && s.turn % 6 == 0 ==>
              && r.value.votes == []
              && r.value.turn == (if s.votes == [] then s.turn else s.turn + 1)
              && |r.value.history| > 0
              && r.value.history[|r.value.history| - 1] == StatusOf(r.value.alive)
    ensures r.Fail? ==> s.turn !in s.dead && s.turn % 6 == 0 && r.fault.UnknownRole?
  {
    if s.turn in s.dead then Ok(s)
    else
      var s1 := s.(debugLog := s.debugLog + [Separator]);
      if s1.turn % 6 != 0 then Ok(s1)
      else Announce(if s1.votes == [] then s1 else Vote(s1))
  }

  /** A round boundary with no pending votes changes nothing but the logs:
      the history gains only the status line. */
  lemma EmptyRound(s: GameState)
    requires s.turn !in s.dead && s.turn % 6 == 0 && s.votes == []
    requires forall i :: 0 <= i < |s.alive| ==> s.alive[i] in Roles
    ensures God(s).Ok?
    ensures var r := God(s).value;
            && r.alive == s.alive && r.dead == s.dead && r.votes == []
            && r.turn == s.turn
            && r.history == s.history + [StatusOf(s.alive)]
  {
  }

  /** The voting block on its own: the most common target `t` with `n`
      votes is buried iff `2 * n >= |alive|`, and it leaves the alive list,
      with a history entry, only if it was alive. */
  lemma VotingBlock(s: GameState)
    requires s.votes != []
    ensures var t := MostCommon(s.votes).0;
            Vote(s).dead == if 2 * MostCommon(s.votes).1 >= |s.alive| then s.dead + [t] else s.dead
    ensures var t := MostCommon(s.votes).0;
            Vote(s).alive == if 2 * MostCommon(s.votes).1 >= |s.alive| && t in s.alive
                             then RemoveFirst(s.alive, t) else s.alive
    ensures var t := MostCommon(s.votes).0;
            Vote(s).history == if 2 * MostCommon(s.votes).1 >= |s.alive| && t in s.alive
                               then s.history + [Leaves(t)] else s.history
  {
  }

  /** At a round boundary with pending votes, `god` runs the voting block
      and then the status block on what it leaves. */
  lemma GodVotes(s: GameState)
    requires s.turn !in s.dead && s.turn % 6 == 0 && s.votes != []
    requires forall i :: 0 <= i < |s.alive| ==> s.alive[i] in Roles
    ensures God(s).Ok?
    ensures God(s).value.alive == Vote(s).alive && God(s).value.dead == Vote(s).dead
    ensures God(s).value.history == Vote(s).history + [StatusOf(Vote(s).alive)]
    ensures God(s).value.votes == [] && God(s).value.turn == s.turn + 1
  {
    var v := Vote(s.(debugLog := s.debugLog + [Separator]));
    assert v.alive == Vote(s).alive && v.dead == Vote(s).dead && v.history == Vote(s).history;
    forall i | 0 <= i < |v.alive| ensures v.alive[i] in Roles {
      VotingBlock(s);
      assert v.alive[i] in multiset(v.alive);
    }
  }

  /** A round boundary with pending votes: the most common target `t` with
      `n` votes is buried iff `2 * n >= |alive|`; it leaves the alive list,
      with a history entry, only if it was alive; the votes are cleared and
      the turn advances by one either way; the status line comes last. */
  lemma VotingRound(s: GameState)
    requires s.turn !in s.dead && s.turn % 6 == 0 && s.votes != []
    requires forall i :: 0 <= i < |s.alive| ==> s.alive[i] in Roles
    ensures God(s).Ok?
    ensures var r := God(s).value;
            var t := MostCommon(s.votes).0;
            var buried := 2 * MostCommon(s.votes).1 >= |s.alive|;
            && r.votes == [] && r.turn == s.turn + 1
            && r.dead == (if buried then s.dead + [t] else s.dead)
            && r.alive == (if buried && t in s.alive then RemoveFirst(s.alive, t) else s.alive)
            && r.history == s.history
                            + (if buried && t in s.alive then [Leaves(t)] else [])
                            + [StatusOf(r.alive)]
  {
    GodVotes(s);
    VotingBlock(s);
  }

  /** A round boundary with pending votes whose alive players all have a
      role: the voting block runs and the status block succeeds. Scaffolding
      for the worked examples below. */
  predicate ReadyToVote(s: GameState) {
    && s.turn !in s.dead && s.turn % 6 == 0 && s.votes != []
    && forall i :: 0 <= i < |s.alive| ==> s.alive[i] in Roles
  }

  /** The sixth turn of the opening round, with everyone alive or with
      player 3 already dead, is ready to vote (scaffolding for the worked
      examples). */
  lemma SixthTurnReady(s: GameState)
    requires s.turn == 6 && s.votes != []
    requires || (s.alive == [1, 2, 3, 4, 5, 6] && s.dead == [])
             || (s.alive == [1, 2, 4, 5, 6] && s.dead == [3])
    ensures ReadyToVote(s)
  {
  }

  /** A "no one leaves" outcome reaches only the diagnostic log: with too few
      votes for the leader, the history gains nothing but the status line. */
  lemma NoOneLeavesIsNotNarrated(s: GameState)
    requires ReadyToVote(s)
    requires 2 * MostCommon(s.votes).1 < |s.alive|
    ensures God(s).Ok?
    ensures God(s).value.history == s.history + [StatusOf(s.alive)]
    ensures God(s).value.alive == s.alive && God(s).value.dead == s.dead
    ensures God(s).value.turn == s.turn + 1 && God(s).value.votes == []
    ensures NoOneLeaves in God(s).value.debugLog[|s.debugLog|..]
  {
    VotingBlock(s);
    GodVotes(s);
    var s1 := s.(debugLog := s.debugLog + [Separator]);
    VoteShortAppends(s1);
    assert God(s).value.debugLog[|s.debugLog| + 3] == NoOneLeaves;
  }

  /** A voting block whose leader falls short appends the suspects, the
      start marker, the "no one leaves" note and the end marker. */
  lemma VoteShortAppends(s: GameState)
    requires s.votes != [] && 2 * MostCommon(s.votes).1 < |s.alive|
    ensures Vote(s).debugLog == s.debugLog + [Suspects(s.votes), VotingStarted, NoOneLeaves, VotingEnded]
  {
  }

  /** A round whose leader `t` has at least half the alive count and is
      alive: `t` moves from the alive list (now `rest`) to the dead list, and
      the history records the departure and then the status. */
  lemma LeaderLeaves(s: GameState, t: int, n: int, rest: seq<int>)
    requires ReadyToVote(s)
    requires MostCommon(s.votes) == (t, n) && 2 * n >= |s.alive| && t in s.alive
    requires RemoveFirst(s.alive, t) == rest
    ensures God(s).Ok?
    ensures God(s).value.dead == s.dead + [t] && God(s).value.alive == rest
    ensures God(s).value.history == s.history + [Leaves(t), StatusOf(rest)]
    ensures God(s).value.turn == s.turn + 1 && God(s).value.votes == []
  {
    VotingBlock(s);
    var v := Vote(s);
    assert v.dead == s.dead + [t] && v.alive == rest && v.history == s.history + [Leaves(t)];
    GodVotes(s);
  }

  /** A round whose leader `t` has at least half the alive count but is
      already dead: `t` is appended to the dead list again and nothing else
      but the status line changes. */
  lemma DeadLeaderBuried(s: GameState, t: int, n: int)
    requires ReadyToVote(s)
    requires MostCommon(s.votes) == (t, n) && 2 * n >= |s.alive| && t !in s.alive
    ensures God(s).Ok?
    ensures God(s).value.dead == s.dead + [t] && God(s).value.alive == s.alive
    ensures God(s).value.history == s.history + [StatusOf(s.alive)]
    ensures God(s).value.turn == s.turn + 1 && God(s).value.votes == []
  {
    VotingBlock(s);
    GodVotes(s);
  }

  /** The labels `next_node` hands to the graph. */
  datatype Label = ToPlayer(k: int) | ToEnd

  /** One step of the scheduler's skip-dead walk. */
  function Next6(x: int): int {
    (x + 1) % 6
  }

  /** The `j`-th candidate of the walk that starts at `c`. */
  function Cand(c: int, j: nat): int
    decreases j
  {
    if j == 0 then c else Cand(Next6(c), j - 1)
  }

  lemma {:induction false} CandClosedForm(c: int, j: nat)
    requires 0 <= c < 6
    ensures Cand(c, j) == (c + j) % 6
    decreases j
  {
    if j > 0 {
      CandClosedForm(Next6(c), j - 1);
    }
  }

  /** The skip-dead walk from `c`, for at most `budget` candidates: the first
      candidate not in `dead`, or `None` when every candidate tried is dead. */
  function SkipDead(dead: seq<int>, c: int, budget: nat): (r: Option<int>)
    requires 0 <= c < 6
    ensures r.Some? ==> 0 <= r.value < 6 && r.value !in dead
    ensures r.Some? ==> exists j :: 0 <= j < budget && Cand(c, j) == r.value
                                    && forall i :: 0 <= i < j ==> Cand(c, i) in dead
    ensures r.None? ==> forall j :: 0 <= j < budget ==> Cand(c, j) in dead
    ensures (forall j :: 0 <= j < budget ==> Cand(c, j) in dead) ==> r.None?
    decreases budget
  {
    if budget == 0 then None
    else if c !in dead then
      assert Cand(c, 0) == c && Cand(c, 0) !in dead;
      assert !(forall j :: 0 <= j < budget ==> Cand(c, j) in dead);
      Some(c)
    else
      var r := SkipDead(dead, Next6(c), budget - 1);
      assert forall j :: 0 < j <= budget ==> Cand(c, j) == Cand(Next6(c), j - 1);
      if r.Some? then
        var j :| 0 <= j < budget - 1 && Cand(Next6(c), j) == r.value
                 && forall i :: 0 <= i < j ==> Cand(Next6(c), i) in dead;
        assert Cand(c, j + 1) == r.value;
        r
      else r
  }

  /** The first candidate of the search: `(turn + 1) % 7`. */
  function FirstCandidate(turn: int): int {
    (turn + 1) % 7
  }

  /** The `while flag` loop of `next_node`: the first candidate if it is not
      dead, else the skip-dead walk over 0..5. `None` stands for a loop that
      never exits. */
  function Schedule(turn: int, dead: seq<int>): (r: Option<int>)
    ensures r.Some? ==> 0 <= r.value <= 6 && r.value !in dead
  {
    var c := FirstCandidate(turn);
    if c !in dead then Some(c) else SkipDead(dead, Next6(c), 6)
  }

  /** The search fails exactly when the first candidate and all of 0..5 are
      dead, and then every candidate the loop would ever try is dead, so the
      loop it models never exits. */
  lemma ScheduleLoopsIff(turn: int, dead: seq<int>)
    ensures Schedule(turn, dead).None? <==>
              FirstCandidate(turn) in dead && forall x :: 0 <= x < 6 ==> x in dead
    ensures Schedule(turn, dead).None? ==>
              forall j: nat :: Cand(Next6(FirstCandidate(turn)), j) in dead
  {
    var c := Next6(FirstCandidate(turn));
    if Schedule(turn, dead).None? {
      forall x | 0 <= x < 6 ensures x in dead {
        CandCovers(c, x);
      }
      forall j: nat ensures Cand(c, j) in dead {
        CandInRange(c, j);
      }
    } else if FirstCandidate(turn) in dead {
      var j :| 0 <= j < 6 && Cand(c, j) !in dead;
      CandInRange(c, j);
    }
  }

  /** Every candidate of the walk is one of 0..5. */
  lemma CandInRange(c: int, j: nat)
    requires 0 <= c < 6
    ensures 0 <= Cand(c, j) < 6
  {
    CandClosedForm(c, j);
  }

  /** The first six candidates of the walk cover 0..5. */
  lemma CandCovers(c: int, x: int)
    requires 0 <= c < 6 && 0 <= x < 6
    ensures exists j :: 0 <= j < 6 && Cand(c, j) == x
  {
    var j := if x >= c then x - c else x - c + 6;
    CandClosedForm(c, j);
    assert Cand(c, j) == x;
  }

  /** The conditional edge after `god`. The census over the alive list decides
      termination: no wolves, or wolves at least as many as villagers, gives
      `ToEnd`. Otherwise the scheduled candidate becomes the next player, with
      candidate 0 meaning player 1. */
  function NextNode(s: GameState): (r: Result<Label>)
    ensures r.Ok? && r.value.ToPlayer? ==> 1 <= r.value.k <= 6
    ensures r.Ok? && r.value.ToPlayer? ==> r.value.k == 1 || r.value.k !in s.dead
    ensures r.Fail? ==> r.fault.UnknownRole? || r.fault == SchedulerLoops
  {
    match CountFactions(s.alive)
    case Fail(f) => Fail(f)
    case Ok(c) =>
      if c.wolves == 0 then Ok(ToEnd)
      else if c.wolves >= c.villagers then Ok(ToEnd)
      else match Schedule(s.turn, s.dead)
        case None => Fail(SchedulerLoops)
        case Some(x) => Ok(ToPlayer(if x == 0 then 1 else x))
  }

  /** With every alive player in the role table, the game ends iff the alive
      wolves number zero or at least the alive villagers; a tie ends it. */
  lemma NextNodeEndsIff(s: GameState)
    requires forall i :: 0 <= i < |s.alive| ==> s.alive[i] in Roles
    ensures NextNode(s) == Ok(ToEnd) <==> Terminal(CensusOf(s.alive))
  {
  }

  /** Unless candidate 0 is dead, the search always exits with one of
      `to_1`..`to_6` or `to_end`. */
  lemma NextNodeExitsWithoutDeadZero(s: GameState)
    requires forall i :: 0 <= i < |s.alive| ==> s.alive[i] in Roles
    requires 0 !in s.dead
    ensures NextNode(s).Ok?
  {
    ScheduleLoopsIff(s.turn, s.dead);
  }

  /** The search order: the first candidate `(turn + 1) % 7` wins when it is
      not dead; otherwise the walk steps by `(x + 1) % 6`. */
  lemma NextNodeFirstCandidate(s: GameState)
    requires forall i :: 0 <= i < |s.alive| ==> s.alive[i] in Roles
    requires !Terminal(CensusOf(s.alive))
    ensures FirstCandidate(s.turn) !in s.dead ==>
              NextNode(s) == Ok(ToPlayer(if FirstCandidate(s.turn) == 0 then 1 else FirstCandidate(s.turn)))
    ensures FirstCandidate(s.turn) in s.dead ==>
              NextNode(s) == match SkipDead(s.dead, Next6(FirstCandidate(s.turn)), 6)
                             case None => Fail(SchedulerLoops)
                             case Some(x) => Ok(ToPlayer(if x == 0 then 1 else x))
  {
  }

  /** `NextNode` read off from a census and a search result. */
  lemma NextNodeFrom(s: GameState, c: Census, x: int)
    requires forall i :: 0 <= i < |s.alive| ==> s.alive[i] in Roles
    requires CensusOf(s.alive) == c && !Terminal(c)
    requires Schedule(s.turn, s.dead) == Some(x)
    ensures NextNode(s) == Ok(ToPlayer(if x == 0 then 1 else x))
  {
    var r := CountFactions(s.alive);
    assert r.Ok?;
    assert r.value.wolves == c.wolves && r.value.villagers == c.villagers;
  }

  /** With player 2 dead after player 1's turn, the next speaker is player 3. */
  lemma SkipsDeadNeighbour(s: GameState)
    requires s.turn == 1 && s.alive == [1, 3, 4, 5, 6] && s.dead == [2]
    ensures NextNode(s) == Ok(ToPlayer(3))
  {
    WolfTwoOutCensus(s.alive);
    assert Schedule(1, [2]) == Some(3);
    NextNodeFrom(s, Census(1, 4), 3);
  }

  /** The mixed `% 7` / `% 6` stepping skips player 6: with player 5 dead,
      player 4's turn is followed by player 1 although player 6 is alive. */
  lemma SkipsPlayerSix(s: GameState)
    requires s.turn == 4 && s.alive == [1, 2, 3, 4, 6] && s.dead == [5]
    ensures NextNode(s) == Ok(ToPlayer(1))
  {
    PlayerFiveOutCensus(s.alive);
    assert Schedule(4, [5]) == Some(0);
    NextNodeFrom(s, Census(2, 3), 0);
  }

  /** Candidate 0 maps to `to_1` even when player 1 is dead. */
  lemma SchedulesDeadPlayerOne(s: GameState)
    requires s.turn == 6 && s.alive == [2, 3, 4, 5, 6] && s.dead == [1]
    ensures NextNode(s) == Ok(ToPlayer(1))
  {
    WolfOneOutCensus(s.alive);
    assert Schedule(6, [1]) == Some(0);
    NextNodeFrom(s, Census(1, 4), 0);
  }

  /** Removing the first occurrence of a player from a list of distinct
      players keeps the rest distinct and drops that player entirely. */
  lemma {:induction false} RemoveFirstDistinct(xs: seq<int>, t: int)
    requires t in xs
    requires forall i, j :: 0 <= i < j < |xs| ==> xs[i] != xs[j]
    ensures var r := RemoveFirst(xs, t);
            && (forall i, j :: 0 <= i < j < |r| ==> r[i] != r[j])
            && t !in r
  {
    var i := FirstIndex(xs, t);
    var r := RemoveFirst(xs, t);
    assert r == xs[..i] + xs[i + 1..];
    forall a | 0 <= a < |r|
      ensures r[a] == xs[if a < i then a else a + 1]
    {
    }
  }

  /** Burying `t` (always into the dead list, out of the alive list if it
      was there) keeps the invariant. */
  lemma BuryKeepsWellFormed(s: GameState, t: int, r: GameState)
    requires WellFormed(s)
    requires r.dead == s.dead + [t]
    requires r.alive == if t in s.alive then RemoveFirst(s.alive, t) else s.alive
    requires 0 <= r.turn <= 7
    ensures WellFormed(r)
  {
    if t in s.alive {
      RemoveFirstDistinct(s.alive, t);
    }
  }

  /** The round boundaries within the counter's range are turns 0 and 6. */
  lemma BoundaryTurns(t: int)
    requires 0 <= t <= 7 && t % 6 == 0
    ensures t == 0 || t == 6
  {
  }

  /** The resolver keeps the reachable-state invariant: in particular a
      buried roster player leaves the alive list for good, and the turn stays
      within 0..7. */
  lemma GodPreservesWellFormed(s: GameState)
    requires WellFormed(s)
    ensures God(s).Ok? && WellFormed(God(s).value)
  {
    if s.turn !in s.dead && s.turn % 6 == 0 {
      if s.votes == [] {
        EmptyRound(s);
      } else {
        BoundaryTurns(s.turn);
        GodVotes(s);
        VoteKeepsWellFormed(s);
      }
    }
  }

  /** The voting block keeps the invariant when it runs at a boundary. */
  lemma VoteKeepsWellFormed(s: GameState)
    requires WellFormed(s) && s.turn < 7 && s.votes != []
    ensures WellFormed(Vote(s))
  {
    VotingBlock(s);
    var (t, n) := MostCommon(s.votes);
    var r := Vote(s);
    assert r.turn == s.turn + 1 <= 7;
    if 2 * n >= |s.alive| {
      BuryKeepsWellFormed(s, t, r);
    } else {
      assert r.alive == s.alive && r.dead == s.dead;
    }
  }

  /** `god` changes the dead list only by a vote at a round boundary, which
      also moves the turn counter on by one. */
  lemma BurialOnlyAtBoundary(s: GameState)
    requires WellFormed(s)
    ensures God(s).Ok?
    ensures God(s).value.dead != s.dead ==>
              && s.turn !in s.dead && s.turn % 6 == 0 && s.votes != []
              && God(s).value.turn == s.turn + 1
  {
    GodPreservesWellFormed(s);
    if s.turn !in s.dead && s.turn % 6 == 0 && s.votes == [] {
      RoleTableCoversRoster();
      EmptyRound(s);
    }
  }

  /** On a reachable state the scheduler always answers: a non-terminal census
      leaves a wolf alive, so player 1 or 2 is not dead and the walk over
      0..5 finds it. */
  lemma NextNodeWhenWellFormed(s: GameState)
    requires WellFormed(s)
    ensures NextNode(s).Ok?
  {
    if !Terminal(CensusOf(s.alive)) {
      assert 1 in s.alive || 2 in s.alive;
      ScheduleLoopsIff(s.turn, s.dead);
    }
  }

  /** Votes 2, 2, 2, 5, 5, 6 with all six alive: player 2 has exactly half
      the alive count and is buried, leaving one wolf and four villagers. */
  lemma HalfTheVotesBury(s: GameState)
    requires s.turn == 6 && s.alive == [1, 2, 3, 4, 5, 6] && s.dead == []
    requires s.votes == [2, 2, 2, 5, 5, 6]
    ensures God(s).Ok?
    ensures God(s).value.dead == [2]
    ensures God(s).value.alive == [1, 3, 4, 5, 6]
    ensures God(s).value.history == s.history + [Leaves(2), Status(1, 4)]
  {
    Tally.ClearWinner();
    RemoveTwo();
    WolfTwoOutCensus([1, 3, 4, 5, 6]);
    SixthTurnReady(s);
    LeaderLeaves(s, 2, 3, [1, 3, 4, 5, 6]);
  }

  /** Literal removals from the full roster, scaffolding for the worked
      examples. */
  lemma RemoveOne()
    ensures RemoveFirst([1, 2, 3, 4, 5, 6], 1) == [2, 3, 4, 5, 6]
  {
    var xs := [1, 2, 3, 4, 5, 6];
    RemoveFirstAt(xs, 1, 0);
    assert xs[1..] == [2, 3, 4, 5, 6];
  }

  lemma RemoveSix()
    ensures RemoveFirst([1, 2, 3, 4, 5, 6], 6) == [1, 2, 3, 4, 5]
  {
    var xs := [1, 2, 3, 4, 5, 6];
    RemoveFirstAt(xs, 6, 5);
    assert xs[..5] == [1, 2, 3, 4, 5];
  }

  lemma RemoveTwo()
    ensures RemoveFirst([1, 2, 3, 4, 5, 6], 2) == [1, 3, 4, 5, 6]
  {
    var xs := [1, 2, 3, 4, 5, 6];
    RemoveFirstAt(xs, 2, 1);
    assert xs[..1] == [1] && xs[2..] == [3, 4, 5, 6];
  }

  /** A tie 3, 4, 3, 4 among six alive players resolves to 3, whose two votes
      fall short of half: nobody leaves and the history only gets the status. */
  lemma TieShortOfHalf(s: GameState)
    requires s.turn == 6 && s.alive == [1, 2, 3, 4, 5, 6] && s.dead == []
    requires s.votes == [3, 4, 3, 4]
    ensures God(s).Ok?
    ensures God(s).value.dead == [] && God(s).value.alive == s.alive
    ensures God(s).value.history == s.history + [Status(2, 4)]
    ensures God(s).value.votes == [] && God(s).value.turn == 7
  {
    Tally.TieGoesToFirstSeen();
    FullRosterCensus(s.alive);
    SixthTurnReady(s);
    NoOneLeavesIsNotNarrated(s);
  }

  /** Three votes for the same target make it the leader with three votes. */
  lemma Unanimous(x: int)
    ensures MostCommon([x, x, x]) == (x, 3)
  {
    var v := [x, x, x];
    assert Occ(v, x) == 3;
    forall y ensures Occ(v, y) <= 3 {
      if y != x {
        assert y !in multiset(v);
      }
    }
    assert IsMostCommon(v, x, 3);
    MostCommonUnique(v, MostCommon(v).0, MostCommon(v).1, x, 3);
  }

  /** A player already dead can be voted out again: it is appended to the dead
      list a second time, the alive list is untouched and the history gains
      the status line only. */
  lemma DeadTargetBuriedAgain(s: GameState)
    requires s.turn == 6 && s.alive == [1, 2, 4, 5, 6] && s.dead == [3]
    requires s.votes == [3, 3, 3]
    ensures God(s).Ok?
    ensures God(s).value.dead == [3, 3]
    ensures God(s).value.alive == s.alive
    ensures God(s).value.history == s.history + [Status(2, 3)]
  {
    Unanimous(3);
    PlayerThreeOutCensus(s.alive);
    SixthTurnReady(s);
    DeadLeaderBuried(s, 3, 3);
  }

  /** Three votes against wolf 1 with six alive bury it, leaving one wolf
      and four villagers. */
  lemma WolfVotedOut(s: GameState)
    requires s.turn == 6 && s.alive == [1, 2, 3, 4, 5, 6] && s.dead == []
    requires s.votes == [1, 1, 1]
    ensures God(s).Ok?
    ensures God(s).value.dead == [1]
    ensures God(s).value.alive == [2, 3, 4, 5, 6]
    ensures God(s).value.turn == 7
  {
    Unanimous(1);
    RemoveOne();
    SixthTurnReady(s);
    LeaderLeaves(s, 1, 3, [2, 3, 4, 5, 6]);
  }

  /** After wolf 1 is voted out the game goes on: the census is not terminal
      and player 2 speaks next. */
  lemma WolfVotedOutGameGoesOn(s: GameState)
    requires s.turn == 6 && s.alive == [1, 2, 3, 4, 5, 6] && s.dead == []
    requires s.votes == [1, 1, 1]
    ensures God(s).Ok?
    ensures CensusOf(God(s).value.alive) == Census(1, 4)
    ensures NextNode(God(s).value) == Ok(ToPlayer(2))
  {
    WolfVotedOut(s);
    var r := God(s).value;
    WolfOneOutCensus(r.alive);
    assert Schedule(7, [1]) == Some(2);
    NextNodeFrom(r, Census(1, 4), 2);
  }
}
