/**
  A whole game: the initial record, and the run of the graph from its entry
  node until the terminal node or the runtime's cap of 2000 steps.
 */
module Game {
  import opened State
  import opened Tally
  import opened GameLogic
  import opened Players
  import opened Graph

  /** The record a game starts from: turn 0, all six players alive, nothing
      said, no votes, nobody dead. */
  function InitialState(): (s: GameState)
    ensures WellFormed(s)
    ensures forall p :: InRoster(p) ==> p in s.alive
    ensures CensusOf(s.alive) == Census(2, 4) && !Terminal(CensusOf(s.alive))
    ensures s.history == [] && s.votes == [] && s.dead == [] && s.turn == 0
  {
    var s := GameState(0, [1, 2, 3, 4, 5, 6], [], [], [], []);
    FullRosterWellFormed(s);
    FullRosterCensus(s.alive);
    s
  }

  lemma FullRosterWellFormed(s: GameState)
    requires s.alive == [1, 2, 3, 4, 5, 6] && s.dead == [] && s.turn == 0
    ensures WellFormed(s)
    ensures forall p :: InRoster(p) ==> p in s.alive
  {
  }

  /** The runtime's recursion limit: at most this many node runs. */
  const MaxSteps: nat := 2000

  /** Runs the graph from `c` for at most `fuel` node runs, the `i`-th run
      first. Reaching the terminal node returns the record; running out of
      steps before that is a fault. */
  function Run(c: Config, ask: Oracle, fuel: nat, i: nat): (r: Result<GameState>)
    requires c.node.PlayerNode? ==> c.node.name in PlayerFunctions()
    ensures r.Ok? ==> (c.node == EndNode && r.value == c.state)
                      || Terminal(CensusOf(r.value.alive))
    ensures r.Ok? ==> LogsGrow(c.state, r.value)
    ensures r.Fail? ==> r.fault != Unrouted
    ensures fuel == 0 ==> (r.Ok? <==> c.node == EndNode)
    decreases fuel
  {
    if c.node == EndNode then Ok(c.state)
    else if fuel == 0 then Fail(StepLimit)
    else
      match Step(c, ask, i)
      case Fail(f) => Fail(f)
      case Ok(c') =>
        var r := Run(c', ask, fuel - 1, i + 1);
        if r.Ok? then LogsGrowTrans(c.state, c'.state, r.value); r else r
  }

  /** `app.invoke(initial_state, recursion_limit=2000)`. */
  function PlayGame(ask: Oracle): (r: Result<GameState>)
    ensures r.Ok? ==> Terminal(CensusOf(r.value.alive)) && LogsGrow(InitialState(), r.value)
    ensures r.Fail? ==> r.fault != Unrouted
  {
    Run(Config(Start, InitialState()), ask, MaxSteps, 0)
  }

  /** A run that takes a successful step continues from where it leads. */
  lemma RunAfterStep(c: Config, ask: Oracle, rest: nat, i: nat)
    requires c.node != EndNode
    requires c.node.PlayerNode? ==> c.node.name in PlayerFunctions()
    requires Step(c, ask, i).Ok?
    ensures Run(c, ask, rest + 1, i) == Run(Step(c, ask, i).value, ask, rest, i + 1)
  {
  }

  /** A run of `god` that yields `s'` and schedules player `k` moves the
      game to node `player_k` with record `s'`. */
  lemma GodStepTo(c: Config, ask: Oracle, i: nat, s': GameState, k: int)
    requires c.node == GodNode && God(c.state) == Ok(s')
    requires NextNode(s') == Ok(ToPlayer(k)) && 1 <= k <= 6
    ensures Step(c, ask, i) == Ok(Config(PlayerNode(NodeName(k)), s'))
  {
  }

  /** A configuration the graph can be in: a well-formed record, a player
      node that is one of the six, and the terminal node only once the game
      is decided. */
  predicate ConfigOK(c: Config) {
    && WellFormed(c.state)
    && (c.node.PlayerNode? ==> c.node.name in PlayerFunctions())
    && (c.node == EndNode ==> Terminal(CensusOf(c.state.alive)))
  }

  /** From a good configuration every node run succeeds and leads to a good
      configuration: no role lookup fails and the scheduler never loops. */
  lemma StepKeepsConfigOK(c: Config, ask: Oracle, i: nat)
    requires ConfigOK(c) && c.node != EndNode
    ensures Step(c, ask, i).Ok? && ConfigOK(Step(c, ask, i).value)
  {
    match c.node
    case GodNode =>
      GodPreservesWellFormed(c.state);
      NextNodeWhenWellFormed(God(c.state).value);
    case PlayerNode(name) =>
      var p := PlayerFunctions()[name];
      RoleTableCoversRoster();
      PlayerTurnPreservesWellFormed(c.state, p, ask(i, ViewOf(c.state, p)));
  }

  /** From a good configuration a run either reaches the terminal node with a
      decided, well-formed record, or exhausts its steps; no other fault can
      stop it. */
  lemma {:induction false} RunFromConfigOK(c: Config, ask: Oracle, fuel: nat, i: nat)
    requires ConfigOK(c)
    ensures var r := Run(c, ask, fuel, i);
            || (r.Ok? && WellFormed(r.value) && Terminal(CensusOf(r.value.alive)))
            || r == Fail(StepLimit)
    decreases fuel
  {
    if c.node != EndNode && fuel > 0 {
      StepKeepsConfigOK(c, ask, i);
      RunFromConfigOK(Step(c, ask, i).value, ask, fuel - 1, i + 1);
    }
  }

  /** Every game, whatever the players answer, ends with a decided record
      (no wolf alive, or at least as many wolves as villagers) or with the
      step cap. */
  lemma GameOutcome(ask: Oracle)
    ensures || (PlayGame(ask).Ok? && Terminal(CensusOf(PlayGame(ask).value.alive)))
            || PlayGame(ask) == Fail(StepLimit)
  {
    RunFromConfigOK(Config(Start, InitialState()), ask, MaxSteps, 0);
  }

  /** The first node run: turn 0 counts as a round boundary, so `god`
      announces two wolves and four villagers before anyone speaks, and the
      game moves on to player 1. */
  lemma OpeningAnnouncement(ask: Oracle)
    ensures var r := Step(Config(Start, InitialState()), ask, 0);
            && r.Ok?
            && r.value.node == PlayerNode("player_1")
            && r.value.state.history == [Status(2, 4)]
            && r.value.state.turn == 0
  {
    var s := InitialState();
    OpeningStep(s, ask);
    OpeningRound(s);
  }

  lemma OpeningStep(s: GameState, ask: Oracle)
    requires s.turn == 0 && s.alive == [1, 2, 3, 4, 5, 6] && s.dead == []
    requires s.votes == [] && s.history == []
    ensures God(s).Ok?
    ensures Step(Config(GodNode, s), ask, 0) == Ok(Config(PlayerNode("player_1"), God(s).value))
  {
    OpeningRound(s);
    var s' := God(s).value;
    OpeningRoute(s');
    GodStepTo(Config(GodNode, s), ask, 0, s', 1);
    FirstNodeName();
  }

  lemma OpeningRound(s: GameState)
    requires s.turn == 0 && s.alive == [1, 2, 3, 4, 5, 6] && s.dead == []
    requires s.votes == [] && s.history == []
    ensures God(s).Ok?
    ensures God(s).value.history == [Status(2, 4)]
    ensures God(s).value.turn == 0
    ensures God(s).value.alive == s.alive && God(s).value.dead == []
  {
    EmptyRound(s);
    FullRosterCensus(s.alive);
  }

  lemma OpeningRoute(s: GameState)
    requires s.turn == 0 && s.alive == [1, 2, 3, 4, 5, 6] && s.dead == []
    ensures NextNode(s) == Ok(ToPlayer(1))
  {
    FullRosterCensus(s.alive);
    assert Schedule(0, []) == Some(1);
    NextNodeFrom(s, Census(2, 4), 1);
  }

  /** A record from which no round boundary can be reached: player 5 or 6
      is dead, the turn counter is neither 0 nor 6, and it is not 5 while
      player 5 is dead. */
  predicate StalledState(s: GameState) {
    && WellFormed(s)
    && !Terminal(CensusOf(s.alive))
    && (5 in s.dead || 6 in s.dead)
    && 1 <= s.turn <= 7 && s.turn != 6
    && (5 in s.dead ==> s.turn != 5)
  }

  /** A stalled configuration: a stalled record, and a pending player node
      that is neither player 6 nor a dead player 5. */
  predicate Stalled(c: Config) {
    && StalledState(c.state)
    && match c.node
       case GodNode => true
       case EndNode => false
       case PlayerNode(name) =>
         && name in PlayerFunctions()
         && PlayerFunctions()[name] <= 5
         && (5 in c.state.dead ==> PlayerFunctions()[name] != 5)
  }

  /** From a stalled record the scheduler answers: the census is not
      terminal and some wolf is not dead. */
  lemma StalledRoute(s: GameState)
    requires StalledState(s)
    ensures Schedule(s.turn, s.dead).Some?
    ensures NextNode(s) == Ok(ToPlayer(var x := Schedule(s.turn, s.dead).value;
                                       if x == 0 then 1 else x))
  {
    NextNodeWhenWellFormed(s);
    RoleTableCoversRoster();
    NextNodeFrom(s, CensusOf(s.alive), Schedule(s.turn, s.dead).value);
  }

  /** ... and it never picks player 6 or a dead player 5: player 6 is only
      ever the first candidate after turn 5, and the skip-dead walk runs
      modulo 6. */
  lemma StalledSchedule(turn: int, dead: seq<int>)
    requires 1 <= turn <= 7 && turn != 6
    requires 5 in dead || 6 in dead
    requires 5 in dead ==> turn != 5
    requires Schedule(turn, dead).Some?
    ensures var x := Schedule(turn, dead).value;
            var k := if x == 0 then 1 else x;
            1 <= k <= 5 && (5 in dead ==> k != 5)
  {
    ScheduleSix(turn, dead);
  }

  /** Candidate 6 is only ever scheduled as the first candidate after turn 5. */
  lemma ScheduleSix(turn: int, dead: seq<int>)
    requires 0 <= turn <= 7
    ensures Schedule(turn, dead) == Some(6) ==> turn == 5 && 6 !in dead
  {
    assert FirstCandidate(turn) == (if turn == 5 then 6 else if turn == 6 then 0
                                    else if turn == 7 then 1 else turn + 1);
  }

  /** A stalled game stays stalled: every node run leaves the alive and dead
      lists as they are, and `god` only adds a separator to the diagnostic
      log. */
  lemma StepKeepsStalled(c: Config, ask: Oracle, i: nat)
    requires Stalled(c)
    ensures Step(c, ask, i).Ok?
    ensures var c' := Step(c, ask, i).value;
            && Stalled(c')
            && c'.state.alive == c.state.alive && c'.state.dead == c.state.dead
            && (c.node == GodNode ==> c'.state.history == c.state.history)
  {
    match c.node
    case GodNode =>
      var s := c.state;
      assert s.turn % 6 != 0;
      var s' := God(s).value;
      assert s'.alive == s.alive && s'.dead == s.dead && s'.turn == s.turn;
      assert StalledState(s');
      StalledRoute(s');
      StalledSchedule(s'.turn, s'.dead);
      var k := NextNode(s').value.k;
      GodStepTo(c, ask, i, s', k);
    case PlayerNode(name) =>
      var p := PlayerFunctions()[name];
      RoleTableCoversRoster();
      var g := ask(i, ViewOf(c.state, p));
      PlayerTurnPreservesWellFormed(c.state, p, g);
      assert Step(c, ask, i) == Ok(Config(GodNode, PlayerTurn(c.state, p, g).value));
  }

  /** Once stalled, the game never ends: whatever the players say, the run
      exhausts every step budget. */
  lemma {:induction false} StalledRunsOut(c: Config, ask: Oracle, fuel: nat, i: nat)
    requires Stalled(c)
    ensures Run(c, ask, fuel, i) == Fail(StepLimit)
    decreases fuel
  {
    if fuel > 0 {
      StepKeepsStalled(c, ask, i);
      var rest: nat := fuel - 1;
      RunAfterStep(c, ask, rest, i);
      StalledRunsOut(Step(c, ask, i).value, ask, rest, i + 1);
    }
  }

  /** Burying player 5 or 6 while the game goes on stalls it: the burial
      happens at turn 0 or 6 and moves the counter to 1 or 7, from where the
      scheduler never again reaches a round boundary. */
  lemma BurialStalls(c: Config, ask: Oracle, i: nat)
    requires ConfigOK(c) && c.node == GodNode
    requires 5 !in c.state.dead && 6 !in c.state.dead
    requires Step(c, ask, i).Ok? && Step(c, ask, i).value.node != EndNode
    requires 5 in Step(c, ask, i).value.state.dead || 6 in Step(c, ask, i).value.state.dead
    ensures Stalled(Step(c, ask, i).value)
  {
    var s := c.state;
    BurialOnlyAtBoundary(s);
    var s' := God(s).value;
    assert Step(c, ask, i).value.state == s';
    assert s'.dead != s.dead;
    BoundaryTurns(s.turn);
    GodPreservesWellFormed(s);
    assert StalledState(s');
    StalledRoute(s');
    StalledSchedule(s'.turn, s'.dead);
    var k := NextNode(s').value.k;
    GodStepTo(c, ask, i, s', k);
  }

  /** Voting player 6 out in the first round (three votes of six) leaves two
      wolves against three villagers with player 6 dead: the game can no
      longer reach a round boundary and runs into the step cap. */
  lemma SixVotedOutStalls(s: GameState, ask: Oracle, fuel: nat, i: nat)
    requires s.turn == 6 && s.alive == [1, 2, 3, 4, 5, 6] && s.dead == []
    requires s.votes == [6, 6, 6]
    ensures Run(Config(GodNode, s), ask, fuel, i) == Fail(StepLimit)
  {
    if fuel > 0 {
      var c := Config(GodNode, s);
      SixVotedOutState(s);
      var s' := God(s).value;
      StalledRoute(s');
      StalledSchedule(s'.turn, s'.dead);
      var k := NextNode(s').value.k;
      GodStepTo(c, ask, i, s', k);
      var rest: nat := fuel - 1;
      RunAfterStep(c, ask, rest, i);
      StalledRunsOut(Step(c, ask, i).value, ask, rest, i + 1);
    }
  }

  /** The record after that round: player 6 buried, turn 7. */
  lemma SixVotedOut(s: GameState)
    requires s.turn == 6 && s.alive == [1, 2, 3, 4, 5, 6] && s.dead == []
    requires s.votes == [6, 6, 6]
    ensures God(s).Ok?
    ensures God(s).value.dead == [6]
    ensures God(s).value.alive == [1, 2, 3, 4, 5]
    ensures God(s).value.turn == 7
  {
    Unanimous(6);
    RemoveSix();
    SixthTurnReady(s);
    LeaderLeaves(s, 6, 3, [1, 2, 3, 4, 5]);
  }

  /** ... which is a stalled record: two wolves against three villagers. */
  lemma SixVotedOutState(s: GameState)
    requires s.turn == 6 && s.alive == [1, 2, 3, 4, 5, 6] && s.dead == []
    requires s.votes == [6, 6, 6]
    ensures God(s).Ok? && StalledState(God(s).value)
  {
    SixVotedOut(s);
    SixDeadStalls(God(s).value);
  }

  lemma SixDeadStalls(r: GameState)
    requires r.turn == 7 && r.alive == [1, 2, 3, 4, 5] && r.dead == [6]
    ensures StalledState(r)
  {
    PlayerSixOutCensus(r.alive);
  }
}
