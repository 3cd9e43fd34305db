/**
  A player's turn: the state effects of `run_player_turn`, with the two
  language-model answers (the utterance, and the guess with its confidence)
  taken as a parameter, and the six named player nodes.
 */
module Players {
  import opened State

  /** What a player is told about its teammates. */
  datatype Hint = Teammate(player: int) | Deduce

  /** Players 1 and 2 are told about each other; everyone else is told to
      work it out from the conversation. */
  function TeammateHint(p: int): (h: Hint)
    ensures h.Teammate? ==> h.player in Roles && IsWolf(h.player) && h.player != p
    ensures h.Teammate? ==> p in Roles && IsWolf(p)
    ensures p in Roles && IsWolf(p) ==> h.Teammate?
  {
    WolvesAreOneAndTwo(1);
    WolvesAreOneAndTwo(2);
    if p == 1 then Teammate(2)
    else if p == 2 then Teammate(1)
    else if p in Roles then WolvesAreOneAndTwo(p); Deduce
    else Deduce
  }

  /** What both prompts of a turn show the player: the history so far (taken
      before the player speaks), the alive and dead lists, its role and the
      teammate hint. */
  datatype View = View(history: seq<Entry>, alive: seq<int>, dead: seq<int>,
                       role: string, hint: Hint)

  function ViewOf(s: GameState, p: int): (v: View)
    requires p in Roles
    ensures v.history == s.history && v.alive == s.alive && v.dead == s.dead
    ensures v.role == Roles[p]
  {
    View(s.history, s.alive, s.dead, Roles[p], TeammateHint(p))
  }

  /** One turn of player `p` given the player's answers `g`. The role lookup
      fails for a player without a role. Otherwise the turn counter becomes
      `p`, the utterance is added to the history, the speech and the private
      thought are added to the diagnostic log, and the guessed player is added
      to the pending votes iff the confidence exceeds 50. */
  function PlayerTurn(s: GameState, p: int, g: Guess): (r: Result<GameState>)
    ensures r.Fail? <==> p !in Roles
    ensures r.Fail? ==> r.fault == UnknownRole(p)
    ensures r.Ok? ==> r.value.turn == p
    ensures r.Ok? ==> r.value.history == s.history + [Said(p, g.utterance)]
    ensures r.Ok? ==> |r.value.debugLog| == |s.debugLog| + 2
                      && r.value.debugLog[..|s.debugLog|] == s.debugLog
    ensures r.Ok? ==> r.value.alive == s.alive && r.value.dead == s.dead
    ensures r.Ok? && g.assureness > 50 ==> r.value.votes == s.votes + [g.guessedWolf]
    ensures r.Ok? && g.assureness <= 50 ==> r.value.votes == s.votes
  {
    if p !in Roles then Fail(UnknownRole(p))
    else
      var spoken := s.(turn := p,
                       history := s.history + [Said(p, g.utterance)],
                       debugLog := s.debugLog + [Speech(p, g.utterance)]);
      var thought := spoken.(debugLog := spoken.debugLog
                                         + [Thought(p, g.guessedWolf, g.assureness)]);
      if g.assureness > 50 then Ok(thought.(votes := thought.votes + [g.guessedWolf]))
      else Ok(thought)
  }

  /** A vote is cast iff the confidence is above 50, and it is the guess as
      given: 50 is not enough, and a target outside 1..6 or already dead
      still counts. */
  lemma VoteCastIff(s: GameState, p: int, g: Guess)
    requires p in Roles
    ensures PlayerTurn(s, p, g).Ok?
    ensures var r := PlayerTurn(s, p, g).value;
            && (|r.votes| == |s.votes| + 1 <==> g.assureness > 50)
            && multiset(r.votes)[g.guessedWolf]
               == multiset(s.votes)[g.guessedWolf] + (if g.assureness > 50 then 1 else 0)
  {
  }

  /** A turn keeps the reachable-state invariant. */
  lemma PlayerTurnPreservesWellFormed(s: GameState, p: int, g: Guess)
    requires WellFormed(s) && InRoster(p)
    ensures PlayerTurn(s, p, g).Ok? && WellFormed(PlayerTurn(s, p, g).value)
  {
  }

  /** The graph's player nodes by name, each bound to the player whose turn
      it runs. */
  function PlayerFunctions(): (m: map<string, int>)
    ensures forall p :: 1 <= p <= 6 ==> NodeName(p) in m && m[NodeName(p)] == p
    ensures forall name :: name in m ==> InRoster(m[name]) && name == NodeName(m[name])
  {
    assert NodeName(1) == "player_1" && NodeName(2) == "player_2" && NodeName(3) == "player_3";
    assert NodeName(4) == "player_4" && NodeName(5) == "player_5" && NodeName(6) == "player_6";
    map["player_1" := 1, "player_2" := 2, "player_3" := 3,
        "player_4" := 4, "player_5" := 5, "player_6" := 6]
  }

  /** The node of player 1, the first to speak. */
  lemma FirstNodeName()
    ensures NodeName(1) == "player_1"
  {
  }

  /** `player_k` for a one-digit `k`. */
  function NodeName(p: int): string
    requires 1 <= p <= 6
  {
    "player_" + [(48 + p) as char]
  }
}
