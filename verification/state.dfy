/**
  The static roster and role table of the six-player werewolf game, the
  faction census over a list of players, and the shape of the game record
  that every node of the game graph reads and updates.
 */
module State {

  /** Players are numbered 1..6. */
  predicate InRoster(p: int) {
    1 <= p <= 6
  }

  /** The role table, entry for entry as the game configures it (note the
      game's spelling "villeger"). */
  const Roles: map<int, string> := map[
    1 := "wolf",
    2 := "wolf",
    3 := "villeger doctor",
    4 := "villeger hunter",
    6 := "villeger armor",
    5 := "villeger detective"
  ]

  /** `s` begins with `prefix`, compared character by character. */
  predicate StartsWith(s: string, prefix: string)
    decreases |prefix|
  {
    |prefix| == 0 || (|s| > 0 && s[0] == prefix[0] && StartsWith(s[1..], prefix[1..]))
  }

  /** Substring test, Python's `sub in s`. */
  predicate Contains(s: string, sub: string)
    decreases |s|
  {
    StartsWith(s, sub) || (|s| > 0 && Contains(s[1..], sub))
  }

  /** A player belongs to the wolf faction iff its role string mentions "wolf". */
  predicate IsWolf(p: int)
    requires p in Roles
  {
    Contains(Roles[p], "wolf")
  }

  lemma RoleTableCoversRoster()
    ensures forall p :: p in Roles <==> InRoster(p)
  {
  }

  lemma {:induction false} NoWolfWithoutW(s: string)
    requires forall i :: 0 <= i < |s| ==> s[i] != 'w'
    ensures !Contains(s, "wolf")
    decreases |s|
  {
    if |s| > 0 {
      NoWolfWithoutW(s[1..]);
    }
  }

  /** The wolf faction is exactly players 1 and 2. */
  lemma {:induction false} WolvesAreOneAndTwo(p: int)
    requires p in Roles
    ensures IsWolf(p) <==> p == 1 || p == 2
  {
    if p == 1 || p == 2 {
      assert StartsWith(Roles[p], "wolf");
    } else {
      NoWolfWithoutW(Roles[p]);
    }
  }

  /** Number of wolves and villagers among a list of players. */
  datatype Census = Census(wolves: nat, villagers: nat)

  /** Faults that stop a game: a lookup in the role table that raises, a
      scheduler loop that never exits, a graph label with no edge, and the
      runtime's step cap. */
  datatype Fault = UnknownRole(player: int) | SchedulerLoops | Unrouted | StepLimit

  datatype Result<+T> = Ok(value: T) | Fail(fault: Fault)

  datatype Option<+T> = None | Some(value: T)

  /** Wolves in a player list, by the independent closed form: occurrences
      of player 1 plus occurrences of player 2. */
  function WolfCount(players: seq<int>): nat {
    multiset(players)[1] + multiset(players)[2]
  }

  lemma {:induction false} WolfCountBound(players: seq<int>)
    ensures WolfCount(players) <= |players|
  {
    if players != [] {
      WolfCountBound(players[1..]);
      assert players == [players[0]] + players[1..];
    }
  }

  /** The closed form counts the head of a list, then the rest. */
  lemma WolfCountCons(players: seq<int>)
    requires players != []
    ensures WolfCount(players)
            == WolfCount(players[1..]) + (if players[0] == 1 || players[0] == 2 then 1 else 0)
  {
    assert players == [players[0]] + players[1..];
  }

  /** A list has only players with a role iff its head and its tail do. */
  lemma RolesCons(players: seq<int>)
    requires players != []
    ensures (forall i :: 0 <= i < |players| ==> players[i] in Roles)
            <==> players[0] in Roles && forall i :: 0 <= i < |players[1..]| ==> players[1..][i] in Roles
    ensures forall x :: x in players[1..] ==> x in players
  {
    assert players == [players[0]] + players[1..];
  }

  /** The census loop of the resolver and the scheduler: walk the list in
      order, look every player up in the role table (failing on the first
      one that has no role) and count it as wolf or villager. */
  function CountFactions(players: seq<int>): (r: Result<Census>)
    ensures r.Ok? ==> forall i :: 0 <= i < |players| ==> players[i] in Roles
    ensures (forall i :: 0 <= i < |players| ==> players[i] in Roles) ==> r.Ok?
    ensures r.Ok? ==> r.value.wolves + r.value.villagers == |players|
    ensures r.Ok? ==> r.value.wolves == WolfCount(players)
    ensures r.Fail? ==> r.fault.UnknownRole? && r.fault.player in players
                        && r.fault.player !in Roles
  {
    if players == [] then Ok(Census(0, 0))
    else
      var p := players[0];
      RolesCons(players);
      if p !in Roles then Fail(UnknownRole(p))
      else match CountFactions(players[1..])
        case Fail(f) => Fail(f)
        case Ok(c) =>
          WolfCountCons(players);
          WolvesAreOneAndTwo(p);
          if IsWolf(p) then Ok(Census(c.wolves + 1, c.villagers))
          else Ok(Census(c.wolves, c.villagers + 1))
  }

  /** The win condition shared by the scheduler: no wolf left, or at least
      as many wolves as villagers (a tie ends the game). */
  predicate Terminal(c: Census) {
    c.wolves == 0 || c.wolves >= c.villagers
  }

  /** The census by the closed form. */
  function CensusOf(players: seq<int>): (c: Census)
    ensures c.wolves + c.villagers == |players|
  {
    WolfCountBound(players);
    Census(WolfCount(players), |players| - WolfCount(players))
  }

  /** The full roster: two wolves and four villagers. */
  lemma FullRosterCensus(alive: seq<int>)
    requires alive == [1, 2, 3, 4, 5, 6]
    ensures CensusOf(alive) == Census(2, 4)
  {
    WolfCountDistinct(alive);
  }

  /** Without player 1: one wolf and four villagers. */
  lemma WolfOneOutCensus(alive: seq<int>)
    requires alive == [2, 3, 4, 5, 6]
    ensures CensusOf(alive) == Census(1, 4)
  {
    WolfCountDistinct(alive);
  }

  /** Without player 2: one wolf and four villagers. */
  lemma WolfTwoOutCensus(alive: seq<int>)
    requires alive == [1, 3, 4, 5, 6]
    ensures CensusOf(alive) == Census(1, 4)
  {
    WolfCountDistinct(alive);
  }

  /** Without player 3: two wolves and three villagers. */
  lemma PlayerThreeOutCensus(alive: seq<int>)
    requires alive == [1, 2, 4, 5, 6]
    ensures CensusOf(alive) == Census(2, 3)
  {
    WolfCountDistinct(alive);
  }

  /** Without player 5: two wolves and three villagers. */
  lemma PlayerFiveOutCensus(alive: seq<int>)
    requires alive == [1, 2, 3, 4, 6]
    ensures CensusOf(alive) == Census(2, 3)
  {
    WolfCountDistinct(alive);
  }

  /** Without player 6: two wolves and three villagers. */
  lemma PlayerSixOutCensus(alive: seq<int>)
    requires alive == [1, 2, 3, 4, 5]
    ensures CensusOf(alive) == Census(2, 3)
  {
    WolfCountDistinct(alive);
  }

  /** In a list without repeats, each wolf counts once if present. */
  lemma {:induction false} WolfCountDistinct(xs: seq<int>)
    requires forall i, j :: 0 <= i < j < |xs| ==> xs[i] != xs[j]
    ensures WolfCount(xs) == (if 1 in xs then 1 else 0) + (if 2 in xs then 1 else 0)
  {
    if xs != [] {
      WolfCountDistinct(xs[1..]);
      WolfCountCons(xs);
      assert xs == [xs[0]] + xs[1..];
      assert xs[0] !in xs[1..];
    }
  }

  /** Lines of the user-facing game log. */
  datatype Entry =
    | Said(player: int, utterance: string)
    | Leaves(player: int)
    | Status(wolves: nat, villagers: nat)

  /** Lines of the diagnostic log; only their kind and order are modelled. */
  datatype LogLine =
    | Separator
    | Suspects(votes: seq<int>)
    | VotingStarted
    | Leaving(player: int)
    | MostCommonValue(player: int)
    | DeadList(dead: seq<int>)
    | AliveBefore(alive: seq<int>)
    | AliveAfter(alive: seq<int>)
    | NoOneLeaves
    | VotingEnded
    | RoundSeparator
    | RoundStarted
    | Stars
    | Summary(wolves: nat, villagers: nat)
    | Speech(player: int, utterance: string)
    | Thought(player: int, guess: int, assureness: int)

  /** The game record: whose turn it was, the alive and dead lists, the
      pending votes, and the two logs. */
  datatype GameState = GameState(
    turn: int,
    alive: seq<int>,
    dead: seq<int>,
    votes: seq<int>,
    history: seq<Entry>,
    debugLog: seq<LogLine>
  )

  /** One player's answers for a turn: what it says, whom it suspects and how
      sure it is. Both numbers are unconstrained integers. */
  datatype Guess = Guess(utterance: string, guessedWolf: int, assureness: int)

  /** Reachable-state invariant: the alive list holds distinct roster players,
      a roster player is alive iff it is not in the dead list, and the turn
      counter stays within 0..7. */
  predicate WellFormed(s: GameState) {
    && (forall i :: 0 <= i < |s.alive| ==> InRoster(s.alive[i]))
    && (forall i, j :: 0 <= i < j < |s.alive| ==> s.alive[i] != s.alive[j])
    && (forall p :: 1 <= p <= 6 ==> (p in s.alive <==> p !in s.dead))
    && 0 <= s.turn <= 7
  }
}
