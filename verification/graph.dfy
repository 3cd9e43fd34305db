/**
  The game graph: the entry edge into `god`, the conditional edge after
  `god` labelled by `next_node`, and the edge from every player node back to
  `god`. One `Step` runs one node and follows its outgoing edge.
 */
module Graph {
  import opened State
  import opened GameLogic
  import opened Players

  /** The nodes of the graph; `EndNode` is the runtime's terminal node. */
  datatype Node = GodNode | PlayerNode(name: string) | EndNode

  /** The entry edge leads to `god`. */
  const Start: Node := GodNode

  /** Where the game is and the record it carries. */
  datatype Config = Config(node: Node, state: GameState)

  /** The edge table after `god`: `ToPlayer(k)` leads to node `player_k` for
      k in 1..6 and `ToEnd` to the terminal node; any other label has no
      edge. */
  function Route(l: Label): (n: Option<Node>)
    ensures n.Some? <==> l.ToEnd? || 1 <= l.k <= 6
    ensures l.ToEnd? ==> n == Some(EndNode)
    ensures n.Some? && l.ToPlayer? ==>
              && n.value.PlayerNode?
              && n.value.name in PlayerFunctions()
              && PlayerFunctions()[n.value.name] == l.k
  {
    match l
    case ToEnd => Some(EndNode)
    case ToPlayer(k) => if 1 <= k <= 6 then Some(PlayerNode(NodeName(k))) else None
  }

  /** The player's answers on each turn come from outside: the `i`-th node
      run, given what the player is shown. */
  type Oracle = (nat, View) -> Guess

  /** Runs node `c.node` as the `i`-th step and follows its edge. `god` is
      followed by `next_node` and the edge table; a player node runs that
      player's turn with the oracle's answers and returns to `god`. */
  function Step(c: Config, ask: Oracle, i: nat): (r: Result<Config>)
    requires c.node != EndNode
    requires c.node.PlayerNode? ==> c.node.name in PlayerFunctions()
    ensures r.Ok? && c.node.PlayerNode? ==> r.value.node == GodNode
    ensures r.Ok? && c.node.GodNode? ==> r.value.node != GodNode
    ensures r.Ok? ==> LogsGrow(c.state, r.value.state)
    ensures r.Ok? && r.value.node.PlayerNode? ==> r.value.node.name in PlayerFunctions()
    ensures r.Ok? && r.value.node == EndNode ==> Terminal(CensusOf(r.value.state.alive))
    ensures r.Ok? && c.node.GodNode? && r.value.node != EndNode ==>
              !Terminal(CensusOf(r.value.state.alive))
    ensures r.Fail? ==> r.fault != Unrouted && r.fault != StepLimit
  {
    match c.node
    case GodNode =>
      (match God(c.state)
       case Fail(f) => Fail(f)
       case Ok(s) =>
         match NextNode(s)
         case Fail(f) => Fail(f)
         case Ok(l) =>
           assert CountFactions(s.alive).Ok?;
           NextNodeEndsIff(s);
           match Route(l)
           case None => Fail(Unrouted)
           case Some(n) => Ok(Config(n, s)))
    case PlayerNode(name) =>
      var p := PlayerFunctions()[name];
      RoleTableCoversRoster();
      match PlayerTurn(c.state, p, ask(i, ViewOf(c.state, p)))
      case Fail(f) => Fail(f)
      case Ok(s) => Ok(Config(GodNode, s))
  }

  /** Both prompts of a turn show the player the record as it was before it
      speaks, with its teammate hint; the step then adds exactly what the
      player said to that history. */
  lemma PlayerSeesPriorRecord(c: Config, ask: Oracle, i: nat)
    requires c.node.PlayerNode? && c.node.name in PlayerFunctions()
    ensures var p := PlayerFunctions()[c.node.name];
            && p in Roles
            && var v := ViewOf(c.state, p);
               && v.hint == TeammateHint(p)
               && v.alive == c.state.alive && v.dead == c.state.dead
               && Step(c, ask, i).Ok?
               && Step(c, ask, i).value.state.history == v.history + [Said(p, ask(i, v).utterance)]
  {
    RoleTableCoversRoster();
  }
}
