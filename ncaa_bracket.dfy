/**
 * The tournament bracket of `sports_reference/cbb/postseason/_ncaa_bracket.py`:
 * teams and games as scraped from a bracket page, the rounds of one region,
 * and the binary tree that seats every round's teams on one level.
 *
 * The page itself is not modelled. A team cell is given by the values its
 * properties read from it; a round is given by the list of its games.
 */
module NcaaBracket {
  import opened Wrappers
  import opened Powers
  import opened Orders
  import opened Layout
  import opened BinaryTrees

  // ---------------------------------------------------------------------------
  // Teams

  /**
   * A team cell. `Team()` has no container and all of its properties are
   * None; a scraped one has a seed, a name, and a winner flag that is set
   * when its cell carries the "winner" class.
   */
  datatype Team = Absent | Present(seed: int, name: string, won: bool)

  /** `Team.winner`. */
  function TeamWinner(t: Team): (w: Option<bool>)
  {
    match t
    case Absent => None
    case Present(_, _, won) => Some(won)
  }

  /** Python's truth value of an optional flag. */
  predicate WonFlag(w: Option<bool>) {
    w == Some(true)
  }

  /** The tuple `(seed, name)` that equality, ordering and hashing look at. */
  function Key(t: Team): (Option<int>, Option<string>) {
    match t
    case Absent => (None, None)
    case Present(seed, name, _) => (Some(seed), Some(name))
  }

  /** `Team.__eq__`; `__ne__` is its negation. */
  predicate TeamEq(a: Team, b: Team) {
    Key(a) == Key(b)
  }

  /**
   * Python's `<` on the two keys. Tuples compare at the first position where
   * they differ; equal keys are not less. An absent team's seed is None, and
   * comparing None with a seed raises TypeError.
   */
  function KeyLess(a: Team, b: Team): (r: Result<bool>)
    ensures r.Err? <==> a.Absent? != b.Absent?
    ensures r.Err? ==> r.error == TypeError
    ensures r.Ok? && r.value ==> !TeamEq(a, b)
  {
    if Key(a) == Key(b) then Ok(false)
    else if a.Absent? || b.Absent? then Err(TypeError)
    else Ok(a.seed < b.seed || (a.seed == b.seed && LexLess(CharLess(), a.name, b.name)))
  }

  /** `Team.__lt__`. */
  function TeamLt(a: Team, b: Team): Result<bool> {
    KeyLess(a, b)
  }

  /** `Team.__gt__`: tuples are greater exactly when the swapped tuples are less. */
  function TeamGt(a: Team, b: Team): Result<bool> {
    KeyLess(b, a)
  }

  /** `Team.__le__`: equal keys compare true, others as `<`. */
  function TeamLe(a: Team, b: Team): Result<bool> {
    if TeamEq(a, b) then Ok(true) else KeyLess(a, b)
  }

  /** `Team.__ge__`. */
  function TeamGe(a: Team, b: Team): Result<bool> {
    if TeamEq(a, b) then Ok(true) else KeyLess(b, a)
  }

  /**
   * Two scraped teams compare without error, and exactly one of `<`, `==`,
   * `>` holds; `<=` is `<` or `==`, and `>=` is `>` or `==`.
   */
  lemma TeamTrichotomy(a: Team, b: Team)
    requires a.Present? && b.Present?
    ensures TeamLt(a, b).Ok? && TeamGt(a, b).Ok? && TeamLe(a, b).Ok? && TeamGe(a, b).Ok?
    ensures ExactlyOne(TeamLt(a, b).value, TeamEq(a, b), TeamGt(a, b).value)
    ensures TeamLe(a, b).value <==> TeamLt(a, b).value || TeamEq(a, b)
    ensures TeamGe(a, b).value <==> TeamGt(a, b).value || TeamEq(a, b)
  {
    CharLessStrictTotal();
    if !TeamEq(a, b) && a.seed == b.seed {
      assert a.name != b.name;
      LexConnected(CharLess(), a.name, b.name);
      if LexLess(CharLess(), a.name, b.name) && LexLess(CharLess(), b.name, a.name) {
        LexTransitive(CharLess(), a.name, b.name, a.name);
        LexIrreflexive(CharLess(), a.name);
      }
    }
  }

  /** `<` on scraped teams is transitive. */
  lemma TeamLtTransitive(a: Team, b: Team, c: Team)
    requires a.Present? && b.Present? && c.Present?
    requires TeamLt(a, b) == Ok(true) && TeamLt(b, c) == Ok(true)
    ensures TeamLt(a, c) == Ok(true)
  {
    CharLessStrictTotal();
    if a.seed == b.seed && b.seed == c.seed {
      LexTransitive(CharLess(), a.name, b.name, c.name);
      LexIrreflexive(CharLess(), a.name);
    }
  }

  /** Two absent teams are equal, and neither is less than the other. */
  lemma AbsentTeams()
    ensures TeamEq(Absent, Absent) && TeamLt(Absent, Absent) == Ok(false) && TeamLe(Absent, Absent) == Ok(true)
  {
  }

  /** `Team.__hash__`: Python's tuple hash, a function of the key. */
  function TeamHash(hash: ((Option<int>, Option<string>)) -> int, t: Team): int {
    hash(Key(t))
  }

  /** Equal teams hash alike, whatever the tuple hash is. */
  lemma HashAgreesWithEq(hash: ((Option<int>, Option<string>)) -> int, a: Team, b: Team)
    requires TeamEq(a, b)
    ensures TeamHash(hash, a) == TeamHash(hash, b)
  {
  }

  // ---------------------------------------------------------------------------
  // Games and rounds

  /**
   * A game box: its first team cell, and its second one, which is None when
   * the box has a single cell (the `IndexError` the constructor catches).
   */
  datatype Game = Game(a: Team, b: Option<Team>)

  /**
   * `Game.winner`, in Python's evaluation order. `self.b.winner` on a missing
   * second team raises AttributeError, which is caught and gives None; so does
   * a game with two winners or none.
   */
  function GameWinner(g: Game): (r: Option<Team>)
    ensures r.Some? <==> g.b.Some? && WonFlag(TeamWinner(g.a)) != WonFlag(TeamWinner(g.b.value))
    ensures r.Some? ==> r.value == (if WonFlag(TeamWinner(g.a)) then g.a else g.b.value)
    ensures r.Some? ==> WonFlag(TeamWinner(r.value)) && Some(r.value) in GameTeams(g)
  {
    var aWon := WonFlag(TeamWinner(g.a));
    if aWon then
      if g.b.None? then None
      else if !WonFlag(TeamWinner(g.b.value)) then Some(g.a)
      else None
    else
      if g.b.None? then None
      else if WonFlag(TeamWinner(g.b.value)) then Some(g.b.value)
      else None
  }

  /** `Game.teams`: the pair `(a, b)`. */
  function GameTeams(g: Game): seq<Option<Team>> {
    [Some(g.a), g.b]
  }

  /** A round of the bracket: its number and its games, top to bottom. */
  datatype Round = Round(nround: nat, games: seq<Game>)

  /** `[team for game in games for team in game.teams]`: two entries per game, in order. */
  function TeamsOfGames(games: seq<Game>): (t: seq<Option<Team>>)
    ensures |t| == 2 * |games|
    ensures forall k :: 0 <= k < |games| ==> t[2 * k] == Some(games[k].a) && t[2 * k + 1] == games[k].b
  {
    if |games| == 0 then [] else GameTeams(games[0]) + TeamsOfGames(games[1..])
  }

  /** `Round.teams`. */
  function RoundTeams(r: Round): seq<Option<Team>> {
    TeamsOfGames(r.games)
  }

  // ---------------------------------------------------------------------------
  // The bracket

  /** One region's bracket: its rounds by number. */
  datatype Bracket = Bracket(region: string, rounds: map<nat, Round>)

  /** `{i: Round(e, i) for i, e in enumerate(round_boxes, 1)}` for the first n round boxes, inserted in order. */
  function NumberRounds(boxes: seq<seq<Game>>, n: nat): (m: map<nat, Round>)
    requires n <= |boxes|
    ensures |m| == n
    ensures forall k: nat :: k in m <==> 1 <= k <= n
    ensures forall k: nat :: k in m ==> m[k] == Round(k, boxes[k - 1])
  {
    if n == 0 then map[] else NumberRounds(boxes, n - 1)[n := Round(n, boxes[n - 1])]
  }

  /** `Bracket(soup, region)`, given the games of each round box of the region, left to right. */
  function MakeBracket(region: string, boxes: seq<seq<Game>>): (b: Bracket)
    ensures WellNumbered(b) && NRounds(b) == |boxes|
    ensures forall k: nat :: 1 <= k <= |boxes| ==> b.rounds[k] == Round(k, boxes[k - 1])
  {
    Bracket(region, NumberRounds(boxes, |boxes|))
  }

  /** `Bracket.nrounds`. */
  function NRounds(b: Bracket): nat {
    |b.rounds|
  }

  /** The rounds are numbered 1 .. nrounds, each under its own number. */
  ghost predicate WellNumbered(b: Bracket) {
    && (forall k: nat :: k in b.rounds <==> 1 <= k <= NRounds(b))
    && (forall k: nat :: k in b.rounds ==> b.rounds[k].nround == k)
  }

  /** `Bracket.teams()`: each round's teams, by round number (through the copy `games()` makes). */
  function BracketTeams(b: Bracket): (t: map<nat, seq<Option<Team>>>)
  {
    map k | k in b.rounds :: RoundTeams(b.rounds[k])
  }

  /** `Team.node(team)`: the team, or None, wrapped in a fresh unlinked node. */
  function TeamNode(t: Option<Team>): Node<Team> {
    Detached(t)
  }

  /** `[Team.node(x) for x in v]`. */
  function NodesOf(v: seq<Option<Team>>): (ns: seq<Node<Team>>)
  {
    seq(|v|, i requires 0 <= i < |v| => TeamNode(v[i]))
  }

  /** `{k: [Team.node(x) for x in v] for k, v in self.teams().items()}`. */
  function TeamNodes(b: Bracket): (t: map<nat, seq<Node<Team>>>)
  {
    var teams := BracketTeams(b);
    map k | k in teams :: NodesOf(teams[k])
  }

  /** Entry 2j of round k's list in `Bracket.teams()` is game j's first team, entry 2j + 1 its second slot. */
  lemma BracketTeamsByGame(b: Bracket, k: nat, j: nat)
    requires k in b.rounds && j < |b.rounds[k].games|
    ensures k in BracketTeams(b) && |BracketTeams(b)[k]| == 2 * |b.rounds[k].games|
    ensures BracketTeams(b)[k][2 * j] == Some(b.rounds[k].games[j].a)
    ensures BracketTeams(b)[k][2 * j + 1] == b.rounds[k].games[j].b
  {
    assert BracketTeams(b)[k] == TeamsOfGames(b.rounds[k].games);
  }

  /** The node lists of `binary_tree` wrap each game's two team slots, in game order. */
  lemma TeamNodesByGame(b: Bracket, k: nat, j: nat)
    requires k in b.rounds && j < |b.rounds[k].games|
    ensures k in TeamNodes(b) && |TeamNodes(b)[k]| == 2 * |b.rounds[k].games|
    ensures TeamNodes(b)[k][2 * j] == TeamNode(Some(b.rounds[k].games[j].a))
    ensures TeamNodes(b)[k][2 * j + 1] == TeamNode(b.rounds[k].games[j].b)
  {
    assert TeamNodes(b)[k] == NodesOf(TeamsOfGames(b.rounds[k].games));
  }

  /** The round whose teams fill depth k of the tree: `teams[self.nrounds - nlevel]`. */
  function RoundAt(b: Bracket, k: nat): Round
    requires WellNumbered(b) && k < NRounds(b)
  {
    b.rounds[NRounds(b) - k]
  }

  /** Every depth k of the tree of height nrounds - 1 finds at least 2^k teams in its round. */
  ghost predicate Fits(b: Bracket)
    requires WellNumbered(b)
  {
    && NRounds(b) > 0
    && forall k: nat :: k < NRounds(b) ==> Pow2(k) <= |RoundTeams(RoundAt(b, k))|
  }

  /** The nodes of level k hold the first 2^k entries of row, in order from the left. */
  ghost predicate LevelSeated(a: Arena<Node<Team>>, h: nat, k: nat, row: seq<Node<Team>>)
    requires |a| == Count(h) && k <= h && Pow2(k) <= |row|
  {
    forall o: nat :: o < Pow2(k) ==> a[NodeAt(0, h, k, o)].data == Some(row[o])
  }

  /**
   * The tree `binary_tree` returns: height nrounds - 1, and the node at depth k
   * and offset o holds the o-th team of round nrounds - k.
   */
  ghost predicate Seated(b: Bracket, t: BinaryTree<Node<Team>>)
    requires WellNumbered(b)
    reads t
  {
    && Fits(b)
    && t.Valid() && t.height == NRounds(b) - 1
    && forall k: nat :: k <= t.height ==> LevelSeated(t.nodes, t.height, k, NodesOf(RoundTeams(RoundAt(b, k))))
  }

  /**
   * The inner loop of `binary_tree` for one level: the nodes of depth k, left
   * to right, are given the entries of row until either runs out; a row
   * shorter than the level raises IndexError. No node of another depth changes.
   */
  method SeatLevel(tree: BinaryTree<Node<Team>>, nodes: seq<nat>, row: seq<Node<Team>>, k: nat) returns (ok: bool)
    requires tree.Valid() && k <= tree.height && nodes == LevelNodes(0, tree.height, k)
    modifies tree
    ensures tree.Valid()
    ensures ok <==> Pow2(k) <= |row|
    ensures ok ==> LevelSeated(tree.nodes, tree.height, k, row)
    ensures forall j: nat, o: nat :: j <= tree.height && j != k && o < Pow2(j) ==>
      tree.nodes[NodeAt(0, tree.height, j, o)] == old(tree.nodes)[NodeAt(0, tree.height, j, o)]
  {
    var h := tree.height;
    ghost var before := tree.nodes;
    LevelNodesLength(0, h, k);
    var i := 0;
    while i < |nodes|
      invariant i <= |nodes| == Pow2(k) && i <= |row|
      invariant tree.Valid() && tree.height == h
      invariant forall o: nat :: o < i ==> tree.nodes[NodeAt(0, h, k, o)].data == Some(row[o])
      invariant forall j: nat, o: nat :: j <= h && j != k && o < Pow2(j) ==>
        tree.nodes[NodeAt(0, h, j, o)] == before[NodeAt(0, h, j, o)]
    {
      if i >= |row| {
        return false;
      }
      LevelNodesAt(0, h, k, i);
      SeatOne(tree, h, k, i, nodes[i], row[i]);
      i := i + 1;
    }
    return true;
  }

  /** `node.data = Team.node(team)` for the node x at depth k and offset i; every other node keeps its contents. */
  method SeatOne(tree: BinaryTree<Node<Team>>, h: nat, k: nat, i: nat, x: nat, value: Node<Team>)
    requires tree.Valid() && tree.height == h && k <= h && i < Pow2(k) && x == NodeAt(0, h, k, i)
    modifies tree
    ensures tree.Valid()
    ensures tree.nodes[NodeAt(0, h, k, i)].data == Some(value)
    ensures forall j: nat, o: nat :: j <= h && o < Pow2(j) && (j != k || o != i) ==>
      tree.nodes[NodeAt(0, h, j, o)] == old(tree.nodes)[NodeAt(0, h, j, o)]
  {
    tree.SetData(x, Some(value));
    forall j: nat, o: nat | j <= h && o < Pow2(j) && (j != k || o != i)
      ensures tree.nodes[NodeAt(0, h, j, o)] == old(tree.nodes)[NodeAt(0, h, j, o)]
    {
      if NodeAt(0, h, j, o) == NodeAt(0, h, k, i) {
        NodeAtInjective(0, h, j, o, k, i);
      }
    }
  }

  /** `teams[self.nrounds - nlevel]`: the node list depth k of the tree takes from the node lists by round. */
  function Row(teams: map<nat, seq<Node<Team>>>, n: nat, k: nat): seq<Node<Team>>
    requires k < n && n - k in teams
  {
    teams[n - k]
  }

  /** Levels already seated stay seated while another level is filled. */
  lemma SeatedKept(before: Arena<Node<Team>>, after: Arena<Node<Team>>, h: nat, m: nat, n: nat, teams: map<nat, seq<Node<Team>>>)
    requires |before| == |after| == Count(h) && m <= h && n == h + 1
    requires forall j: nat :: 1 <= j <= n ==> j in teams
    requires forall k: nat :: k < m ==> Pow2(k) <= |Row(teams, n, k)| && LevelSeated(before, h, k, Row(teams, n, k))
    requires forall k: nat, o: nat :: k <= h && k != m && o < Pow2(k) ==> after[NodeAt(0, h, k, o)] == before[NodeAt(0, h, k, o)]
    requires Pow2(m) <= |Row(teams, n, m)| && LevelSeated(after, h, m, Row(teams, n, m))
    ensures forall k: nat :: k < m + 1 ==> Pow2(k) <= |Row(teams, n, k)| && LevelSeated(after, h, k, Row(teams, n, k))
  {
  }

  /**
   * The outer loop of `binary_tree`: depth k, from the root down, takes the
   * nodes of round n - k. It stops at the first round too short for its depth.
   */
  method SeatLevels(tree: BinaryTree<Node<Team>>, levels: map<nat, seq<nat>>, teams: map<nat, seq<Node<Team>>>, n: nat)
    returns (ok: bool)
    requires tree.Valid() && n == tree.height + 1
    requires forall k: nat :: k in levels <==> k <= tree.height
    requires forall k :: k in levels ==> levels[k] == LevelNodes(0, tree.height, k)
    requires forall j: nat :: 1 <= j <= n ==> j in teams
    modifies tree
    ensures tree.Valid()
    ensures ok <==> forall k: nat :: k < n ==> Pow2(k) <= |Row(teams, n, k)|
    ensures ok ==> forall k: nat :: k < n ==> LevelSeated(tree.nodes, tree.height, k, Row(teams, n, k))
  {
    var h := tree.height;
    var nlevel := 0;
    // the keys of `levels` were inserted depth by depth, so `.items()` yields depths 0 .. h in order
    while nlevel <= h
      invariant nlevel <= n && tree.Valid() && tree.height == h
      invariant forall k: nat :: k < nlevel ==> Pow2(k) <= |Row(teams, n, k)| && LevelSeated(tree.nodes, tree.height, k, Row(teams, n, k))
    {
      ghost var before := tree.nodes;
      var row := Row(teams, n, nlevel);
      var seated := SeatLevel(tree, levels[nlevel], row, nlevel);
      if !seated {
        return false;
      }
      SeatedKept(before, tree.nodes, tree.height, nlevel, n, teams);
      nlevel := nlevel + 1;
    }
    return true;
  }

  /** The node lists `binary_tree` reads are keyed by the round numbers 1 .. nrounds; depth k reads round nrounds - k. */
  lemma TeamNodesByRound(b: Bracket, teams: map<nat, seq<Node<Team>>>)
    requires WellNumbered(b) && teams == TeamNodes(b)
    ensures forall j: nat :: j in teams <==> 1 <= j <= NRounds(b)
    ensures forall k: nat :: k < NRounds(b) ==> Row(teams, NRounds(b), k) == NodesOf(RoundTeams(RoundAt(b, k)))
  {
  }

  /** What SeatLevels reports about the node lists, said of the bracket. */
  lemma SeatLevelsOutcome(b: Bracket, t: BinaryTree<Node<Team>>, teams: map<nat, seq<Node<Team>>>, n: nat, ok: bool)
    requires WellNumbered(b) && n == NRounds(b) > 0 && t.Valid() && t.height == n - 1
    requires forall j: nat :: j in teams <==> 1 <= j <= n
    requires forall k: nat :: k < n ==> Row(teams, n, k) == NodesOf(RoundTeams(RoundAt(b, k)))
    requires ok <==> forall k: nat :: k < n ==> Pow2(k) <= |Row(teams, n, k)|
    requires ok ==> forall k: nat :: k < n ==> LevelSeated(t.nodes, t.height, k, Row(teams, n, k))
    ensures ok <==> Fits(b)
    ensures ok ==> Seated(b, t)
  {
  }

  /**
   * `Bracket.binary_tree()`. With no rounds, `BinaryTree(-1)` never reaches
   * its base case (RecursionError). A round with fewer teams than its level
   * has nodes raises IndexError. Otherwise every node is given its team.
   */
  method BinaryTreeOf(b: Bracket) returns (r: Result<BinaryTree<Node<Team>>>)
    requires WellNumbered(b)
    ensures r.Ok? <==> Fits(b)
    ensures r.Err? ==> r.error == (if NRounds(b) == 0 then RecursionError else IndexError)
    ensures r.Ok? ==> fresh(r.value) && Seated(b, r.value)
  {
    var n := NRounds(b);
    if n == 0 {
      return Err(RecursionError);
    }
    var tree := new BinaryTree<Node<Team>>(n - 1);
    var teams := TeamNodes(b);
    LevelsOfTree(tree);
    var levels := Levels(tree.nodes, Some(tree.root), 0, map[]);
    TeamNodesByRound(b, teams);
    var ok := SeatLevels(tree, levels, teams, n);
    SeatLevelsOutcome(b, tree, teams, n, ok);
    if !ok {
      return Err(IndexError);
    }
    return Ok(tree);
  }

  /** The node at depth k and offset o holds the o-th team of round nrounds - k. */
  lemma SeatedAt(b: Bracket, t: BinaryTree<Node<Team>>, k: nat, o: nat)
    requires WellNumbered(b) && Seated(b, t) && k <= t.height && o < Pow2(k)
    ensures o < |RoundTeams(RoundAt(b, k))|
    ensures t.nodes[NodeAt(0, t.height, k, o)].data == Some(TeamNode(RoundTeams(RoundAt(b, k))[o]))
  {
    assert LevelSeated(t.nodes, t.height, k, NodesOf(RoundTeams(RoundAt(b, k))));
  }

  /** The root, the bracket's final, holds the first team of the last round. */
  lemma SeatedRoot(b: Bracket, t: BinaryTree<Node<Team>>)
    requires WellNumbered(b) && Seated(b, t)
    ensures |RoundTeams(b.rounds[NRounds(b)])| >= 1
    ensures t.nodes[t.root].data == Some(TeamNode(RoundTeams(b.rounds[NRounds(b)])[0]))
  {
    SeatedAt(b, t, 0, 0);
    assert NodeAt(0, t.height, 0, 0) == t.root;
  }

  /** The leaves, left to right, hold the teams of the first round in order. */
  lemma SeatedLeaves(b: Bracket, t: BinaryTree<Node<Team>>, o: nat)
    requires WellNumbered(b) && Seated(b, t) && o < t.Size()
    ensures var x := NodeAt(0, t.height, t.height, o);
      && t.nodes[x].left.None? && t.nodes[x].right.None?
      && o < |RoundTeams(b.rounds[1])|
      && t.nodes[x].data == Some(TeamNode(RoundTeams(b.rounds[1])[o]))
  {
    NodeAtLeaf(t.nodes, 0, t.height, o);
    SeatedAt(b, t, t.height, o);
  }

  /** Every node of the tree holds a team: the one of its own depth's round, at its own offset. */
  lemma SeatedEveryNode(b: Bracket, t: BinaryTree<Node<Team>>, x: nat)
    requires WellNumbered(b) && Seated(b, t) && x < |t.nodes|
    ensures var (k, o) := Position(0, t.height, x);
      && o < |RoundTeams(RoundAt(b, k))|
      && t.nodes[x].data == Some(TeamNode(RoundTeams(RoundAt(b, k))[o]))
  {
    var (k, o) := Position(0, t.height, x);
    NodeAtPosition(0, t.height, x);
    SeatedAt(b, t, k, o);
  }

  /**
   * Read through `levels(root)`, as `binary_tree` walks the tree: depth k
   * lists 2^k nodes, and its entry o holds the o-th team of round nrounds - k.
   */
  lemma SeatedLevels(b: Bracket, t: BinaryTree<Node<Team>>, k: nat, o: nat)
    requires WellNumbered(b) && Seated(b, t) && k <= t.height && o < Pow2(k)
    ensures WellFormed(t.nodes)
    ensures var levels := Levels(t.nodes, Some(t.root), 0, map[]);
      && k in levels && |levels[k]| == Pow2(k) && levels[k][o] < |t.nodes|
      && o < |RoundTeams(RoundAt(b, k))|
      && t.nodes[levels[k][o]].data == Some(TeamNode(RoundTeams(RoundAt(b, k))[o]))
  {
    LevelsOfTree(t);
    LevelNodesAt(0, t.height, k, o);
    SeatedAt(b, t, k, o);
  }
}
