/**
  Tabular Q-learning over the maze (q.py): a table of four action values per
  non-wall cell, trained over episodes with epsilon-greedy exploration, a
  fixed reward rule and the one-step update, then read off greedily into a
  path. Q-values and epsilon are real numbers; the random number generator
  is an injected oracle.
 */
module QLearning {
  import opened Wrappers
  import opened Grid

  /** `q_table`: for each non-wall cell, one value per action (Right, Left, Down, Up). */
  type QTable = map<Pos, seq<real>>

  /** The keyword parameters of `solve_maze_q_learning`. */
  datatype Config = Config(
    learningRate: real,
    discountFactor: real,
    epsilonStart: real,
    epsilonDecayRate: real,
    numEpisodes: nat,
    maxStepsPerEpisode: nat)

  /** The defaults of q.py:4. */
  const Defaults := Config(0.1, 0.9, 1.0, 0.001, 1000, 100)

  /**
    The random source. `uniform(episode, step)` is the draw of
    `random.uniform(0, 1)` and `choice(episode, step)` the action
    `random.choice` picks when that step explores.
   */
  datatype Oracle = Oracle(uniform: (nat, nat) -> real, choice: (nat, nat) -> Action)

  /** Every entry of the table holds four action values. */
  ghost predicate WellFormed(q: QTable) {
    forall s :: s in q ==> |q[s]| == 4
  }

  // ---------------------------------------------------------------------------
  // The two NumPy reductions over one cell's action values

  /** `np.max`: the largest value. */
  function MaxValue(v: seq<real>): (x: real)
    requires |v| > 0
    ensures x in v
    ensures forall i :: 0 <= i < |v| ==> v[i] <= x
  {
    if |v| == 1 then v[0]
    else
      var rest := MaxValue(v[1..]);
      if v[0] >= rest then v[0] else rest
  }

  /** `np.argmax`: the first index holding the largest value. */
  function Argmax(v: seq<real>): (k: nat)
    requires |v| > 0
    ensures k < |v|
    ensures forall i :: 0 <= i < |v| ==> v[i] <= v[k]
    ensures forall i :: 0 <= i < k ==> v[i] < v[k]
  {
    if |v| == 1 then 0
    else
      var k := Argmax(v[..|v| - 1]);
      if v[|v| - 1] > v[k] then |v| - 1 else k
  }

  /** The two reductions agree: the value at the first best index is the maximum. */
  lemma ArgmaxHoldsMax(v: seq<real>)
    requires |v| > 0
    ensures v[Argmax(v)] == MaxValue(v)
  {
  }

  // ---------------------------------------------------------------------------
  // Initialisation (q.py:36-41)

  /** One entry of four zeros for every cell that is not a wall. */
  method InitQTable(m: Maze) returns (q: QTable)
    requires Rectangular(m)
    ensures forall p :: p in q <==> Passable(m, p)
    ensures forall p :: p in q ==> q[p] == [0.0, 0.0, 0.0, 0.0]
  {
    q := map[];
    var rows, cols := |m|, |m[0]|;
    for r := 0 to rows
      invariant forall p :: p in q <==> Passable(m, p) && p.r < r
      invariant forall p :: p in q ==> q[p] == [0.0, 0.0, 0.0, 0.0]
    {
      for c := 0 to cols
        invariant forall p :: p in q <==> Passable(m, p) && (p.r < r || (p.r == r && p.c < c))
        invariant forall p :: p in q ==> q[p] == [0.0, 0.0, 0.0, 0.0]
      {
        if m[r][c] != WallMark {
          q := q[Pos(r, c) := [0.0, 0.0, 0.0, 0.0]];
        }
      }
    }
  }

  // ---------------------------------------------------------------------------
  // One training step (q.py:50-75)

  /** Epsilon-greedy selection: explore with the oracle's action when the draw is below epsilon, else exploit. */
  function Choose(draw: real, pick: Action, epsilon: real, values: seq<real>): (a: Action)
    requires |values| == 4
    ensures draw < epsilon ==> a == pick
    ensures draw >= epsilon ==> forall b: Action :: values[b] <= values[a]
    ensures draw >= epsilon ==> forall b: Action :: b < a ==> values[b] < values[a]
  {
    if draw < epsilon then pick else Argmax(values)
  }

  /** What the environment answers to one move: the state reached and the reward. */
  datatype Move = Move(next: Pos, reward: real)

  /**
    The reward rule of q.py:57-70. Off the grid or into a wall costs 1 and
    leaves the agent where it was; entering an 'E' cell pays 10; entering any
    other cell costs 0.1.
   */
  function Transition(m: Maze, s: Pos, a: Action): (t: Move)
    requires Rectangular(m)
    ensures t.next == (if Passable(m, Step(s, a)) then Step(s, a) else s)
    ensures t.reward == -1.0 <==> !Passable(m, Step(s, a))
    ensures t.reward == 10.0 <==> Passable(m, Step(s, a)) && At(m, Step(s, a)) == EndMark
    ensures t.reward == -0.1 <==> Passable(m, Step(s, a)) && At(m, Step(s, a)) != EndMark
    ensures Passable(m, s) ==> Passable(m, t.next)
  {
    var n := Step(s, a);
    if !InBounds(m, n) then Move(s, -1.0)
    else if At(m, n) == WallMark then Move(s, -1.0)
    else if At(m, n) == EndMark then Move(n, 10.0)
    else Move(n, -0.1)
  }

  /** The target of the update: the reward plus the discounted best value of the state reached. */
  function TdTarget(reward: real, gamma: real, nextValues: seq<real>): real
    requires |nextValues| > 0
  {
    reward + gamma * MaxValue(nextValues)
  }

  /**
    The update of q.py:73: Q[s][a] moves by the learning rate toward
    `TdTarget`, computed from the table before the update, and nothing else
    in the table changes.
   */
  function Updated(q: QTable, s: Pos, a: Action, reward: real, next: Pos, alpha: real, gamma: real): (q': QTable)
    requires s in q && next in q && |q[s]| == 4 && |q[next]| == 4
    ensures q'.Keys == q.Keys
    ensures forall x :: x in q && x != s ==> q'[x] == q[x]
    ensures |q'[s]| == 4 && forall b: Action :: b != a ==> q'[s][b] == q[s][b]
    ensures q'[s][a] == q[s][a] + alpha * (TdTarget(reward, gamma, q[next]) - q[s][a])
  {
    q[s := q[s][a := q[s][a] + alpha * (TdTarget(reward, gamma, q[next]) - q[s][a])]]
  }

  /**
    With a learning rate in [0, 1] the updated value lies between the old
    value and the target: rate 0 keeps the old value, rate 1 jumps to the
    target, and a value already at the target stays there.
   */
  lemma UpdateTowardTarget(q: QTable, s: Pos, a: Action, reward: real, next: Pos, alpha: real, gamma: real)
    requires s in q && next in q && |q[s]| == 4 && |q[next]| == 4
    requires 0.0 <= alpha <= 1.0
    ensures var before, after := q[s][a], Updated(q, s, a, reward, next, alpha, gamma)[s][a];
      var target := TdTarget(reward, gamma, q[next]);
      && (before <= target ==> before <= after <= target)
      && (target <= before ==> target <= after <= before)
      && (alpha == 0.0 ==> after == before)
      && (alpha == 1.0 ==> after == target)
  {
    var before, target := q[s][a], TdTarget(reward, gamma, q[next]);
    StepToward(before, target, alpha, Updated(q, s, a, reward, next, alpha, gamma)[s][a]);
  }

  /** Moving `before` by the fraction `alpha` of its gap to `target` stays between the two. */
  lemma StepToward(before: real, target: real, alpha: real, after: real)
    requires 0.0 <= alpha <= 1.0 && after == before + alpha * (target - before)
    ensures
      && (before <= target ==> before <= after <= target)
      && (target <= before ==> target <= after <= before)
      && (alpha == 0.0 ==> after == before)
      && (alpha == 1.0 ==> after == target)
  {
    var d := target - before;
    var x := alpha * d;
    if d >= 0.0 {
      ProductNonNegative(alpha, d);
      ProductNonNegative(1.0 - alpha, d);
      assert (1.0 - alpha) * d == d - x;
    } else {
      ProductNonNegative(alpha, 0.0 - d);
      ProductNonNegative(1.0 - alpha, 0.0 - d);
      assert alpha * (0.0 - d) == 0.0 - x;
      assert (1.0 - alpha) * (0.0 - d) == x - d;
    }
  }

  lemma ProductNonNegative(x: real, y: real)
    requires 0.0 <= x && 0.0 <= y
    ensures 0.0 <= x * y
  {
  }

  /** An update keeps every entry at four values. */
  lemma UpdatedWellFormed(q: QTable, s: Pos, a: Action, reward: real, next: Pos, alpha: real, gamma: real)
    requires s in q && next in q && WellFormed(q)
    ensures WellFormed(Updated(q, s, a, reward, next, alpha, gamma))
  {
  }

  // ---------------------------------------------------------------------------
  // Exploration schedule (q.py:45, q.py:80)

  /**
    The exploration rate computed after an episode: the starting rate scaled
    down linearly in the episode index, but never below the floor 0.01.
   */
  function DecayedEpsilon(start: real, rate: real, episode: nat): (eps: real)
    ensures eps >= 0.01 && eps >= start * (1.0 - rate * episode as real)
    ensures eps == 0.01 || eps == start * (1.0 - rate * episode as real)
  {
    var linear := start * (1.0 - rate * episode as real);
    if linear >= 0.01 then linear else 0.01
  }

  /**
    The epsilon in force during episode `e`: `epsilon_start` in episode 0,
    and afterwards the value the decay computed at the end of episode e - 1.
   */
  function EpsilonFor(cfg: Config, e: nat): real {
    if e == 0 then cfg.epsilonStart
    else DecayedEpsilon(cfg.epsilonStart, cfg.epsilonDecayRate, e - 1)
  }

  /** With a non-negative start and rate, later episodes never decay less. */
  lemma DecayNonIncreasing(start: real, rate: real, e1: nat, e2: nat)
    requires 0.0 <= start && 0.0 <= rate && e1 <= e2
    ensures DecayedEpsilon(start, rate, e2) <= DecayedEpsilon(start, rate, e1)
  {
    var l1 := start * (1.0 - rate * e1 as real);
    var l2 := start * (1.0 - rate * e2 as real);
    assert l1 - l2 == start * (rate * (e2 as real - e1 as real));
    assert rate * (e2 as real - e1 as real) >= 0.0;
    assert l2 <= l1;
  }

  /**
    The schedule starts at `epsilon_start`, is unchanged by the first decay
    (the decay is computed from the raw episode index, 0 after episode 0),
    never increases and never falls below 0.01, provided the starting rate is
    itself at least 0.01 (see `SmallStartRises` for the other case).
   */
  lemma ScheduleShape(cfg: Config, e1: nat, e2: nat)
    requires 0.01 <= cfg.epsilonStart && 0.0 <= cfg.epsilonDecayRate && e1 <= e2
    ensures EpsilonFor(cfg, 0) == cfg.epsilonStart && EpsilonFor(cfg, 1) == cfg.epsilonStart
    ensures EpsilonFor(cfg, e2) <= EpsilonFor(cfg, e1)
    ensures EpsilonFor(cfg, e2) >= 0.01
  {
    assert cfg.epsilonDecayRate * (0 as real) == 0.0;
    if e1 == 0 {
      if e2 > 0 {
        DecayNonIncreasing(cfg.epsilonStart, cfg.epsilonDecayRate, 0, e2 - 1);
      }
    } else {
      DecayNonIncreasing(cfg.epsilonStart, cfg.epsilonDecayRate, e1 - 1, e2 - 1);
    }
  }

  /**
    A starting rate below the floor is lifted to 0.01 by the first decay, so
    the schedule then rises once instead of decaying.
   */
  lemma SmallStartRises(cfg: Config)
    requires cfg.epsilonStart < 0.01
    ensures EpsilonFor(cfg, 0) < EpsilonFor(cfg, 1) == 0.01
  {
    assert cfg.epsilonDecayRate * (0 as real) == 0.0;
  }

  /**
    The schedule under the default parameters: episode 0 and 1 explore with
    rate 1, each later episode 0.001 less, until episode 991 reaches the floor
    0.01, where the rate stays for the rest of the default 1000 episodes.
   */
  lemma DefaultSchedule(e: nat)
    ensures EpsilonFor(Defaults, 0) == 1.0
    ensures 1 <= e <= 991 ==> EpsilonFor(Defaults, e) == 1.0 - 0.001 * (e - 1) as real
    ensures 991 <= e ==> EpsilonFor(Defaults, e) == 0.01
  {
    if 1 <= e {
      var k := (e - 1) as real;
      assert 1.0 * (1.0 - 0.001 * k) == 1.0 - 0.001 * k;
    }
  }

  // ---------------------------------------------------------------------------
  // Training (q.py:47-80)

  /**
    One step of an episode: from state `s` with table `q`, the epsilon-greedy
    choice made from the draw `draw` (and the exploring action `pick`) is
    `a`, the reward rule moves the agent to `s'`, and `q'` is `q` after the
    one-step update of that move.
   */
  ghost predicate EpisodeStep(m: Maze, cfg: Config, epsilon: real, draw: real, pick: Action,
                              s: Pos, q: QTable, a: Action, s': Pos, q': QTable)
    requires Rectangular(m)
  {
    && s in q && |q[s]| == 4
    && a == Choose(draw, pick, epsilon, q[s])
    && var t := Transition(m, s, a);
       t.next in q && |q[t.next]| == 4 && s' == t.next
       && q' == Updated(q, s, a, t.reward, t.next, cfg.learningRate, cfg.discountFactor)
  }

  /**
    The record of an episode so far: `trace` the states visited from
    `start`, all passable, `moves` the actions taken and `tables` the table
    before each step (and after the last), each step an `EpisodeStep` with
    the oracle's draws for that episode and step.
   */
  ghost predicate EpisodeLog(m: Maze, q: QTable, start: Pos, cfg: Config, epsilon: real, episode: nat,
                             oracle: Oracle, trace: seq<Pos>, moves: seq<Action>, tables: seq<QTable>)
    requires Rectangular(m)
  {
    && |trace| == |moves| + 1 == |tables|
    && trace[0] == start && tables[0] == q
    && (forall i :: 0 <= i < |trace| ==> Passable(m, trace[i]))
    && (forall i :: 0 <= i < |moves| ==>
          EpisodeStep(m, cfg, epsilon, oracle.uniform(episode, i), oracle.choice(episode, i),
                      trace[i], tables[i], moves[i], trace[i + 1], tables[i + 1]))
  }

  /** Recording one more epsilon-greedy step, its transition and its update extends the log. */
  lemma EpisodeLogExtends(m: Maze, q: QTable, start: Pos, cfg: Config, epsilon: real, episode: nat,
                          oracle: Oracle, trace: seq<Pos>, moves: seq<Action>, tables: seq<QTable>, a: Action)
    requires Rectangular(m)
    requires EpisodeLog(m, q, start, cfg, epsilon, episode, oracle, trace, moves, tables)
    requires var last := tables[|moves|];
      && WellFormed(last) && (forall p :: Passable(m, p) ==> p in last)
      && a == Choose(oracle.uniform(episode, |moves|), oracle.choice(episode, |moves|), epsilon,
                     last[trace[|moves|]])
    ensures var s, last := trace[|moves|], tables[|moves|];
      var t := Transition(m, s, a);
      && WellFormed(Updated(last, s, a, t.reward, t.next, cfg.learningRate, cfg.discountFactor))
      && EpisodeLog(m, q, start, cfg, epsilon, episode, oracle, trace + [t.next], moves + [a],
                    tables + [Updated(last, s, a, t.reward, t.next, cfg.learningRate, cfg.discountFactor)])
  {
    var s, last := trace[|moves|], tables[|moves|];
    var t := Transition(m, s, a);
    UpdatedWellFormed(last, s, a, t.reward, t.next, cfg.learningRate, cfg.discountFactor);
    var trace', moves', tables' :=
      trace + [t.next], moves + [a],
      tables + [Updated(last, s, a, t.reward, t.next, cfg.learningRate, cfg.discountFactor)];
    forall i | 0 <= i < |moves'|
      ensures EpisodeStep(m, cfg, epsilon, oracle.uniform(episode, i), oracle.choice(episode, i),
                          trace'[i], tables'[i], moves'[i], trace'[i + 1], tables'[i + 1])
    {
      if i < |moves| {
        assert trace'[i] == trace[i] && trace'[i + 1] == trace[i + 1];
        assert tables'[i] == tables[i] && tables'[i + 1] == tables[i + 1];
        assert moves'[i] == moves[i];
      }
    }
  }

  /**
    One episode (the inner loop, q.py:48-78). The ghost outputs record what
    happened (see `EpisodeLog`). The episode starts at `start`, follows the
    epsilon-greedy choice and the reward rule, updates one entry per step,
    and stops after `maxStepsPerEpisode` steps or right after entering an
    'E' cell; the table it returns is the one after the last step.
   */
  method RunEpisode(m: Maze, q: QTable, start: Pos, cfg: Config, epsilon: real, episode: nat, oracle: Oracle)
    returns (q': QTable, ghost trace: seq<Pos>, ghost moves: seq<Action>, ghost tables: seq<QTable>)
    requires Rectangular(m) && WellFormed(q) && Passable(m, start)
    requires forall p :: Passable(m, p) ==> p in q
    ensures q'.Keys == q.Keys && WellFormed(q')
    ensures EpisodeLog(m, q, start, cfg, epsilon, episode, oracle, trace, moves, tables)
    ensures |moves| <= cfg.maxStepsPerEpisode && tables[|moves|] == q'
    ensures forall i :: 0 < i < |moves| ==> !IsEnd(m, trace[i])
    ensures |moves| < cfg.maxStepsPerEpisode ==> 0 < |moves| && IsEnd(m, trace[|moves|])
  {
    q' := q;
    var state := start;
    trace, moves, tables := [start], [], [q];
    for step := 0 to cfg.maxStepsPerEpisode
      invariant q'.Keys == q.Keys && WellFormed(q')
      invariant EpisodeLog(m, q, start, cfg, epsilon, episode, oracle, trace, moves, tables)
      invariant |moves| == step && tables[step] == q' && trace[step] == state
      invariant forall i :: 0 < i < |trace| ==> !IsEnd(m, trace[i])
    {
      var a := Choose(oracle.uniform(episode, step), oracle.choice(episode, step), epsilon, q'[state]);
      var t := Transition(m, state, a);
      EpisodeLogExtends(m, q, start, cfg, epsilon, episode, oracle, trace, moves, tables, a);
      q' := Updated(q', state, a, t.reward, t.next, cfg.learningRate, cfg.discountFactor);
      state := t.next;
      trace, moves, tables := trace + [state], moves + [a], tables + [q'];
      if At(m, state) == EndMark {
        break;
      }
    }
  }

  /**
    Some run of episode `episode` from `start` with exploration rate
    `epsilon` turns table `q` into `q'`: a log of epsilon-greedy steps that
    stops after `maxStepsPerEpisode` steps, or earlier exactly when it has
    just entered an 'E' cell.
   */
  ghost predicate IsEpisode(m: Maze, q: QTable, start: Pos, cfg: Config, epsilon: real, episode: nat,
                            oracle: Oracle, q': QTable)
    requires Rectangular(m)
  {
    exists trace: seq<Pos>, moves: seq<Action>, tables: seq<QTable> ::
      && EpisodeLog(m, q, start, cfg, epsilon, episode, oracle, trace, moves, tables)
      && |moves| <= cfg.maxStepsPerEpisode && tables[|moves|] == q'
      && (forall i :: 0 < i < |moves| ==> !IsEnd(m, trace[i]))
      && (|moves| < cfg.maxStepsPerEpisode ==> 0 < |moves| && IsEnd(m, trace[|moves|]))
  }

  /**
    The episode loop (q.py:45-80): episode e runs from the start with
    exploration rate `EpsilonFor(cfg, e)`, after which epsilon is recomputed
    from the episode index. `history[e]` is the table before episode e.
   */
  method Train(m: Maze, q0: QTable, start: Pos, cfg: Config, oracle: Oracle)
    returns (q: QTable, ghost history: seq<QTable>)
    requires Rectangular(m) && WellFormed(q0) && Passable(m, start)
    requires forall p :: Passable(m, p) ==> p in q0
    ensures q.Keys == q0.Keys && WellFormed(q)
    ensures |history| == cfg.numEpisodes + 1 && history[0] == q0 && history[cfg.numEpisodes] == q
    ensures forall e :: 0 <= e < cfg.numEpisodes ==>
      IsEpisode(m, history[e], start, cfg, EpsilonFor(cfg, e), e, oracle, history[e + 1])
  {
    q := q0;
    history := [q0];
    var epsilon := cfg.epsilonStart;
    for episode := 0 to cfg.numEpisodes
      invariant q.Keys == q0.Keys && WellFormed(q)
      invariant |history| == episode + 1 && history[0] == q0 && history[episode] == q
      invariant forall e :: 0 <= e < episode ==>
        IsEpisode(m, history[e], start, cfg, EpsilonFor(cfg, e), e, oracle, history[e + 1])
      invariant epsilon == EpsilonFor(cfg, episode)
    {
      ghost var before := q;
      ghost var trace, moves, tables;
      q, trace, moves, tables := RunEpisode(m, q, start, cfg, epsilon, episode, oracle);
      assert IsEpisode(m, before, start, cfg, epsilon, episode, oracle, q);
      history := history + [q];
      epsilon := DecayedEpsilon(cfg.epsilonStart, cfg.epsilonDecayRate, episode);
    }
  }

  // ---------------------------------------------------------------------------
  // Greedy extraction (q.py:83-104)

  /**
    `p` is the route greedy extraction follows from `s`: from each cell it
    takes the first best action of that cell's values, every cell after the
    first is passable, and it stops at the first cell holding 'E'.
   */
  ghost predicate IsGreedyRoute(m: Maze, q: QTable, s: Pos, p: seq<Pos>)
    requires Rectangular(m)
  {
    && 1 < |p| && p[0] == s
    && (forall i :: 0 <= i < |p| - 1 ==>
          p[i] in q && |q[p[i]]| == 4 && p[i + 1] == Step(p[i], Argmax(q[p[i]])))
    && (forall i :: 0 < i < |p| ==> Passable(m, p[i]))
    && (forall i :: 0 < i < |p| - 1 ==> !IsEnd(m, p[i]))
    && IsEnd(m, p[|p| - 1])
  }

  /** The cells extraction has walked so far: greedy moves from `s` through passable cells without an 'E'. */
  ghost predicate GreedyPrefix(m: Maze, q: QTable, s: Pos, route: seq<Pos>)
    requires Rectangular(m)
  {
    && 0 < |route| && route[0] == s
    && (forall i :: 0 <= i < |route| - 1 ==>
          route[i] in q && |q[route[i]]| == 4 && route[i + 1] == Step(route[i], Argmax(q[route[i]])))
    && (forall i :: 0 < i < |route| ==> Passable(m, route[i]) && !IsEnd(m, route[i]))
  }

  /**
    Taking the greedy move from the last cell of a prefix into a passable
    cell gives a longer prefix, or a whole greedy route when that cell holds 'E'.
   */
  lemma GreedyMove(m: Maze, q: QTable, s: Pos, route: seq<Pos>)
    requires Rectangular(m) && WellFormed(q) && GreedyPrefix(m, q, s, route)
    requires route[|route| - 1] in q
    requires Passable(m, Step(route[|route| - 1], Argmax(q[route[|route| - 1]])))
    ensures var next := Step(route[|route| - 1], Argmax(q[route[|route| - 1]]));
      && (!IsEnd(m, next) ==> GreedyPrefix(m, q, s, route + [next]))
      && (IsEnd(m, next) ==> IsGreedyRoute(m, q, s, route + [next]))
  {
  }

  /** Greedy moves are determined by the table: every greedy route strictly extends every greedy prefix. */
  lemma {:induction false} RouteExtendsPrefix(m: Maze, q: QTable, s: Pos, route: seq<Pos>, p: seq<Pos>)
    requires Rectangular(m) && GreedyPrefix(m, q, s, route) && IsGreedyRoute(m, q, s, p)
    ensures |route| < |p| && p[..|route|] == route
    ensures route[|route| - 1] in q
    ensures Passable(m, Step(route[|route| - 1], Argmax(q[route[|route| - 1]])))
  {
    if |route| > 1 {
      var k := |route| - 1;
      assert GreedyPrefix(m, q, s, route[..k]);
      RouteExtendsPrefix(m, q, s, route[..k], p);
      assert p[k - 1] == route[k - 1];
      assert p[k] == route[k];
      assert !IsEnd(m, route[k]);
    }
    var k := |route| - 1;
    assert p[k] == route[k];
    assert p[k + 1] == Step(p[k], Argmax(q[p[k]]));
  }

  /** No greedy route passes a cell the table lacks. */
  lemma NoRouteThroughMissing(m: Maze, q: QTable, s: Pos, route: seq<Pos>, p: seq<Pos>)
    requires Rectangular(m) && GreedyPrefix(m, q, s, route) && route[|route| - 1] !in q
    ensures !IsGreedyRoute(m, q, s, p)
  {
    if IsGreedyRoute(m, q, s, p) {
      RouteExtendsPrefix(m, q, s, route, p);
      assert false;
    }
  }

  /** No greedy route continues past a greedy move off the grid or into a wall. */
  lemma NoRouteThroughWall(m: Maze, q: QTable, s: Pos, route: seq<Pos>, p: seq<Pos>)
    requires Rectangular(m) && WellFormed(q) && GreedyPrefix(m, q, s, route)
    requires route[|route| - 1] in q
    requires !Passable(m, Step(route[|route| - 1], Argmax(q[route[|route| - 1]])))
    ensures !IsGreedyRoute(m, q, s, p)
  {
    if IsGreedyRoute(m, q, s, p) {
      RouteExtendsPrefix(m, q, s, route, p);
      assert false;
    }
  }

  /**
    Follow the greedy action from `start` for at most `maxSteps` moves. The
    result is the greedy route when it reaches an 'E' cell within the cap;
    otherwise (a move off the grid or into a wall, the cap, or a cell missing
    from the table) None. `guardFired` tells whether the table lookup failed,
    which needs the start or some passable cell to be missing from it.
   */
  method ExtractPath(m: Maze, q: QTable, start: Pos, maxSteps: nat)
    returns (path: Option<seq<Pos>>, ghost guardFired: bool)
    requires Rectangular(m) && WellFormed(q)
    ensures path.Some? ==> IsGreedyRoute(m, q, start, path.value) && |path.value| <= maxSteps + 1
    ensures path.None? ==> forall p :: IsGreedyRoute(m, q, start, p) ==> |p| > maxSteps + 1
    ensures guardFired ==> path.None? && (start !in q || exists x :: Passable(m, x) && x !in q)
  {
    guardFired := false;
    var route := [start];
    var current := start;
    for step := 0 to maxSteps
      invariant |route| == step + 1 && route[step] == current
      invariant GreedyPrefix(m, q, start, route)
    {
      if current !in q {
        guardFired := true;
        path := None;
        forall p ensures !IsGreedyRoute(m, q, start, p) {
          NoRouteThroughMissing(m, q, start, route, p);
        }
        assert step > 0 ==> Passable(m, route[step]);
        return;
      }
      var next := Step(current, Argmax(q[current]));
      if !Passable(m, next) {
        forall p ensures !IsGreedyRoute(m, q, start, p) {
          NoRouteThroughWall(m, q, start, route, p);
        }
        path := None;
        return;
      }
      GreedyMove(m, q, start, route);
      route := route + [next];
      current := next;
      if At(m, current) == EndMark {
        path := Some(route);
        return;
      }
    }
    forall p | IsGreedyRoute(m, q, start, p) ensures |p| > maxSteps + 1 {
      RouteExtendsPrefix(m, q, start, route, p);
    }
    path := None;
  }

  /** A greedy route from a passable start is a path of passable four-neighbours to an 'E' cell. */
  lemma GreedyRouteIsPath(m: Maze, q: QTable, s: Pos, p: seq<Pos>)
    requires Rectangular(m) && Passable(m, s) && IsGreedyRoute(m, q, s, p)
    ensures IsPath(m, p, s, p[|p| - 1]) && IsEnd(m, p[|p| - 1])
  {
    forall i | 0 <= i < |p| - 1 ensures Adjacent(p[i], p[i + 1]) {
      StepsAreNeighbours(p[i], p[i + 1]);
    }
  }

  // ---------------------------------------------------------------------------
  // The solver (q.py:4-104)

  /**
    `solve_maze_q_learning`. Without an 'S' or an 'E' the result is an empty
    table and None. Otherwise the table keeps exactly the non-wall cells,
    four values each, and the path is the greedy route from the (last) 'S'
    when it reaches an 'E' within `maxStepsPerEpisode` moves, None when it
    does not. `history` holds the table before each training episode and
    after the last. `guardFired` tells whether extraction's table-membership check
    (q.py:88) failed: it never does.
   */
  method SolveQLearning(m: Maze, cfg: Config, oracle: Oracle)
    returns (q: QTable, path: Option<seq<Pos>>,
             ghost s: Option<Pos>, ghost e: Option<Pos>, ghost history: seq<QTable>, ghost guardFired: bool)
    requires Rectangular(m)
    ensures LastOccurrence(m, StartMark, s) && LastOccurrence(m, EndMark, e)
    ensures s.None? || e.None? ==> q == map[] && path.None?
    ensures s.Some? && e.Some? ==> (forall p :: p in q <==> Passable(m, p)) && WellFormed(q)
    ensures s.Some? && e.Some? ==>
      && |history| == cfg.numEpisodes + 1 && history[cfg.numEpisodes] == q
      && (forall p :: p in history[0] ==> history[0][p] == [0.0, 0.0, 0.0, 0.0])
      && (forall p :: p in history[0] <==> Passable(m, p))
      && forall ep :: 0 <= ep < cfg.numEpisodes ==>
           IsEpisode(m, history[ep], s.value, cfg, EpsilonFor(cfg, ep), ep, oracle, history[ep + 1])
    ensures path.Some? ==>
      s.Some? && e.Some? && IsGreedyRoute(m, q, s.value, path.value) && |path.value| <= cfg.maxStepsPerEpisode + 1
    ensures s.Some? && e.Some? && path.None? ==>
      forall p :: IsGreedyRoute(m, q, s.value, p) ==> |p| > cfg.maxStepsPerEpisode + 1
    ensures !guardFired
    ensures path.Some? ==>
      && 0 < |path.value| && LastOccurrence(m, StartMark, Some(path.value[0]))
      && IsGreedyRoute(m, q, path.value[0], path.value) && |path.value| <= cfg.maxStepsPerEpisode + 1
    ensures path.None? ==> forall st, en ::
      LastOccurrence(m, StartMark, Some(st)) && LastOccurrence(m, EndMark, Some(en)) ==>
        forall p :: IsGreedyRoute(m, q, st, p) ==> |p| > cfg.maxStepsPerEpisode + 1
  {
    var startPos, endPos := FindEndpoints(m);
    s, e := startPos, endPos;
    guardFired, history := false, [];
    if startPos.None? || endPos.None? {
      q, path := map[], None;
    } else {
      var q0 := InitQTable(m);
      q, history := Train(m, q0, startPos.value, cfg, oracle);
      path, guardFired := ExtractPath(m, q, startPos.value, cfg.maxStepsPerEpisode);
    }
    forall st, en | LastOccurrence(m, StartMark, Some(st)) && LastOccurrence(m, EndMark, Some(en))
      ensures s == Some(st) && e == Some(en)
    {
      LastOccurrenceUnique(m, StartMark, s, Some(st));
      LastOccurrenceUnique(m, EndMark, e, Some(en));
    }
  }
}
