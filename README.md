# Maze solvers: breadth-first search and tabular Q-learning

This project models the two maze solvers of a small Python repository and proves
what each one promises. A maze is a rectangular grid of characters: `S` start,
`E` end, `#` wall, `.` open. Moves are Right, Left, Down and Up, in that order.

- `bfs.py`, `solve_maze_bfs` and `reconstruct_path`. The search keeps a FIFO
  queue seeded with the start, a visited set and a parent map. When the end is
  dequeued, it follows the parent chain back and reverses it. Otherwise it
  visits every unvisited, in-bounds, non-wall neighbour of the dequeued cell.
  The model proves these things:
  - The answer is `None` exactly when the end cannot be reached, or when a
    marker is missing.
  - Any path returned is a shortest path of passable four-neighbours.
  - At most rows × cols cells are ever dequeued.
- `q.py`, `solve_maze_q_learning`. It sets up a table of four action values per
  non-wall cell and runs `num_episodes` epsilon-greedy episodes, each capped
  at `max_steps_per_episode` steps. Each step applies the reward rule and the
  one-step Q-update. Afterwards the table is read off greedily into a path.
  The model proves these things:
  - The table's shape: exactly the non-wall cells, four values each.
  - Each episode's exact sequence of choices, transitions, updates and stops.
  - That each update moves an entry toward its target.
  - The epsilon schedule's shape.
  - That an extracted path is the greedy route, is a walk of passable cells,
    and ends at an `E`.
  - That `None` means no greedy route reaches an `E` within the cap.

Modules:

- `Wrappers` is Python's `None` as `Option`.
- `Grid` holds the shared maze abstraction and the row-major scan that locates
  `S` and `E`.
- `Bfs` is the search.
- `QLearning` is the learner.

Both sources change state step by step, so every loop of theirs is a `method`
with a `while` or `for` loop. Each method is proved against predicates and
functions that say what it computes. The search invariant
`Bfs.Searching` carries ghost bookkeeping that the source does not have:

- the set of dequeued cells;
- each visited cell's BFS depth.

Randomness is an injected `QLearning.Oracle`:

- `uniform(episode, step)` is the draw of `random.uniform(0, 1)`;
- `choice(episode, step)` is the action `random.choice` would pick.

The defaults of q.py:4 are the constant `QLearning.Defaults`, and
`QLearning.DefaultSchedule` states the exploration schedule they give.

NumPy's `argmax` and `max` over four values are `QLearning.Argmax`, which returns
the first maximal index as NumPy does, and `QLearning.MaxValue`. Q-values,
rewards and epsilon are mathematical reals.

Where the code and its design notes disagree, the model follows the code:

- The notes call for exactly one `S` and one `E`, with a construction error
  otherwise. The code accepts any number of them. It keeps the last one in
  row-major order, and when one is missing it returns `None` (or `({}, None)`)
  instead of raising.
- The notes end an episode, and a greedy extraction, on reaching the goal. The
  code stops on entering any cell that holds `E`, which matters only when
  there are several.
- The notes say epsilon never increases. With `epsilon_start` below 0.01 the
  first decay lifts it to the floor 0.01, so it rises once
  (`QLearning.SmallStartRises`).
- A start position `(0, 0)` is a non-empty tuple and so truthy. The missing
  check `not start_pos` therefore fires only for `None`, and the model treats
  it that way.

## Model

| member | source | states |
|---|---|---|
| Grid.FindEndpoints | bfs.py:18-24 | the row-major scan returns, for `S` and for `E`, the last cell of the maze holding that mark, or None when no cell holds it |
| Grid.ScanCell | bfs.py:21-24 | scanning one cell makes it the latest occurrence of the mark if it holds it and otherwise keeps the previous answer |
| Grid.ScanRow | bfs.py:19-20 | finishing a row's columns is the same as reaching the start of the next row |
| Grid.LastOccurrenceUnique | q.py:26-31 | the scan's answer is determined: two results that are both the last occurrence coincide |
| Grid.StepsAreNeighbours | bfs.py:40-42 | the four moves of the move table reach exactly the cells at Manhattan distance one |
| Grid.StepsDistinct | q.py:43 | two moves lead to the same cell only if they are the same action |
| Grid.CellsSize | bfs.py:15-16 | a rows × cols maze has exactly rows·cols cells, and every passable cell is among them |
| Bfs.DiscoveredByMoves | bfs.py:40-46 | the first k moves discover exactly the passable, unvisited cells those moves reach, each once |
| Bfs.DiscoveredNext | bfs.py:40-49 | one more move either appends a new cell to the discovered sequence or leaves it unchanged |
| Bfs.DiscoveredNeighbours | bfs.py:40-46 | exploring a cell discovers exactly its passable, unvisited four-neighbours, without repeats |
| Bfs.Expand | bfs.py:38-49 | the neighbour loop appends the discovered cells to the queue in move order, adds them to visited, and gives each of them the explored cell as parent while every other parent stays |
| Bfs.WithParentSpec | bfs.py:48 | recording one parent for a sequence of cells adds exactly those keys and changes no other entry |
| Bfs.AdvancePartition | bfs.py:33-49 | after a round every visited cell is either dequeued or queued, exactly once |
| Bfs.AdvanceSorted | bfs.py:34-49 | after a round the queue is still ordered by depth |
| Bfs.AdvanceSpread | bfs.py:34-49 | after a round the queue still spans at most two consecutive depths |
| Bfs.AdvanceDoneFirst | bfs.py:34-49 | after a round no dequeued cell is deeper than a queued one |
| Bfs.AdvanceDepthOrder | bfs.py:34-49 | the three depth-order facts together survive a round |
| Bfs.AdvanceParents | bfs.py:46-48 | after a round every visited cell but the start has a dequeued four-neighbour parent exactly one level shallower |
| Bfs.AdvanceClosed | bfs.py:38-49 | after a round every passable neighbour of a dequeued cell is visited, at most one level deeper |
| Bfs.Advance | bfs.py:33-49 | one round of the loop preserves the whole search invariant |
| Bfs.Initially | bfs.py:29-31 | the queue `[start]`, the visited set `{start}` and an empty parent map satisfy the search invariant |
| Bfs.ExploreKeeps | bfs.py:34-49 | dequeuing a non-end cell and exploring it keeps the invariant, with that cell now dequeued |
| Bfs.LeavesThroughQueue | bfs.py:33-49 | any walk from the start that leaves the dequeued cells passes through a queued cell no deeper than its index on the walk |
| Bfs.DepthIsShortest | bfs.py:35 | when the end heads the queue, its depth is less than the length of every path from the start to it |
| Bfs.WalkStaysDone | bfs.py:33 | once the queue is empty, every cell of a walk from the start has been dequeued |
| Bfs.Exhausted | bfs.py:51 | once the queue is empty, every cell reachable from the start was dequeued, so the end is unreachable |
| Bfs.EndDequeued | bfs.py:35-36 | when the end is dequeued, the parent chains lead back to the start and the end's depth bounds every path from below |
| Bfs.ChainIsShortest | bfs.py:35-36 | the parent chain from the start to the end, with depth+1 cells, is a shortest path |
| Bfs.Visit | bfs.py:34-49 | one round after a non-end cell is dequeued appends its passable unvisited neighbours to the queue in move order, adds them to visited, records that cell as their parent and leaves every other parent alone, and the state again satisfies the invariant |
| Bfs.Search | bfs.py:29-51 | the search returns a path exactly when the end is reachable from the start, and that path is a shortest path; the loop runs once per dequeued cell, the dequeued cells are passable, include the start, include the end exactly when a path is returned, and number at most rows·cols |
| Bfs.SolveBfs | bfs.py:13-51 | start and end are the last `S` and `E`; a missing one gives None; otherwise the result is Some exactly when the end is reachable, and then it is a shortest path; the loop runs once per dequeued cell, at most rows·cols times, and dequeues only passable cells |
| Bfs.Reversed | bfs.py:65 | reversing a sequence keeps its length |
| Bfs.ReversedAt | bfs.py:65 | position i of the reversal holds the element i places from the end of the original |
| Bfs.ReversedTwice | bfs.py:65 | reversing twice gives back the original sequence |
| Bfs.ReversedLinks | bfs.py:65 | reversing a child-to-parent chain gives a parent-to-child chain |
| Bfs.ReconstructPath | bfs.py:54-65 | following parents from the end back to the start and reversing yields depth+1 cells from the start to the end, each one the parent of the next |
| QLearning.MaxValue | q.py:73 | `np.max` is an element of the values and bounds all of them from above |
| QLearning.Argmax | q.py:54 | `np.argmax` is an index of a maximal value, and every earlier value is strictly smaller, so it is the first maximal one |
| QLearning.ArgmaxHoldsMax | q.py:54 | the value at the greedy action is the maximum value |
| QLearning.InitQTable | q.py:36-41 | the initial table has a key for exactly the non-wall cells, each mapped to four zeros |
| QLearning.Choose | q.py:50-54 | a draw below epsilon takes the oracle's random action; otherwise the chosen action holds the maximum, and no earlier action does |
| QLearning.Transition | q.py:56-70 | an off-grid or wall move keeps the state with reward -1.0; entering an `E` gives 10.0; any other move gives -0.1; from a passable cell the next state is passable |
| QLearning.Updated | q.py:73 | the update changes only entry (state, action), which moves by the learning rate times the gap to reward + discount × max of the next state's values (read before the write) |
| QLearning.UpdateTowardTarget | q.py:73 | for a learning rate in [0, 1] the updated value lies between the old value and the target; rate 0 keeps it and rate 1 sets it to the target |
| QLearning.StepToward | q.py:73 | a step of fraction alpha in [0, 1] toward a target stays between start and target |
| QLearning.UpdatedWellFormed | q.py:73 | an update keeps four values in every entry |
| QLearning.DecayedEpsilon | q.py:80 | epsilon after an episode is the linear decay from `epsilon_start` at the raw episode index, floored at 0.01 |
| QLearning.DecayNonIncreasing | q.py:80 | for a non-negative start and rate the decayed epsilon never increases with the episode index |
| QLearning.ScheduleShape | q.py:45-80 | for a starting rate of at least 0.01, episodes 0 and 1 both run with `epsilon_start`, epsilon never increases from one episode to the next, and it never drops below 0.01 |
| QLearning.SmallStartRises | q.py:45-80 | a starting rate below 0.01 is lifted to 0.01 by the first decay, so epsilon rises once |
| QLearning.DefaultSchedule | q.py:4 | with the default parameters epsilon is 1 in episodes 0 and 1, falls by 0.001 per episode and reaches the floor 0.01 at episode 991 |
| QLearning.EpisodeLogExtends | q.py:50-75 | recording one more epsilon-greedy step, with its transition and its update, extends an episode's record |
| QLearning.RunEpisode | q.py:48-78 | an episode from the start follows the oracle's choices, transitions and updates step by step; it runs the full step cap unless it stops right after entering an `E`, never passes through an `E` earlier, and keeps the table's keys and shape |
| QLearning.Train | q.py:45-80 | training runs one such episode per index from the table left by the previous one, with the epsilon of the schedule, and keeps the table's keys and shape |
| QLearning.GreedyMove | q.py:90-102 | taking the greedy move into a passable cell extends the extraction route, completing it when that cell holds `E` |
| QLearning.RouteExtendsPrefix | q.py:87-102 | a complete greedy route continues every route extraction has walked so far, through table cells whose greedy move is passable |
| QLearning.NoRouteThroughMissing | q.py:88-89 | when extraction stands on a cell outside the table, no greedy route exists |
| QLearning.NoRouteThroughWall | q.py:95-96 | when the greedy move leaves the grid or hits a wall, no greedy route exists |
| QLearning.ExtractPath | q.py:84-104 | the path returned is the greedy route to an `E` within the step cap; None means every greedy route is longer than the cap allows, or there is none; when the table check fires the result is None and the start or some passable cell is missing from the table |
| QLearning.GreedyRouteIsPath | q.py:84-102 | a greedy route is a walk of passable four-neighbours from the start that ends at an `E` |
| QLearning.SolveQLearning | q.py:4-104 | a missing `S` or `E` gives `({}, None)`; otherwise training runs from a table of zeros over exactly the non-wall cells, episode by episode; the returned path is the greedy route within the cap, None only when no such route exists; and the table check of q.py:88 never fails |

## Left out

- The example mazes and printing at bfs.py:68-90 and q.py:107-128 are presentation, not solving.
- `random` is replaced by `QLearning.Oracle`. The model indexes draws by (episode, step) instead of drawing from a seeded stream, so it says nothing about the distribution of outcomes.
- Floating point is not modelled: Q-values, rewards and epsilon are exact reals, so rounding in `float` arithmetic is not captured.
- The learned table's quality is left out. That includes whether training converges and the probabilistic success rate of the greedy path.
- An empty maze (`len(maze[0])` raises) and rows of unequal length are excluded by the precondition `Grid.Rectangular`. The source reads the column count from the first row and never validates the others.
- Python's negative indexing has no counterpart. Every index the source uses is bounds-checked first, so it is never reached.
- The cost of `list.pop(0)` is not modelled. The queue is a sequence, and only the number of dequeued cells is bounded.
- Bfs.ReconstructPath: requires a parent map whose chains lead to the start, which is what the search builds. On other maps the source raises `KeyError` or loops forever, and that is not modelled.
- Bfs.Search: requires that its two arguments are an `S` cell and an `E` cell of the maze. It is the part of `solve_maze_bfs` after the endpoint check, and `Bfs.SolveBfs` calls it only with such cells.
- QLearning.RunEpisode and QLearning.Train: require a well-formed table that has a key for every passable cell and a passable start. `QLearning.SolveQLearning` always supplies these.
