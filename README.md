# Epidemic simulator engine, modelled in Dafny

This project models the simulation engine of a browser toy that spreads an
infection over a spatial contact graph, generation by generation
(`src/engine.ts`). The engine has two parts:

- **the graph builder** (`generateNodes`). It lays a jittered `lines × lines`
  lattice of candidate positions over the box, with
  `lines = floor(sqrt(NODES)) + 5`. It draws one position per node without
  replacement. Node 0 starts Sick and every other node starts Healthy, all
  with the full infection length as countdown. Each node is then linked to
  those of its first four nearest-neighbour answers that are not itself.
- **the stepper** (`runGeneration`). It works on the state in place:
  - a paused state is returned untouched;
  - the decay pass clears every attack mark, and takes 0.2 off the countdown
    of every Sick node with a positive countdown, which recovers once the
    countdown is below 1;
  - the spread pass lets the nodes that are Sick after decay attack their
    Healthy link targets, one random draw per attack against the infection
    rate;
  - the statuses are counted and recorded in a bounded history that drops
    its oldest record;
  - the returned state shares the mutated nodes and history, with the
    generation index advanced and `paused` set when nobody is Sick.

`createInitialState` restarts a run. It carries over the rate, the length and
the generation index, unpauses, empties the history and builds new nodes.

Modules, one per concern of `engine.ts`:

- `Nodes` (`nodes.dfy`): statuses and node records.
- `Census` (`census.dfy`): counting.
- `Generations` (`generations.dfy`): the bounded history, as a class with a
  `seq` field.
- `Decaying` (`decaying.dfy`): the decay pass.
- `Spreading` (`spreading.dfy`): the spread pass.
- `GraphBuilder` (`graph_builder.dfy`): `generateNodes`.
- `Engine` (`engine.dfy`): the state, `runGeneration`, `createInitialState`.

The modelling choices:

- Nodes live in an `array<Node>` of records whose `links` are indices into
  that array, not references.
- The state is a record that holds references to the node array and to the
  history object. The step mutates both and returns
  `s.(generation := s.generation + 1, paused := …)`, just as the source
  returns `{...state, …}` around the same mutated objects.
- Each loop of the source is a method with invariants, proved against a pure
  specification function (`DecayAll`, `SpreadAll`, `CountOf`, `Appended`,
  `ChosenLinks`, `GridPosition`). The properties are lemmas about those
  functions.

External inputs are parameters:

- Every `Math.random()` result comes from an oracle `nat -> real`. There is
  one oracle per call site: `jitter` for the lattice, `pick` for the position
  draw, `draw` for the spread pass. The k-th call at a site reads entry k.
- The kd-tree's answers come from `knn`, one index list per node, all in
  range.
- The constants `NODES`, `BOX_SIZE` and `HISTORY` are the parameters
  `nodeCount`, `boxSize` and `historyCap`.

Three behaviours of `engine.ts` worth knowing:

- `createInitialState` keeps the generation index of the state it restarts
  from; it does not reset it to 0 (`Engine.CreateInitialState`).
- The nearest-neighbour answers are cut to four before the node itself is
  filtered out. A node whose own index is among its first four answers
  therefore gets only three links (`GraphBuilder.ChosenLinks`).
- The attack mark stays set on a node that a later attacker infects in the
  same pass, so a node can end a generation both Sick and marked
  (`Spreading.Evolves` allows it; `Engine.MarkedWhileSick` exhibits it).

## Model

| member | source | states |
|---|---|---|
| `Census.Count` | src/engine.ts:124-134 | a status count is at most the population, and is 0 exactly when no node has that status |
| `Census.CountOf` | src/engine.ts:124-134 | the three counts add up to the population, and the Sick count is 0 exactly when no node is Sick |
| `Census.CountsPartition` | src/engine.ts:124-134 | every node is counted in exactly one status |
| `Census.CountStatuses` | src/engine.ts:124-134 | the counting loop yields the counts of the array, which sum to its length |
| `Generations.Appended` | src/engine.ts:135-141 | recording keeps a history within the window; the result is the new record preceded by the old history, less its oldest record exactly when the window was full; the last record is the new one |
| `Generations.WindowHoldsMostRecent` | src/engine.ts:135-141 | over any number of generations, a history within the window ends holding exactly the most recent `cap` records, oldest first |
| `Generations.History.constructor` | src/engine.ts:165 | a new history is empty |
| `Generations.History.Push` | src/engine.ts:135-141 | push-then-splice leaves the records `Appended` describes |
| `Decaying.Decay` | src/engine.ts:97-105 | only the mark, status and countdown change; the mark is cleared; a Sick node with a positive countdown loses exactly 0.2 and is Recovered exactly when the new countdown is below 1; every other node (Healthy, Recovered, or Sick with a non-positive countdown) only loses its mark; the countdown never grows |
| `Decaying.DecayAll` | src/engine.ts:97-105 | every node goes through `Decay`, population size unchanged |
| `Decaying.DecayKeepsLinks` | src/engine.ts:97-105 | links stay in range through the decay pass |
| `Decaying.DecayBoundary` | src/engine.ts:99-103 | 1.2 decays to 1.0 and stays Sick; 1.1 decays to 0.9 and recovers; 5 stays Sick |
| `Decaying.DecayTimes` | src/engine.ts:99-103 | repeated decay never makes a node Healthy or takes it out of Healthy |
| `Decaying.RecoveryTime` | src/engine.ts:99-103 | a Sick node with countdown c >= 1 is Sick after k decays exactly when c - 0.2k >= 1, with countdown c - 0.2k, and Recovered (countdown below 1) otherwise |
| `Decaying.DecayPass` | src/engine.ts:97-105 | the in-place decay loop leaves the array equal to `DecayAll` of the old array |
| `Spreading.SickIndices` | src/engine.ts:108-109 | the spreading list holds exactly the indices of the Sick nodes, in increasing order |
| `Spreading.Attack` | src/engine.ts:112-118 | one attack touches only its target; a Healthy target consumes exactly one draw and falls Sick with the full length exactly when the draw is below the rate, and is marked exactly when the draw is not (or it was marked); any other target is left alone and no draw is consumed |
| `Spreading.AttackAll` | src/engine.ts:111-120 | attacks keep the population size, consume draws forward, and change each node only as `Evolves` allows (non-Healthy untouched; Healthy stays Healthy or falls Sick with the full length) |
| `Spreading.SpreadAll` | src/engine.ts:108-121 | the spread pass keeps the population size and changes each node only as `Evolves` allows, so Sick and Recovered nodes are never touched |
| `Spreading.AttackAllOnlyTargets` | src/engine.ts:111-120 | a node that is not a target is untouched |
| `Spreading.SpreadOnlyExposed` | src/engine.ts:108-121 | a node no spreading node links to leaves the pass unchanged: infection follows only the stored links of the Sick nodes |
| `Spreading.AttackAllResisted` | src/engine.ts:112-118 | with every draw at or above the rate, the only change is the mark on Healthy targets |
| `Spreading.SpreadResisted` | src/engine.ts:108-121 | with every draw at or above the rate, no status changes and exactly the Healthy exposed nodes get marked |
| `Spreading.AttackAllInfects` | src/engine.ts:112-118 | with every draw below the rate, every target not Recovered is Sick afterwards |
| `Spreading.SpreadInfects` | src/engine.ts:108-121 | with every draw below the rate, every exposed node not Recovered is Sick afterwards |
| `Spreading.AttackLinks` | src/engine.ts:111-120 | the in-place loop over one Sick node's links leaves the array and the next draw index exactly as `AttackAll` says |
| `Spreading.SpreadPass` | src/engine.ts:107-121 | the nested in-place loops over the filtered Sick list leave the array equal to `SpreadAll` from the list fixed before any infection |
| `GraphBuilder.ISqrt` | src/engine.ts:45 | integer square root: r*r <= n < (r+1)*(r+1) |
| `GraphBuilder.GridLines` | src/engine.ts:45 | the lattice has at least 5 lines and more cells than nodes |
| `GraphBuilder.Separation` | src/engine.ts:46 | `lines` spacings span exactly the box less its two margins of 5 |
| `GraphBuilder.PoolInBox` | src/engine.ts:46-55 | with draws in [0, 1), every pool position (`GridPosition`) lies at least 5 from the low edges and more than 3 short of the high edges of a box of side at least 10 |
| `GraphBuilder.BuildPositions` | src/engine.ts:44-57 | the nested loops fill `lines*lines` positions, entry p being lattice point (p / lines, p % lines) plus twice its two jitter draws |
| `GraphBuilder.RemoveAt` | src/engine.ts:60-61 | splice of one entry: one shorter, later entries shift down by one |
| `GraphBuilder.DrawIndex` | src/engine.ts:60-61 | `floor(r * size)` for r in [0, 1) is a valid index of a non-empty pool |
| `GraphBuilder.Others` | src/engine.ts:81 | the filter never lengthens the answers and never keeps the node itself |
| `GraphBuilder.OthersMembers` | src/engine.ts:81 | the filter keeps exactly the answers other than the node itself |
| `GraphBuilder.ChosenLinks` | src/engine.ts:80-81 | at most 4 links, never the node itself |
| `GraphBuilder.ChosenLinksShape` | src/engine.ts:80-81 | the links are exactly the first-four answers other than the node itself |
| `GraphBuilder.Seed` | src/engine.ts:64-71 | a placed node has id i and the drawn position, is Sick exactly when i = 0 and Healthy otherwise, with the full countdown, no links and no mark |
| `GraphBuilder.SeededCounts` | src/engine.ts:64-71 | a non-empty seeded population counts 1 Sick, the rest Healthy, none Recovered |
| `GraphBuilder.DrawnSlots` | src/engine.ts:60-61 | draws i .. n-1 select one pool index each, n - i in all; `GraphBuilder.PlaceNodes` proves its splicing loop hands out exactly these |
| `GraphBuilder.PlaceNodes` | src/engine.ts:59-71 | the pool indices the nodes receive are exactly `DrawnSlots` of the `pick` draws over the whole pool, hence distinct; node i has id i, sits at its drawn entry, node 0 is Sick and the others Healthy, all with the full countdown, no links and no mark |
| `GraphBuilder.ChosenLinksBelow` | src/engine.ts:78-81 | links are taken from the answers, so answers in range give links in range |
| `GraphBuilder.LinkNode` | src/engine.ts:78-84 | one node receives, appended in order, exactly `ChosenLinks` of its answers; every other node is unchanged |
| `GraphBuilder.LinkNodes` | src/engine.ts:76-85 | the linking loop appends to each node exactly `ChosenLinks` of its answers and changes nothing else |
| `GraphBuilder.BuiltFacts` | src/engine.ts:59-85 | any built population has links in range, at most 4 per node and never to itself, node 0 alone Sick and the rest Healthy, full countdowns, no marks, and the census 1 Sick, the rest Healthy |
| `GraphBuilder.GenerateNodes` | src/engine.ts:41-88 | the new population is `Built`: ids are indices, node i sits at the lattice slot its `pick` draw splices out (slots distinct), node 0 alone Sick, full countdowns, at most 4 in-range links never to self; the initial census is 1 Sick, the rest Healthy |
| `Engine.StepNodes` | src/engine.ts:91-121 | a generation keeps the population size, every id, position and link, and keeps links in range |
| `Engine.StepNotHealthy` | src/engine.ts:96-121 | a Sick or Recovered node ends a generation exactly as `Decay` leaves it, whatever its neighbours and the draws; Recovered is absorbing across the whole step |
| `Engine.StepHealthy` | src/engine.ts:108-121 | a Healthy node stays Healthy with its countdown, or falls Sick with the full length, and then only if a node Sick after decay links to it |
| `Engine.StepWhenEveryDrawFails` | src/engine.ts:112-118 | with every draw at or above the rate nobody falls Sick: each node ends as decay left it, marked exactly when Healthy and linked from a post-decay Sick node |
| `Engine.StepWhenEveryDrawSucceeds` | src/engine.ts:112-118 | with every draw below the rate, every Healthy node linked from a post-decay Sick node is Sick after the step |
| `Engine.StepsNodes` | src/engine.ts:91-149 | any number of generations keeps the population size and links in range |
| `Engine.SicknessFollowsDecay` | src/engine.ts:97-121 | over many generations a non-Healthy node's status and countdown follow repeated decay alone |
| `Engine.SicknessRunsItsCourse` | src/engine.ts:97-121 | a node Sick with countdown c >= 1 is Sick after k generations exactly when c - 0.2k >= 1, and Recovered otherwise |
| `Engine.ScenarioFirstGeneration` | src/engine.ts:97-121 | two mutually linked nodes, rate 1: node 0 goes from 1.2 to 1.0 and stays Sick, node 1 falls Sick with countdown 14 |
| `Engine.MarkedWhileSick` | src/engine.ts:108-121 | two Sick nodes attack the same Healthy node; the first draw fails and marks it, the second infects it, and it ends the generation Sick and still marked |
| `Engine.MarkSpread` | src/engine.ts:108-121 | for any three nodes where 0 and 1 link only to a Healthy node 2, the spread with a failing then a succeeding draw leaves node 2 Sick with the full length and marked |
| `Engine.ScenarioSecondGeneration` | src/engine.ts:97-134 | one generation later node 0 has recovered, node 1 is Sick, and the counts are 1 Recovered, 0 Healthy, 1 Sick |
| `Engine.RunGeneration` | src/engine.ts:91-149 | paused: same state returned, nothing touched; otherwise nodes become `StepNodes` of the old nodes in place, the shared history gets the record of the incoming generation index with the new counts, and the returned state is the incoming one with generation + 1 and `paused` exactly when no node is Sick; links stay in range |
| `Engine.DefaultState` | src/engine.ts:152-160 | the default previous state: rate 0.02, length 14, generation 0, unpaused, no nodes, empty history |
| `Engine.CreateInitialState` | src/engine.ts:152-170 | rate, length and generation index carried over, unpaused, fresh empty history, fresh population `Built` with the carried-over length |

## Left out

- The kd-tree (`static-kdtree`). Its `knn` answers are an input. The model does not check that they are nearest neighbours, or that there are at most 10 of them.
- The distribution of `Math.random()`. Draws are oracle inputs. The source uses one generator for all call sites; the model gives each site its own oracle, so it does not fix how the jitter, pick and spread draws interleave.
- Floating point. Coordinates, rate and countdown are exact reals. IEEE rounding of the repeated `-= 0.2` is not modelled. For integer lengths 10 to 21 the double countdown stays just above the exact value and the node recovers after the same number of decays as `Decaying.RecoveryTime` states (66 at length 14). For lengths 7, 8 and 9 the double lands just under 1.0 after 5(L − 1) decays (0.999999999999996 after 30 decays at length 7), so the program recovers the node one generation earlier than `Decaying.RecoveryTime` and `Engine.SicknessRunsItsCourse` state, which keep it Sick at exactly 1.0. `Math.floor(Math.sqrt(n))` is modelled as the integer square root.
- The constants file is not part of this model. `NODES`, `BOX_SIZE` and `HISTORY` are parameters.
- The empty `nodes: []` that `createInitialState` sets just before replacing it: no effect.
- The UI glue in src/App.tsx and src/components/ (animation-frame ticking, the pause toggle, slider updates of rate and length, rendering). None of it is in the engine.
- `Engine.StepsNodes`: only states size and link range; the per-node behaviour over many steps is stated by `Engine.SicknessRunsItsCourse`.
