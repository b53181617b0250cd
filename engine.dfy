/** The simulation state and its two entry points, the generation step and
    the (re)start (src/engine.ts:31-38, 90-170). */
module Engine {
  import opened Nodes
  import opened Census
  import opened Generations
  import opened Decaying
  import opened Spreading
  import opened GraphBuilder

  /** The simulation state. `nodes` and `generations` are shared references:
      a step mutates them in place and hands them on to the state it returns. */
  datatype State = State(
    paused: bool,
    nodes: array<Node>,
    infectionRate: real,
    infectionLength: real,
    generations: History,
    generation: int)

  /** Node `j` is a link target of a node that is Sick once decay is done. */
  ghost predicate ExposedAfterDecay(ns: seq<Node>, j: nat)
  {
    var d := DecayAll(ns);
    Exposed(d, SickIndices(d), j)
  }

  /** The nodes after one unpaused generation: the decay pass over every node,
      then the spread pass from the nodes Sick after decay, with the spread
      pass reading the rate, the infection length and the draws. */
  function StepNodes(ns: seq<Node>, rate: real, len: real, draw: nat -> real): (r: seq<Node>)
    requires LinksInRange(ns)
    ensures |r| == |ns| && LinksInRange(r)
    ensures forall j :: 0 <= j < |ns| ==>
      r[j].id == ns[j].id && r[j].x == ns[j].x && r[j].y == ns[j].y && r[j].links == ns[j].links
  {
    DecayKeepsLinks(ns);
    var d := DecayAll(ns);
    SpreadAll(d, SickIndices(d), rate, len, draw, 0).0
  }

  /** A node that is not Healthy only runs its own course: it decays exactly
      as `Decay` says whatever its neighbours and the draws are. In particular
      Recovered is absorbing. */
  lemma StepNotHealthy(ns: seq<Node>, rate: real, len: real, draw: nat -> real, j: nat)
    requires LinksInRange(ns) && j < |ns| && ns[j].status != Healthy
    ensures StepNodes(ns, rate, len, draw)[j] == Decay(ns[j])
    ensures ns[j].status == Recovered ==> StepNodes(ns, rate, len, draw)[j].status == Recovered
  {
    DecayKeepsLinks(ns);
    var d := DecayAll(ns);
    assert Evolves(d[j], SpreadAll(d, SickIndices(d), rate, len, draw, 0).0[j], len);
  }

  /** A Healthy node stays Healthy with its countdown, or falls Sick with the
      full infection length, and the latter only when a node Sick after the
      decay pass links to it. */
  lemma StepHealthy(ns: seq<Node>, rate: real, len: real, draw: nat -> real, j: nat)
    requires LinksInRange(ns) && j < |ns| && ns[j].status == Healthy
    ensures var r := StepNodes(ns, rate, len, draw)[j];
      || (r.status == Healthy && r.sickness == ns[j].sickness)
      || (r.status == Sick && r.sickness == len && ExposedAfterDecay(ns, j))
  {
    DecayKeepsLinks(ns);
    var d := DecayAll(ns);
    var sick := SickIndices(d);
    SpreadOnlyExposed(d, sick, rate, len, draw, 0);
    assert Evolves(d[j], SpreadAll(d, sick, rate, len, draw, 0).0[j], len);
  }

  /** When every draw fails (a rate of 0, say) nobody falls Sick: every node
      ends as the decay pass left it, except that the Healthy nodes linked
      from a node Sick after decay are marked as attacked. */
  lemma StepWhenEveryDrawFails(ns: seq<Node>, rate: real, len: real, draw: nat -> real)
    requires LinksInRange(ns)
    requires forall i: nat :: draw(i) >= rate
    ensures forall j :: 0 <= j < |ns| ==>
      StepNodes(ns, rate, len, draw)[j]
        == Decay(ns[j]).(isBeingAttacked := ns[j].status == Healthy && ExposedAfterDecay(ns, j))
    ensures forall j :: 0 <= j < |ns| && ns[j].status == Healthy ==>
      StepNodes(ns, rate, len, draw)[j].status == Healthy
  {
    DecayKeepsLinks(ns);
    var d := DecayAll(ns);
    SpreadResisted(d, SickIndices(d), rate, len, draw, 0);
  }

  /** When every draw succeeds (a rate above every draw, 1 say) every Healthy
      node linked from a node Sick after decay is Sick after the step. */
  lemma StepWhenEveryDrawSucceeds(ns: seq<Node>, rate: real, len: real, draw: nat -> real)
    requires LinksInRange(ns)
    requires forall i: nat :: draw(i) < rate
    ensures forall j :: 0 <= j < |ns| && ns[j].status == Healthy && ExposedAfterDecay(ns, j) ==>
      StepNodes(ns, rate, len, draw)[j].status == Sick
  {
    DecayKeepsLinks(ns);
    var d := DecayAll(ns);
    SpreadInfects(d, SickIndices(d), rate, len, draw, 0);
  }

  /** The nodes after one unpaused generation per entry of `draws`. */
  function StepsNodes(ns: seq<Node>, rate: real, len: real, draws: seq<nat -> real>): (r: seq<Node>)
    requires LinksInRange(ns)
    ensures |r| == |ns| && LinksInRange(r)
    decreases |draws|
  {
    if draws == [] then ns
    else StepNodes(StepsNodes(ns, rate, len, draws[..|draws| - 1]), rate, len, draws[|draws| - 1])
  }

  /** A Sick node with countdown `c >= 1` is, after `k` generations and
      whatever happens around it, still Sick exactly when `c - 0.2 * k >= 1`
      (with that countdown), and Recovered otherwise. */
  lemma SicknessRunsItsCourse(ns: seq<Node>, rate: real, len: real, draws: seq<nat -> real>, j: nat)
    requires LinksInRange(ns) && j < |ns|
    requires ns[j].status == Sick && ns[j].sickness >= 1.0
    ensures var k := |draws| as real;
      var r := StepsNodes(ns, rate, len, draws)[j];
      && r.status == (if ns[j].sickness - DecayStep * k >= 1.0 then Sick else Recovered)
      && (r.status == Sick ==> r.sickness == ns[j].sickness - DecayStep * k)
  {
    SicknessFollowsDecay(ns, rate, len, draws, j);
    RecoveryTime(ns[j], |draws|);
  }

  /** Status and countdown of a node that is not Healthy follow `DecayTimes`. */
  lemma {:induction false} SicknessFollowsDecay(ns: seq<Node>, rate: real, len: real, draws: seq<nat -> real>, j: nat)
    requires LinksInRange(ns) && j < |ns| && ns[j].status != Healthy
    ensures StepsNodes(ns, rate, len, draws)[j].status == DecayTimes(ns[j], |draws|).status
    ensures StepsNodes(ns, rate, len, draws)[j].sickness == DecayTimes(ns[j], |draws|).sickness
    decreases |draws|
  {
    if draws != [] {
      var n := |draws| - 1;
      var prev := StepsNodes(ns, rate, len, draws[..n]);
      SicknessFollowsDecay(ns, rate, len, draws[..n], j);
      assert prev[j].status != Healthy;
      StepNotHealthy(prev, rate, len, draws[n], j);
      assert StepsNodes(ns, rate, len, draws) == StepNodes(prev, rate, len, draws[n]);
      DecayOnCountdown(prev[j], DecayTimes(ns[j], n));
    }
  }

  /** Decay looks only at a node's status and countdown. */
  lemma DecayOnCountdown(a: Node, b: Node)
    requires a.status == b.status && a.sickness == b.sickness
    ensures Decay(a).status == Decay(b).status && Decay(a).sickness == Decay(b).sickness
  {
  }

  /** The scenario below: two nodes linking each other, node 0 Sick with
      countdown 1.2, node 1 Healthy. */
  const ScenarioStart: seq<Node> :=
    [Node(0, 0.0, 0.0, Sick, 1.2, [1], false), Node(1, 0.0, 0.0, Healthy, 14.0, [0], false)]

  /** A draw that always falls below a rate of 1. */
  function ZeroDraw(i: nat): real { 0.0 }

  /** In the scenario node 1 is exposed: node 0 is still Sick after decay
      and links to it. */
  lemma ScenarioExposure()
    ensures LinksInRange(ScenarioStart) && ExposedAfterDecay(ScenarioStart, 1)
  {
    var ns := ScenarioStart;
    assert ns[0].links == [1] && ns[1].links == [0];
    var d := DecayAll(ns);
    assert d[0].status == Sick;
    var sick := SickIndices(d);
    assert 0 in sick;
    var p :| 0 <= p < |sick| && sick[p] == 0;
    assert 1 in d[sick[p]].links;
  }

  /** First generation of the scenario with rate 1 and length 14: node 0
      decays to 1.0 and stays Sick, node 1 falls Sick with countdown 14. */
  lemma ScenarioFirstGeneration()
    ensures LinksInRange(ScenarioStart)
    ensures var once := StepNodes(ScenarioStart, 1.0, 14.0, ZeroDraw);
      && once[0].status == Sick && once[0].sickness == 1.0
      && once[1].status == Sick && once[1].sickness == 14.0
  {
    ScenarioExposure();
    StepNotHealthy(ScenarioStart, 1.0, 14.0, ZeroDraw, 0);
    StepWhenEveryDrawSucceeds(ScenarioStart, 1.0, 14.0, ZeroDraw);
    StepHealthy(ScenarioStart, 1.0, 14.0, ZeroDraw, 1);
  }

  /** Two Sick nodes with countdown 5 both link to Healthy node 2. */
  const MarkScenarioStart: seq<Node> :=
    [Node(0, 0.0, 0.0, Sick, 5.0, [2], false), Node(1, 0.0, 0.0, Sick, 5.0, [2], false),
     Node(2, 0.0, 0.0, Healthy, 14.0, [], false)]

  /** The first draw fails against a rate of 0.3, the later ones succeed. */
  function MarkDraw(i: nat): real { if i == 0 then 0.5 else 0.0 }

  /** The attack mark survives a later infection in the same pass: node 0's
      attack on node 2 fails and marks it, then node 1's attack infects it,
      and node 2 ends the generation both Sick and marked. */
  lemma MarkedWhileSick()
    ensures LinksInRange(MarkScenarioStart)
    ensures var once := StepNodes(MarkScenarioStart, 0.3, 14.0, MarkDraw);
      once[2].status == Sick && once[2].sickness == 14.0 && once[2].isBeingAttacked
  {
    MarkScenarioDecay();
    MarkSpread(DecayAll(MarkScenarioStart));
  }

  /** After decay in the mark scenario nodes 0 and 1 are the spreading nodes,
      each linking only to node 2, which is Healthy and unmarked. */
  lemma MarkScenarioDecay()
    ensures LinksInRange(MarkScenarioStart)
    ensures var d := DecayAll(MarkScenarioStart);
      && LinksInRange(d) && |d| == 3 && SickIndices(d) == [0, 1]
      && d[0].links == [2] && d[1].links == [2]
      && d[2].status == Healthy && !d[2].isBeingAttacked
  {
    MarkScenarioLinks();
    DecayKeepsLinks(MarkScenarioStart);
    var d := DecayAll(MarkScenarioStart);
    assert d[0] == Decay(MarkScenarioStart[0]) && d[1] == Decay(MarkScenarioStart[1]);
    SickIndicesOfThree(d);
  }

  /** The mark scenario's links are in range. */
  lemma MarkScenarioLinks()
    ensures LinksInRange(MarkScenarioStart)
  {
    var ns := MarkScenarioStart;
    assert ns[0].links == [2] && ns[1].links == [2] && ns[2].links == [];
  }

  /** Of three nodes, the first two Sick and the third not, the spreading
      list is [0, 1]. */
  lemma SickIndicesOfThree(d: seq<Node>)
    requires |d| == 3 && d[0].status == Sick && d[1].status == Sick && d[2].status != Sick
    ensures SickIndices(d) == [0, 1]
  {
    assert d[..2][..1] == d[..1] && d[..1][..0] == [];
    assert SickIndices(d[..1]) == [0];
    assert SickIndices(d[..2]) == [0, 1];
  }

  /** Two spreading nodes attacking the same Healthy node 2, the first draw
      failing against rate 0.3 and the second succeeding, leave node 2 Sick
      and marked. */
  lemma MarkSpread(d: seq<Node>)
    requires LinksInRange(d) && |d| == 3
    requires d[0].links == [2] && d[1].links == [2]
    requires d[2].status == Healthy
    ensures var r := SpreadAll(d, [0, 1], 0.3, 14.0, MarkDraw, 0).0;
      r[2].status == Sick && r[2].sickness == 14.0 && r[2].isBeingAttacked
  {
    var first := SpreadAll(d, [0], 0.3, 14.0, MarkDraw, 0);
    assert [0, 1][..1] == [0] && [0][..0] == [] && [2][..0] == [];
    assert first == Attack(d, 2, 0.3, 14.0, MarkDraw, 0);
    assert first.0[2].status == Healthy && first.0[2].isBeingAttacked && first.1 == 1;
    assert SpreadAll(d, [0, 1], 0.3, 14.0, MarkDraw, 0) == Attack(first.0, 2, 0.3, 14.0, MarkDraw, 1);
  }

  /** Second generation of the scenario: node 0 decays to 0.8 and recovers,
      node 1 stays Sick, and node 1's attack on the now Recovered node 0 does
      nothing. The counts are one Recovered, no Healthy, one Sick. */
  lemma ScenarioSecondGeneration()
    ensures LinksInRange(ScenarioStart)
    ensures var twice := StepNodes(StepNodes(ScenarioStart, 1.0, 14.0, ZeroDraw), 1.0, 14.0, ZeroDraw);
      && twice[0].status == Recovered && twice[1].status == Sick
      && CountOf(twice) == Counts(1, 0, 1)
  {
    ScenarioFirstGeneration();
    var once := StepNodes(ScenarioStart, 1.0, 14.0, ZeroDraw);
    var twice := StepNodes(once, 1.0, 14.0, ZeroDraw);
    StepNotHealthy(once, 1.0, 14.0, ZeroDraw, 0);
    StepNotHealthy(once, 1.0, 14.0, ZeroDraw, 1);
    assert twice[0].status == Recovered && twice[1].status == Sick;
    CountPair(twice);
  }

  /** The counts of a two-node population. */
  lemma CountPair(ns: seq<Node>)
    requires |ns| == 2
    ensures forall st :: Count(ns, st) == (if ns[0].status == st then 1 else 0) + (if ns[1].status == st then 1 else 0)
  {
    assert ns[..1][..0] == [];
  }

  /** `runGeneration`. A paused state comes back as it is, and nothing is
      touched. Otherwise the nodes go through the decay and spread passes in
      place, the counts are recorded in the shared history under the incoming
      generation index, and the returned state is the incoming one with the
      generation index advanced and `paused` set exactly when no node is Sick
      (so that a further step is a no-op). */
  method RunGeneration(s: State, historyCap: nat, draw: nat -> real) returns (r: State)
    requires LinksInRange(s.nodes[..])
    modifies s.nodes, s.generations
    ensures s.paused ==> r == s && unchanged(s.nodes) && unchanged(s.generations)
    ensures !s.paused ==>
      && s.nodes[..] == StepNodes(old(s.nodes[..]), s.infectionRate, s.infectionLength, draw)
      && s.generations.records
           == Appended(old(s.generations.records), Generation(s.generation, CountOf(s.nodes[..])), historyCap)
      && r == s.(generation := s.generation + 1, paused := CountOf(s.nodes[..]).sick == 0)
    ensures !s.paused ==>
      (r.paused <==> forall j :: 0 <= j < s.nodes.Length ==> s.nodes[j].status != Sick)
    ensures r.nodes == s.nodes && r.generations == s.generations
    ensures LinksInRange(r.nodes[..])
  {
    if s.paused {
      return s;
    }
    DecayPass(s.nodes);
    DecayKeepsLinks(old(s.nodes[..]));
    SpreadPass(s.nodes, s.infectionRate, s.infectionLength, draw);
    var counts := CountStatuses(s.nodes);
    s.generations.Push(Generation(s.generation, counts), historyCap);
    r := s.(generation := s.generation + 1, paused := counts.sick == 0);
  }

  /** The default state the source starts from when no previous state is
      given: rate 0.02, length 14, generation 0, not paused, no nodes and an
      empty history. */
  method DefaultState() returns (s: State)
    ensures fresh(s.nodes) && fresh(s.generations)
    ensures s.nodes.Length == 0 && s.generations.records == []
    ensures s.infectionRate == 0.02 && s.infectionLength == 14.0
    ensures s.generation == 0 && !s.paused
  {
    var nodes := new Node[0];
    var history := new History();
    s := State(false, nodes, 0.02, 14.0, history, 0);
  }

  /** `createInitialState`: the previous state's rate, length and generation
      index are carried over (the index is not reset), the state is unpaused,
      gets a fresh empty history and a freshly built population. */
  method CreateInitialState(prev: State, nodeCount: nat, boxSize: real,
                            jitter: nat -> real, pick: nat -> real, knn: seq<seq<nat>>)
    returns (r: State, ghost slots: seq<nat>)
    requires forall k: nat :: 0.0 <= pick(k) < 1.0
    requires |knn| == nodeCount
    requires forall i, p :: 0 <= i < |knn| && 0 <= p < |knn[i]| ==> knn[i][p] < nodeCount
    ensures r.infectionRate == prev.infectionRate && r.infectionLength == prev.infectionLength
    ensures r.generation == prev.generation && !r.paused
    ensures fresh(r.generations) && r.generations.records == []
    ensures fresh(r.nodes)
    ensures Built(r.nodes[..], slots, nodeCount, boxSize, jitter, pick, prev.infectionLength, knn)
    ensures LinksInRange(r.nodes[..])
  {
    var history := new History();
    var nodes;
    nodes, slots := GenerateNodes(nodeCount, boxSize, prev.infectionLength, jitter, pick, knn);
    r := prev.(paused := false, generations := history, nodes := nodes);
  }
}
