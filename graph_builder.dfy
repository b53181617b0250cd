/** Construction of the initial population and its contact graph
    (src/engine.ts:40-88). The `Math.random()` calls of the position jitter
    and of the position draw come from the oracles `jitter` and `pick`, the
    k-th call at each site reading entry k; the kd-tree's `knn` answers come
    from the oracle `knn`, one list of node indices per node. */
module GraphBuilder {
  import opened Nodes
  import opened Census

  /** A candidate position of the lattice. */
  datatype Position = Position(x: real, y: real)

  /** Margin of lattice lines added to the square root of the population. */
  const GridMargin: nat := 5
  /** Distance of the lattice from the border of the box. */
  const Offset: real := 5.0
  /** Each link list is cut to the first `MaxLinks` nearest-neighbour answers. */
  const MaxLinks: nat := 4

  /** Integer square root: `Math.floor(Math.sqrt(n))` for a whole `n`. */
  function ISqrt(n: nat): (r: nat)
    ensures r * r <= n < (r + 1) * (r + 1)
  {
    if n == 0 then 0
    else
      var s := ISqrt(n - 1);
      if (s + 1) * (s + 1) <= n then s + 1 else s
  }

  /** Lattice lines per side; the lattice has more cells than there are nodes,
      so the position pool never runs dry. */
  function GridLines(nodeCount: nat): (lines: nat)
    ensures lines >= GridMargin
    ensures lines * lines > nodeCount
  {
    var r := ISqrt(nodeCount);
    assert (r + GridMargin) * (r + GridMargin) >= (r + 1) * (r + 1);
    r + GridMargin
  }

  /** Spacing of the lattice in a box of side `boxSize`. */
  function Separation(boxSize: real, lines: nat): (sep: real)
    requires lines > 0
    ensures sep * lines as real == boxSize - 10.0
  {
    (boxSize - 10.0) / lines as real
  }

  /** Pool entry `p`: lattice point (p / lines, p % lines), each coordinate
      shifted by twice a draw (entries 2p and 2p+1 of `jitter`). */
  function GridPosition(p: nat, lines: nat, sep: real, jitter: nat -> real): Position
    requires lines > 0
  {
    Position(
      Offset + (p / lines) as real * sep + jitter(2 * p) * 2.0,
      Offset + (p % lines) as real * sep + jitter(2 * p + 1) * 2.0)
  }

  /** In a box of side at least 10, with draws in [0, 1), every pool entry
      lies at least `Offset` from the low edges and more than 3 short of the
      high edges. */
  lemma PoolInBox(p: nat, lines: nat, boxSize: real, jitter: nat -> real)
    requires lines > 0 && p < lines * lines && boxSize >= 10.0
    requires 0.0 <= jitter(2 * p) < 1.0 && 0.0 <= jitter(2 * p + 1) < 1.0
    ensures var pos := GridPosition(p, lines, Separation(boxSize, lines), jitter);
      && Offset <= pos.x < boxSize - 3.0
      && Offset <= pos.y < boxSize - 3.0
  {
    var sep := Separation(boxSize, lines);
    RowBelow(p, lines);
    LatticeCoordinate(p / lines, lines, sep, boxSize, jitter(2 * p));
    LatticeCoordinate(p % lines, lines, sep, boxSize, jitter(2 * p + 1));
  }

  /** A pool index below `lines * lines` lies in one of the `lines` rows. */
  lemma RowBelow(p: nat, lines: nat)
    requires lines > 0 && p < lines * lines
    ensures p / lines < lines
  {
  }

  /** One coordinate of a pool entry: lattice line `g < lines` scaled by the
      spacing, plus the offset and twice a draw in [0, 1), stays in
      [Offset, boxSize - 3). */
  lemma LatticeCoordinate(g: nat, lines: nat, sep: real, boxSize: real, j: real)
    requires g < lines && sep * lines as real == boxSize - 10.0 && boxSize >= 10.0
    requires 0.0 <= j < 1.0
    ensures Offset <= Offset + g as real * sep + j * 2.0 < boxSize - 3.0
  {
    assert sep >= 0.0;
    var below := g as real * sep;
    var above := (lines - g) as real * sep;
    assert above >= sep by {
      assert (lines - g) as real >= 1.0;
      assert ((lines - g) as real - 1.0) * sep >= 0.0;
    }
    assert below + above == lines as real * sep;
    assert 0.0 <= below <= boxSize - 10.0 - sep;
    assert 0.0 <= j * 2.0 < 2.0;
  }

  /** Index arithmetic of the row-major lattice. */
  lemma GridIndex(gx: nat, gy: nat, lines: nat)
    requires gy < lines
    ensures (gx * lines + gy) / lines == gx && (gx * lines + gy) % lines == gy
  {
    var n := gx * lines + gy;
    var q, r := n / lines, n % lines;
    assert (q - gx) * lines == gy - r;
    var d := q - gx;
    assert d >= 1 ==> d * lines >= lines;
    assert d <= -1 ==> d * lines <= -(lines as int);
  }

  /** The nested loops that fill the position pool, row by row. */
  method BuildPositions(lines: nat, sep: real, jitter: nat -> real) returns (pool: seq<Position>)
    requires lines > 0
    ensures |pool| == lines * lines
    ensures forall p :: 0 <= p < |pool| ==> pool[p] == GridPosition(p, lines, sep, jitter)
  {
    pool := [];
    var k := 0;
    for gx := 0 to lines
      invariant |pool| == gx * lines && k == 2 * |pool|
      invariant forall p :: 0 <= p < |pool| ==> pool[p] == GridPosition(p, lines, sep, jitter)
    {
      for gy := 0 to lines
        invariant |pool| == gx * lines + gy && k == 2 * |pool|
        invariant forall p :: 0 <= p < |pool| ==> pool[p] == GridPosition(p, lines, sep, jitter)
      {
        GridIndex(gx, gy, lines);
        var x := Offset + gx as real * sep + jitter(k) * 2.0;
        var y := Offset + gy as real * sep + jitter(k + 1) * 2.0;
        k := k + 2;
        pool := pool + [Position(x, y)];
      }
    }
  }

  /** No value occurs twice. */
  predicate Distinct(s: seq<nat>)
  {
    forall p, q :: 0 <= p < q < |s| ==> s[p] != s[q]
  }

  /** `s` without the entry at `i`: `splice(i, 1)`. */
  function RemoveAt<T>(s: seq<T>, i: nat): (r: seq<T>)
    requires i < |s|
    ensures |r| == |s| - 1
    ensures forall q :: 0 <= q < |r| ==> r[q] == s[if q < i then q else q + 1]
  {
    s[..i] + s[i + 1..]
  }

  /** The entries of `s` other than `self`, in order: the `filter` that drops
      the querying node from its own answers. */
  function Others(s: seq<nat>, self: nat): (r: seq<nat>)
    ensures |r| <= |s|
    ensures forall p :: 0 <= p < |r| ==> r[p] != self
  {
    if s == [] then []
    else Others(s[..|s| - 1], self) + (if s[|s| - 1] != self then [s[|s| - 1]] else [])
  }

  /** Filtering one more answer appends it exactly when it is not `self`. */
  lemma OthersStep(s: seq<nat>, q: nat, self: nat)
    requires q < |s|
    ensures Others(s[..q + 1], self) == Others(s[..q], self) + (if s[q] != self then [s[q]] else [])
  {
    assert s[..q + 1][..q] == s[..q];
  }

  lemma {:induction false} OthersMembers(s: seq<nat>, self: nat)
    ensures forall j :: j in Others(s, self) <==> j in s && j != self
  {
    if s != [] {
      OthersMembers(s[..|s| - 1], self);
      assert s == s[..|s| - 1] + [s[|s| - 1]];
    }
  }

  /** The links of node `self` given its nearest-neighbour answers `knn`:
      the first four answers, then without `self`. The cut comes before the
      filter, so a node whose own index is among its first four answers gets
      only three links. */
  function ChosenLinks(self: nat, knn: seq<nat>): (r: seq<nat>)
    ensures |r| <= MaxLinks
    ensures self !in r
  {
    Others(knn[..if |knn| < MaxLinks then |knn| else MaxLinks], self)
  }

  /** Each link is one of the first four answers, and every first-four
      answer other than the node itself is a link. */
  lemma ChosenLinksShape(self: nat, knn: seq<nat>)
    ensures forall j :: j in ChosenLinks(self, knn) <==>
      j in knn[..if |knn| < MaxLinks then |knn| else MaxLinks] && j != self
  {
    OthersMembers(knn[..if |knn| < MaxLinks then |knn| else MaxLinks], self);
  }

  /** Links are chosen among the answers, so answers below `n` give links
      below `n`. */
  lemma ChosenLinksBelow(self: nat, knn: seq<nat>, n: nat)
    requires forall p :: 0 <= p < |knn| ==> knn[p] < n
    ensures forall p :: 0 <= p < |ChosenLinks(self, knn)| ==> ChosenLinks(self, knn)[p] < n
  {
    var top := knn[..if |knn| < MaxLinks then |knn| else MaxLinks];
    OthersMembers(top, self);
    forall p | 0 <= p < |ChosenLinks(self, knn)|
      ensures ChosenLinks(self, knn)[p] < n
    {
      assert ChosenLinks(self, knn)[p] in top;
    }
  }

  /** A freshly placed node before linking: node 0 Sick, every other node
      Healthy, all with a full countdown and no links. */
  function Seed(i: nat, pos: Position, infectionLength: real): (n: Node)
    ensures n.id == i && n.x == pos.x && n.y == pos.y
    ensures n.status == Sick <==> i == 0
    ensures n.status == Healthy <==> i != 0
    ensures n.sickness == infectionLength && n.links == [] && !n.isBeingAttacked
  {
    Node(i, pos.x, pos.y, if i == 0 then Sick else Healthy, infectionLength, [], false)
  }

  /** A population seeded with node 0 alone Sick and the rest Healthy counts
      one Sick node, `|ns| - 1` Healthy ones and no Recovered one. */
  lemma {:induction false} SeededCounts(ns: seq<Node>)
    requires |ns| > 0
    requires forall i :: 0 <= i < |ns| ==> (ns[i].status == Sick <==> i == 0)
    requires forall i :: 0 <= i < |ns| ==> (ns[i].status == Healthy <==> i != 0)
    ensures CountOf(ns) == Counts(0, |ns| - 1, 1)
  {
    if |ns| > 1 {
      var pre := ns[..|ns| - 1];
      SeededCounts(pre);
      assert CountOf(pre) == Counts(Count(pre, Recovered), Count(pre, Healthy), Count(pre, Sick));
    }
  }

  /** What the builder produces: node `i` has id `i`, sits at pool entry
      `slots[i]`, the index the `i`-th `pick` draw splices out (so no entry
      is used twice), is seeded as `Seed` says and carries the links
      `ChosenLinks` picks from its nearest-neighbour answers. */
  ghost predicate Built(nodes: seq<Node>, slots: seq<nat>, nodeCount: nat, boxSize: real,
                        jitter: nat -> real, pick: nat -> real, infectionLength: real, knn: seq<seq<nat>>)
    requires forall k: nat :: 0.0 <= pick(k) < 1.0
  {
    var lines := GridLines(nodeCount);
    && |nodes| == nodeCount && |slots| == nodeCount && |knn| == nodeCount
    && slots == DrawnSlots(pick, Indices(lines * lines), 0, nodeCount)
    && Distinct(slots)
    && (forall i :: 0 <= i < nodeCount ==> slots[i] < lines * lines)
    && (forall i :: 0 <= i < nodeCount ==>
          nodes[i] == Seed(i, GridPosition(slots[i], lines, Separation(boxSize, lines), jitter), infectionLength)
                        .(links := ChosenLinks(i, knn[i])))
  }

  /** Every built population has links in range, at most four per node and
      none to the node itself, node 0 alone Sick with the rest Healthy, full
      countdowns and no marks, so its census is 1 Sick and the rest Healthy. */
  lemma BuiltFacts(nodes: seq<Node>, slots: seq<nat>, nodeCount: nat, boxSize: real,
                   jitter: nat -> real, pick: nat -> real, infectionLength: real, knn: seq<seq<nat>>)
    requires forall k: nat :: 0.0 <= pick(k) < 1.0
    requires Built(nodes, slots, nodeCount, boxSize, jitter, pick, infectionLength, knn)
    requires forall i, p :: 0 <= i < |knn| && 0 <= p < |knn[i]| ==> knn[i][p] < nodeCount
    ensures LinksInRange(nodes)
    ensures forall i :: 0 <= i < |nodes| ==>
      && nodes[i].id == i
      && (nodes[i].status == Sick <==> i == 0)
      && (nodes[i].status == Healthy <==> i != 0)
      && nodes[i].sickness == infectionLength
      && !nodes[i].isBeingAttacked
      && |nodes[i].links| <= MaxLinks
      && i !in nodes[i].links
    ensures nodeCount > 0 ==> CountOf(nodes) == Counts(0, nodeCount - 1, 1)
  {
    forall i | 0 <= i < nodeCount
      ensures forall p :: 0 <= p < |nodes[i].links| ==> nodes[i].links[p] < nodeCount
    {
      ChosenLinksBelow(i, knn[i], nodeCount);
    }
    if nodeCount > 0 {
      SeededCounts(nodes);
    }
  }

  /** The pool indices already taken and those still in the pool: no index
      occurs twice in either, nor in both. */
  predicate Apart(taken: seq<nat>, rest: seq<nat>)
  {
    && Distinct(taken) && Distinct(rest)
    && forall c, q :: 0 <= c < |taken| && 0 <= q < |rest| ==> taken[c] != rest[q]
  }

  /** Moving one index from the pool to the taken ones keeps them apart. */
  lemma TakeSlot(taken: seq<nat>, rest: seq<nat>, idx: nat)
    requires Apart(taken, rest) && idx < |rest|
    ensures Apart(taken + [rest[idx]], RemoveAt(rest, idx))
  {
  }

  /** The pool indices `0 .. n - 1`, in order. */
  function Indices(n: nat): (r: seq<nat>)
    ensures |r| == n && forall q :: 0 <= q < n ==> r[q] == q
  {
    seq(n, q requires 0 <= q < n => q)
  }

  /** The pool indices that draws `pick(i) .. pick(n - 1)` select from the
      indices `rest` still in the pool: each draw splices out the entry at
      `floor(pick(i) * |rest|)`. */
  function DrawnSlots(pick: nat -> real, rest: seq<nat>, i: nat, n: nat): (r: seq<nat>)
    requires forall k: nat :: 0.0 <= pick(k) < 1.0
    requires i <= n && n - i <= |rest|
    ensures |r| == n - i
    decreases n - i
  {
    if i == n then []
    else
      var idx := DrawIndex(pick(i), |rest|);
      [rest[idx]] + DrawnSlots(pick, RemoveAt(rest, idx), i + 1, n)
  }

  /** The `map` over a fresh array of `nodeCount` entries: node `i` takes a
      position drawn without replacement from the pool (`splice` at the index
      `floor(pick(i) * remaining)`) and is seeded. `slots[i]` is the pool index
      node `i` received. */
  method PlaceNodes(nodeCount: nat, pool: seq<Position>, pick: nat -> real, infectionLength: real)
    returns (nodes: array<Node>, ghost slots: seq<nat>)
    requires forall k: nat :: 0.0 <= pick(k) < 1.0
    requires nodeCount < |pool|
    ensures fresh(nodes) && nodes.Length == nodeCount
    ensures |slots| == nodeCount && Distinct(slots)
    ensures forall c :: 0 <= c < nodeCount ==>
      slots[c] < |pool| && nodes[c] == Seed(c, pool[slots[c]], infectionLength)
    ensures slots == DrawnSlots(pick, Indices(|pool|), 0, nodeCount)
  {
    var remaining := pool;
    ghost var rest: seq<nat> := Indices(|pool|);
    ghost var drawn := DrawnSlots(pick, rest, 0, nodeCount);
    slots := [];
    nodes := new Node[nodeCount];
    for i := 0 to nodeCount
      invariant Pending(pool, remaining, slots, rest, pick, i, nodeCount, drawn)
      invariant forall c :: 0 <= c < i ==> nodes[c] == Seed(c, pool[slots[c]], infectionLength)
    {
      var idx := DrawIndex(pick(i), |remaining|);
      var pos := remaining[idx];
      TakeNext(pool, remaining, slots, rest, pick, i, nodeCount, drawn);
      remaining := RemoveAt(remaining, idx);
      slots := slots + [rest[idx]];
      rest := RemoveAt(rest, idx);
      nodes[i] := Seed(i, pos, infectionLength);
    }
    assert DrawnSlots(pick, rest, nodeCount, nodeCount) == [];
  }

  /** The bookkeeping of the placing loop after `i` draws: `remaining` holds
      the pool entries at the indices `rest`, `slots` the indices taken so
      far, and the draws still to come complete `slots` to `drawn`. */
  ghost predicate Pending(pool: seq<Position>, remaining: seq<Position>, slots: seq<nat>, rest: seq<nat>,
                          pick: nat -> real, i: nat, n: nat, drawn: seq<nat>)
  {
    && i <= n < |pool|
    && |remaining| == |rest| == |pool| - i
    && (forall q :: 0 <= q < |rest| ==> rest[q] < |pool| && remaining[q] == pool[rest[q]])
    && |slots| == i && (forall c :: 0 <= c < i ==> slots[c] < |pool|)
    && Apart(slots, rest)
    && (forall k: nat :: 0.0 <= pick(k) < 1.0)
    && slots + DrawnSlots(pick, rest, i, n) == drawn
  }

  /** One draw keeps the bookkeeping: the drawn entry is the pool entry at
      the index moved from `rest` to `slots`. */
  lemma TakeNext(pool: seq<Position>, remaining: seq<Position>, slots: seq<nat>, rest: seq<nat>,
                 pick: nat -> real, i: nat, n: nat, drawn: seq<nat>)
    requires Pending(pool, remaining, slots, rest, pick, i, n, drawn) && i < n
    ensures var idx := DrawIndex(pick(i), |remaining|);
      && remaining[idx] == pool[rest[idx]]
      && Pending(pool, RemoveAt(remaining, idx), slots + [rest[idx]], RemoveAt(rest, idx), pick, i + 1, n, drawn)
  {
    var idx := DrawIndex(pick(i), |remaining|);
    TakeSlot(slots, rest, idx);
    DrawStep(slots, pick, rest, i, n);
  }

  /** Taking the next drawn index over to the taken ones. */
  lemma DrawStep(taken: seq<nat>, pick: nat -> real, rest: seq<nat>, i: nat, n: nat)
    requires forall k: nat :: 0.0 <= pick(k) < 1.0
    requires i < n && n - i <= |rest|
    ensures var idx := DrawIndex(pick(i), |rest|);
      taken + DrawnSlots(pick, rest, i, n) == (taken + [rest[idx]]) + DrawnSlots(pick, RemoveAt(rest, idx), i + 1, n)
  {
  }

  /** `Math.floor(r * size)` for a draw `r` in [0, 1): an index into a pool of
      `size` entries. */
  function DrawIndex(r: real, size: nat): (idx: nat)
    requires 0.0 <= r < 1.0 && size > 0
    ensures idx < size
    ensures idx as real <= r * size as real < idx as real + 1.0
  {
    var v := r * size as real;
    ScaledDrawBelow(r, size as real);
    FloorBelow(v, size);
    v.Floor
  }

  /** The floor of a value in [0, size) is an index below `size`. */
  lemma FloorBelow(v: real, size: nat)
    requires 0.0 <= v < size as real
    ensures 0 <= v.Floor < size
  {
  }

  /** A draw in [0, 1) scaled by a positive size stays in [0, size). */
  lemma ScaledDrawBelow(r: real, s: real)
    requires 0.0 <= r < 1.0 && s > 0.0
    ensures 0.0 <= r * s < s
  {
    assert s - r * s == (1.0 - r) * s;
  }

  /** The linking loop: each node in turn receives, in order, those of its
      first four nearest-neighbour answers whose id differs from its own. */
  method LinkNodes(nodes: array<Node>, knn: seq<seq<nat>>)
    requires |knn| == nodes.Length
    requires forall i, p :: 0 <= i < |knn| && 0 <= p < |knn[i]| ==> knn[i][p] < nodes.Length
    requires forall c :: 0 <= c < nodes.Length ==> nodes[c].id == c
    modifies nodes
    ensures forall c :: 0 <= c < nodes.Length ==>
      nodes[c] == old(nodes[c]).(links := old(nodes[c].links) + ChosenLinks(c, knn[c]))
  {
    for i := 0 to nodes.Length
      invariant forall c :: 0 <= c < nodes.Length ==>
        nodes[c] == old(nodes[c]).(links := old(nodes[c].links) + if c < i then ChosenLinks(c, knn[c]) else [])
    {
      LinkNode(nodes, i, knn[i]);
    }
  }

  /** One pass of the linking loop: node `i` gets the first four `answers`
      that are not itself; every other node is left alone. */
  method LinkNode(nodes: array<Node>, i: nat, answers: seq<nat>)
    requires i < nodes.Length
    requires forall p :: 0 <= p < |answers| ==> answers[p] < nodes.Length
    requires forall c :: 0 <= c < nodes.Length ==> nodes[c].id == c
    modifies nodes
    ensures nodes[i] == old(nodes[i]).(links := old(nodes[i].links) + ChosenLinks(i, answers))
    ensures forall c :: 0 <= c < nodes.Length && c != i ==> nodes[c] == old(nodes[c])
  {
    var top := answers[..if |answers| < MaxLinks then |answers| else MaxLinks];
    for q := 0 to |top|
      invariant forall c :: 0 <= c < nodes.Length && c != i ==> nodes[c] == old(nodes[c])
      invariant nodes[i] == old(nodes[i]).(links := old(nodes[i].links) + Others(top[..q], i))
    {
      var j := top[q];
      assert j == answers[q] && j < nodes.Length;
      assert nodes[j].id == j && nodes[i].id == i;
      OthersStep(top, q, i);
      if nodes[j].id != nodes[i].id {
        nodes[i] := nodes[i].(links := nodes[i].links + [j]);
      }
    }
    assert top[..|top|] == top;
  }

  /** `generateNodes`: fill the pool, draw one position per node without
      replacement, seed the health states, then link each node to its chosen
      nearest neighbours. */
  method GenerateNodes(nodeCount: nat, boxSize: real, infectionLength: real,
                       jitter: nat -> real, pick: nat -> real, knn: seq<seq<nat>>)
    returns (nodes: array<Node>, ghost slots: seq<nat>)
    requires forall k: nat :: 0.0 <= pick(k) < 1.0
    requires |knn| == nodeCount
    requires forall i, p :: 0 <= i < |knn| && 0 <= p < |knn[i]| ==> knn[i][p] < nodeCount
    ensures fresh(nodes)
    ensures Built(nodes[..], slots, nodeCount, boxSize, jitter, pick, infectionLength, knn)
    ensures LinksInRange(nodes[..])
    ensures forall i :: 0 <= i < nodes.Length ==>
      && nodes[i].id == i
      && (nodes[i].status == Sick <==> i == 0)
      && (nodes[i].status == Healthy <==> i != 0)
      && nodes[i].sickness == infectionLength
      && !nodes[i].isBeingAttacked
      && |nodes[i].links| <= MaxLinks
      && i !in nodes[i].links
    ensures nodeCount > 0 ==> CountOf(nodes[..]) == Counts(0, nodeCount - 1, 1)
  {
    var lines := GridLines(nodeCount);
    var sep := Separation(boxSize, lines);
    var pool := BuildPositions(lines, sep, jitter);
    nodes, slots := PlaceNodes(nodeCount, pool, pick, infectionLength);
    ghost var placed := nodes[..];
    LinkNodes(nodes, knn);
    assert forall c :: 0 <= c < nodeCount ==> nodes[c] == placed[c].(links := ChosenLinks(c, knn[c]));
    BuiltFacts(nodes[..], slots, nodeCount, boxSize, jitter, pick, infectionLength, knn);
  }
}
