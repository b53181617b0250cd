/** The spread pass of a generation (src/engine.ts:107-121). Every call of
    `Math.random()` in the pass is drawn from the oracle `draw`, the k-th call
    reading `draw(k)`. */
module Spreading {
  import opened Nodes

  /** The indices of the Sick nodes, in population order: the `filter` that
      fixes which nodes spread before any of them does. */
  function SickIndices(ns: seq<Node>): (r: seq<nat>)
    ensures forall p :: 0 <= p < |r| ==> r[p] < |ns| && ns[r[p]].status == Sick
    ensures forall i :: 0 <= i < |ns| && ns[i].status == Sick ==> i in r
    ensures forall p, q :: 0 <= p < q < |r| ==> r[p] < r[q]
  {
    if ns == [] then []
    else SickIndices(ns[..|ns| - 1]) + (if ns[|ns| - 1].status == Sick then [|ns| - 1] else [])
  }

  /** How one node may change during the spread pass: only a Healthy node
      changes; it stays Healthy with its countdown (perhaps marked as
      attacked) or falls Sick with a full countdown; a mark once set stays. */
  predicate Evolves(before: Node, after: Node, infectionLength: real)
  {
    && after.id == before.id && after.x == before.x && after.y == before.y
    && after.links == before.links
    && (before.status != Healthy ==> after == before)
    && (before.status == Healthy ==>
          || (after.status == Healthy && after.sickness == before.sickness)
          || (after.status == Sick && after.sickness == infectionLength))
    && (before.isBeingAttacked ==> after.isBeingAttacked)
  }

  /** Node `j` is a link target of one of the spreading nodes `sick`. */
  predicate Exposed(ns: seq<Node>, sick: seq<nat>, j: nat)
  {
    exists p :: 0 <= p < |sick| && sick[p] < |ns| && j in ns[sick[p]].links
  }

  /** One attack on link target `t`: a Healthy target consumes draw `k` and
      falls Sick with a full countdown when the draw is below the rate, and is
      marked as attacked otherwise; any other target is left alone. The
      result pairs the nodes with the index of the next draw. */
  function Attack(ns: seq<Node>, t: nat, rate: real, len: real, draw: nat -> real, k: nat): (r: (seq<Node>, nat))
    requires t < |ns|
    ensures |r.0| == |ns|
    ensures forall j :: 0 <= j < |ns| && j != t ==> r.0[j] == ns[j]
    ensures Evolves(ns[t], r.0[t], len)
    ensures r.1 == if ns[t].status == Healthy then k + 1 else k
    ensures ns[t].status == Healthy ==>
      && (r.0[t].status == Sick <==> draw(k) < rate)
      && (r.0[t].isBeingAttacked <==> ns[t].isBeingAttacked || draw(k) >= rate)
  {
    if ns[t].status == Healthy then
      if draw(k) < rate then (ns[t := ns[t].(status := Sick, sickness := len)], k + 1)
      else (ns[t := ns[t].(isBeingAttacked := true)], k + 1)
    else (ns, k)
  }

  /** Attacks on each of `targets` in order. */
  function AttackAll(ns: seq<Node>, targets: seq<nat>, rate: real, len: real, draw: nat -> real, k: nat): (r: (seq<Node>, nat))
    requires forall i :: 0 <= i < |targets| ==> targets[i] < |ns|
    ensures |r.0| == |ns| && r.1 >= k
    ensures forall j :: 0 <= j < |ns| ==> Evolves(ns[j], r.0[j], len)
    decreases |targets|
  {
    if targets == [] then (ns, k)
    else
      var m := AttackAll(ns, targets[..|targets| - 1], rate, len, draw, k);
      Attack(m.0, targets[|targets| - 1], rate, len, draw, m.1)
  }

  /** The spread pass: each node of `sick` in turn attacks its links. */
  function SpreadAll(ns: seq<Node>, sick: seq<nat>, rate: real, len: real, draw: nat -> real, k: nat): (r: (seq<Node>, nat))
    requires LinksInRange(ns)
    requires forall p :: 0 <= p < |sick| ==> sick[p] < |ns|
    ensures |r.0| == |ns| && r.1 >= k
    ensures forall j :: 0 <= j < |ns| ==> Evolves(ns[j], r.0[j], len)
    decreases |sick|
  {
    if sick == [] then (ns, k)
    else
      var m := SpreadAll(ns, sick[..|sick| - 1], rate, len, draw, k);
      AttackAll(m.0, ns[sick[|sick| - 1]].links, rate, len, draw, m.1)
  }

  /** Exposure to a list of spreading nodes is exposure to all but the last
      of them, or to the last one. */
  lemma ExposedSplit(ns: seq<Node>, sick: seq<nat>, j: nat)
    requires sick != [] && sick[|sick| - 1] < |ns|
    ensures Exposed(ns, sick, j) <==>
      Exposed(ns, sick[..|sick| - 1], j) || j in ns[sick[|sick| - 1]].links
  {
    var n := |sick| - 1;
    var pre := sick[..n];
    if Exposed(ns, pre, j) {
      var p :| 0 <= p < |pre| && pre[p] < |ns| && j in ns[pre[p]].links;
      assert sick[p] == pre[p];
    }
    if Exposed(ns, sick, j) && j !in ns[sick[n]].links {
      var p :| 0 <= p < |sick| && sick[p] < |ns| && j in ns[sick[p]].links;
      assert p < n && pre[p] == sick[p];
    }
  }

  /** An attack reaches only the listed targets. */
  lemma {:induction false} AttackAllOnlyTargets(ns: seq<Node>, targets: seq<nat>, rate: real, len: real, draw: nat -> real, k: nat)
    requires forall i :: 0 <= i < |targets| ==> targets[i] < |ns|
    ensures forall j :: 0 <= j < |ns| && j !in targets ==> AttackAll(ns, targets, rate, len, draw, k).0[j] == ns[j]
    decreases |targets|
  {
    if targets != [] {
      var n := |targets| - 1;
      AttackAllOnlyTargets(ns, targets[..n], rate, len, draw, k);
      assert targets == targets[..n] + [targets[n]];
    }
  }

  /** The spread pass changes only nodes that some spreading node links to:
      infection travels only along the stored (directed) links of the
      spreading nodes. */
  lemma {:induction false} SpreadOnlyExposed(ns: seq<Node>, sick: seq<nat>, rate: real, len: real, draw: nat -> real, k: nat)
    requires LinksInRange(ns)
    requires forall p :: 0 <= p < |sick| ==> sick[p] < |ns|
    ensures forall j :: 0 <= j < |ns| && !Exposed(ns, sick, j) ==> SpreadAll(ns, sick, rate, len, draw, k).0[j] == ns[j]
    decreases |sick|
  {
    if sick != [] {
      var n := |sick| - 1;
      SpreadOnlyExposed(ns, sick[..n], rate, len, draw, k);
      var m := SpreadAll(ns, sick[..n], rate, len, draw, k);
      AttackAllOnlyTargets(m.0, ns[sick[n]].links, rate, len, draw, m.1);
      forall j | 0 <= j < |ns| && !Exposed(ns, sick, j)
        ensures SpreadAll(ns, sick, rate, len, draw, k).0[j] == ns[j]
      {
        ExposedSplit(ns, sick, j);
      }
    }
  }

  /** When every draw is at or above the rate, an attack infects nobody: the
      Healthy targets are only marked as attacked. */
  lemma {:induction false} AttackAllResisted(ns: seq<Node>, targets: seq<nat>, rate: real, len: real, draw: nat -> real, k: nat)
    requires forall i :: 0 <= i < |targets| ==> targets[i] < |ns|
    requires forall i: nat :: draw(i) >= rate
    ensures forall j :: 0 <= j < |ns| ==>
      AttackAll(ns, targets, rate, len, draw, k).0[j]
        == ns[j].(isBeingAttacked := ns[j].isBeingAttacked || (ns[j].status == Healthy && j in targets))
    decreases |targets|
  {
    if targets != [] {
      var n := |targets| - 1;
      AttackAllResisted(ns, targets[..n], rate, len, draw, k);
      assert targets == targets[..n] + [targets[n]];
    }
  }

  /** When every draw is at or above the rate (a rate of 0, say) the spread
      pass changes no status: exactly the Healthy nodes exposed to a spreading
      node become marked as attacked, and nothing else changes. */
  lemma {:induction false} SpreadResisted(ns: seq<Node>, sick: seq<nat>, rate: real, len: real, draw: nat -> real, k: nat)
    requires LinksInRange(ns)
    requires forall p :: 0 <= p < |sick| ==> sick[p] < |ns|
    requires forall i: nat :: draw(i) >= rate
    ensures forall j :: 0 <= j < |ns| ==>
      SpreadAll(ns, sick, rate, len, draw, k).0[j]
        == ns[j].(isBeingAttacked := ns[j].isBeingAttacked || (ns[j].status == Healthy && Exposed(ns, sick, j)))
    decreases |sick|
  {
    if sick != [] {
      var n := |sick| - 1;
      SpreadResisted(ns, sick[..n], rate, len, draw, k);
      var m := SpreadAll(ns, sick[..n], rate, len, draw, k);
      AttackAllResisted(m.0, ns[sick[n]].links, rate, len, draw, m.1);
      forall j | 0 <= j < |ns|
        ensures SpreadAll(ns, sick, rate, len, draw, k).0[j]
          == ns[j].(isBeingAttacked := ns[j].isBeingAttacked || (ns[j].status == Healthy && Exposed(ns, sick, j)))
      {
        ExposedSplit(ns, sick, j);
      }
    }
  }

  /** When every draw is below the rate, every target that is not Recovered
      is Sick after the attacks. */
  lemma {:induction false} AttackAllInfects(ns: seq<Node>, targets: seq<nat>, rate: real, len: real, draw: nat -> real, k: nat)
    requires forall i :: 0 <= i < |targets| ==> targets[i] < |ns|
    requires forall i: nat :: draw(i) < rate
    ensures forall i :: 0 <= i < |targets| && ns[targets[i]].status != Recovered ==>
      AttackAll(ns, targets, rate, len, draw, k).0[targets[i]].status == Sick
    decreases |targets|
  {
    if targets != [] {
      var n := |targets| - 1;
      AttackAllInfects(ns, targets[..n], rate, len, draw, k);
      var m := AttackAll(ns, targets[..n], rate, len, draw, k);
      forall i | 0 <= i < |targets| && ns[targets[i]].status != Recovered
        ensures AttackAll(ns, targets, rate, len, draw, k).0[targets[i]].status == Sick
      {
        if i < n {
          assert targets[..n][i] == targets[i];
        }
        assert Evolves(ns[targets[i]], m.0[targets[i]], len);
      }
    }
  }

  /** When every draw is below the rate (a rate of 1, say), every node exposed
      to a spreading node and not Recovered is Sick after the spread pass. */
  lemma {:induction false} SpreadInfects(ns: seq<Node>, sick: seq<nat>, rate: real, len: real, draw: nat -> real, k: nat)
    requires LinksInRange(ns)
    requires forall p :: 0 <= p < |sick| ==> sick[p] < |ns|
    requires forall i: nat :: draw(i) < rate
    ensures forall j :: 0 <= j < |ns| && ns[j].status != Recovered && Exposed(ns, sick, j) ==>
      SpreadAll(ns, sick, rate, len, draw, k).0[j].status == Sick
    decreases |sick|
  {
    if sick != [] {
      var n := |sick| - 1;
      SpreadInfects(ns, sick[..n], rate, len, draw, k);
      var m := SpreadAll(ns, sick[..n], rate, len, draw, k);
      var links := ns[sick[n]].links;
      AttackAllInfects(m.0, links, rate, len, draw, m.1);
      forall j | 0 <= j < |ns| && ns[j].status != Recovered && Exposed(ns, sick, j)
        ensures SpreadAll(ns, sick, rate, len, draw, k).0[j].status == Sick
      {
        ExposedSplit(ns, sick, j);
        assert Evolves(ns[j], m.0[j], len);
        if j in links {
          var i :| 0 <= i < |links| && links[i] == j;
        } else {
          assert Evolves(m.0[j], AttackAll(m.0, links, rate, len, draw, m.1).0[j], len);
        }
      }
    }
  }

  /** The inner loop of the spread pass: one spreading node attacks each of
      its links in turn, drawing from `draw` starting at index `k`; `next` is
      the index of the next draw. */
  method AttackLinks(a: array<Node>, links: seq<nat>, rate: real, len: real, draw: nat -> real, k: nat)
    returns (next: nat)
    requires forall i :: 0 <= i < |links| ==> links[i] < a.Length
    modifies a
    ensures (a[..], next) == AttackAll(old(a[..]), links, rate, len, draw, k)
  {
    next := k;
    for q := 0 to |links|
      invariant (a[..], next) == AttackAll(old(a[..]), links[..q], rate, len, draw, k)
    {
      var t := links[q];
      if a[t].status == Healthy {
        if draw(next) < rate {
          a[t] := a[t].(status := Sick, sickness := len);
        } else {
          a[t] := a[t].(isBeingAttacked := true);
        }
        next := next + 1;
      }
      assert links[..q + 1][..q] == links[..q];
    }
    assert links[..|links|] == links;
  }

  /** The source's spread loops: the Sick nodes are listed first, then each
      attacks its links, over the node array in place. */
  method SpreadPass(a: array<Node>, rate: real, len: real, draw: nat -> real)
    requires LinksInRange(a[..])
    modifies a
    ensures a[..] == SpreadAll(old(a[..]), SickIndices(old(a[..])), rate, len, draw, 0).0
  {
    ghost var d := a[..];
    var sick := SickIndices(a[..]);
    var k := 0;
    for p := 0 to |sick|
      invariant (a[..], k) == SpreadAll(d, sick[..p], rate, len, draw, 0)
    {
      ghost var before := SpreadAll(d, sick[..p], rate, len, draw, 0);
      var links := a[sick[p]].links;
      assert links == d[sick[p]].links by {
        assert Evolves(d[sick[p]], before.0[sick[p]], len);
      }
      assert forall i :: 0 <= i < |links| ==> links[i] < a.Length;
      k := AttackLinks(a, links, rate, len, draw, k);
      assert sick[..p + 1][..p] == sick[..p];
      assert (a[..], k) == AttackAll(before.0, links, rate, len, draw, before.1);
    }
    assert sick[..|sick|] == sick;
  }
}
