/** The decay pass of a generation (src/engine.ts:96-105). */
module Decaying {
  import opened Nodes

  /** What a Sick node's countdown loses each generation. */
  const DecayStep: real := 0.2

  /** A node after the decay pass: the attack mark is cleared; a Sick node with
      a positive countdown loses one step and recovers once the countdown is
      below 1. Nothing else about the node changes. */
  function Decay(n: Node): (m: Node)
    ensures m == n.(isBeingAttacked := false, status := m.status, sickness := m.sickness)
    ensures n.status == Healthy <==> m.status == Healthy
    ensures !(n.status == Sick && n.sickness > 0.0) ==> m == n.(isBeingAttacked := false)
    ensures m.status == Recovered && n.status == Sick ==> m.sickness < 1.0
    ensures m.status == Sick ==> n.status == Sick && (m.sickness >= 1.0 || (m.sickness == n.sickness && n.sickness <= 0.0))
    ensures m.sickness <= n.sickness
    ensures n.status == Sick && n.sickness > 0.0 ==> m.sickness == n.sickness - DecayStep && (m.status == Recovered <==> m.sickness < 1.0)
  {
    if n.status == Sick && n.sickness > 0.0 then
      var s := n.sickness - DecayStep;
      n.(isBeingAttacked := false, sickness := s, status := if s < 1.0 then Recovered else Sick)
    else
      n.(isBeingAttacked := false)
  }

  /** Every node after the decay pass. */
  function DecayAll(ns: seq<Node>): (r: seq<Node>)
    ensures |r| == |ns|
    ensures forall i :: 0 <= i < |ns| ==> r[i] == Decay(ns[i])
  {
    seq(|ns|, i requires 0 <= i < |ns| => Decay(ns[i]))
  }

  /** Decay leaves every link in place, so links stay in range. */
  lemma DecayKeepsLinks(ns: seq<Node>)
    requires LinksInRange(ns)
    ensures LinksInRange(DecayAll(ns))
  {
    var d := DecayAll(ns);
    forall i, p | 0 <= i < |d| && 0 <= p < |d[i].links|
      ensures d[i].links[p] < |d|
    {
      assert d[i].links == ns[i].links;
    }
  }

  /** The boundary of recovery: countdown 1.2 decays to 1.0 and stays Sick,
      1.1 decays to 0.9 and recovers, 5 decays to 4.8 and stays Sick. */
  lemma DecayBoundary(n: Node)
    requires n.status == Sick
    ensures n.sickness == 1.2 ==> Decay(n).status == Sick && Decay(n).sickness == 1.0
    ensures n.sickness == 1.1 ==> Decay(n).status == Recovered && Decay(n).sickness == 0.9
    ensures n.sickness == 5.0 ==> Decay(n).status == Sick && Decay(n).sickness == 4.8
  {
  }

  /** A node after `k` decay passes. */
  function DecayTimes(n: Node, k: nat): (m: Node)
    ensures m.status == Healthy <==> n.status == Healthy
  {
    if k == 0 then n else Decay(DecayTimes(n, k - 1))
  }

  /** Recovery time: a node that falls Sick with countdown `c >= 1` is still
      Sick after `k` decay passes exactly when `c - 0.2 * k >= 1`, and its
      countdown is then `c - 0.2 * k`; afterwards it is Recovered for good. */
  lemma {:induction false} RecoveryTime(n: Node, k: nat)
    requires n.status == Sick && n.sickness >= 1.0
    ensures DecayTimes(n, k).status == (if n.sickness - DecayStep * k as real >= 1.0 then Sick else Recovered)
    ensures DecayTimes(n, k).status == Sick ==> DecayTimes(n, k).sickness == n.sickness - DecayStep * k as real
    ensures DecayTimes(n, k).status == Recovered ==> DecayTimes(n, k).sickness < 1.0
  {
    if k > 0 {
      RecoveryTime(n, k - 1);
    }
  }

  /** The source's decay loop: each node in turn has its mark cleared and, if
      Sick with a positive countdown, is decremented and possibly recovered. */
  method DecayPass(a: array<Node>)
    modifies a
    ensures a[..] == DecayAll(old(a[..]))
  {
    for i := 0 to a.Length
      invariant forall j :: 0 <= j < i ==> a[j] == Decay(old(a[j]))
      invariant forall j :: i <= j < a.Length ==> a[j] == old(a[j])
    {
      var node := a[i].(isBeingAttacked := false);
      if node.status == Sick && node.sickness > 0.0 {
        node := node.(sickness := node.sickness - DecayStep);
        if node.sickness < 1.0 {
          node := node.(status := Recovered);
        }
      }
      a[i] := node;
    }
  }
}
