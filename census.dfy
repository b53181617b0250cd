/** The per-status counts recorded after every generation (src/engine.ts:20-24, 123-134). */
module Census {
  import opened Nodes

  /** Number of nodes in each status. */
  datatype Counts = Counts(recovered: nat, healthy: nat, sick: nat)

  /** The number of nodes of `ns` whose status is `st`. */
  function Count(ns: seq<Node>, st: Status): (c: nat)
    ensures c <= |ns|
    ensures c == 0 <==> forall i :: 0 <= i < |ns| ==> ns[i].status != st
  {
    if ns == [] then 0
    else Count(ns[..|ns| - 1], st) + (if ns[|ns| - 1].status == st then 1 else 0)
  }

  /** Every node is counted exactly once: the three counts add up to the population. */
  lemma {:induction false} CountsPartition(ns: seq<Node>)
    ensures Count(ns, Recovered) + Count(ns, Healthy) + Count(ns, Sick) == |ns|
  {
    if ns != [] {
      CountsPartition(ns[..|ns| - 1]);
    }
  }

  /** The counts of a population. */
  function CountOf(ns: seq<Node>): (c: Counts)
    ensures c.recovered + c.healthy + c.sick == |ns|
    ensures c.sick == 0 <==> forall i :: 0 <= i < |ns| ==> ns[i].status != Sick
  {
    CountsPartition(ns);
    Counts(Count(ns, Recovered), Count(ns, Healthy), Count(ns, Sick))
  }

  /** The `reduce` of the source: one pass over the nodes bumping the counter
      of each node's status. */
  method CountStatuses(a: array<Node>) returns (c: Counts)
    ensures c == CountOf(a[..])
    ensures c.recovered + c.healthy + c.sick == a.Length
  {
    c := Counts(0, 0, 0);
    for i := 0 to a.Length
      invariant c == CountOf(a[..i])
    {
      assert a[..i + 1][..i] == a[..i];
      match a[i].status
      case Recovered => c := c.(recovered := c.recovered + 1);
      case Healthy => c := c.(healthy := c.healthy + 1);
      case Sick => c := c.(sick := c.sick + 1);
    }
    assert a[..a.Length] == a[..];
  }
}
