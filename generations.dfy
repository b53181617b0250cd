/** The bounded history of generation records (src/engine.ts:26-29, 135-141). */
module Generations {
  import opened Census

  /** One record: the generation index it was taken at and the counts. */
  datatype Generation = Generation(generation: int, counts: Counts)

  /** The last `n` elements of `s` (all of `s` when it is shorter). */
  function Last<T>(s: seq<T>, n: nat): (r: seq<T>)
    ensures |r| == if |s| < n then |s| else n
  {
    if |s| <= n then s else s[|s| - n..]
  }

  /** The history after recording `g` with window `cap`: `g` is appended, then
      the oldest record is dropped when the history is longer than `cap`. */
  function Appended(h: seq<Generation>, g: Generation, cap: nat): (r: seq<Generation>)
    ensures |h| <= cap ==> |r| <= cap
    ensures |r| == if |h| < cap then |h| + 1 else |h|
    ensures r == (h + [g])[|h| + 1 - |r|..]
    ensures cap > 0 ==> r[|r| - 1] == g
  {
    var pushed := h + [g];
    if |pushed| > cap then pushed[1..] else pushed
  }

  /** The history after recording each of `gs` in turn. */
  function AppendedAll(h: seq<Generation>, gs: seq<Generation>, cap: nat): seq<Generation>
    decreases |gs|
  {
    if gs == [] then h else AppendedAll(Appended(h, gs[0], cap), gs[1..], cap)
  }

  /** Once the history fits the window, however many generations are recorded
      it holds exactly the most recent `cap` of them, oldest first. */
  lemma {:induction false} WindowHoldsMostRecent(h: seq<Generation>, gs: seq<Generation>, cap: nat)
    requires |h| <= cap
    ensures AppendedAll(h, gs, cap) == Last(h + gs, cap)
    decreases |gs|
  {
    if gs != [] {
      var h' := Appended(h, gs[0], cap);
      AppendedIsLast(h, gs[0], cap);
      LastOfLast(h + [gs[0]], gs[1..], cap);
      SplitFirst(h, gs);
      WindowHoldsMostRecent(h', gs[1..], cap);
    }
  }

  /** Moving the first of `gs` over to `h`. */
  lemma SplitFirst<T>(h: seq<T>, gs: seq<T>)
    requires gs != []
    ensures h + [gs[0]] + gs[1..] == h + gs
  {
  }

  /** While the history fits the window, one step keeps the last `cap` records. */
  lemma AppendedIsLast(h: seq<Generation>, g: Generation, cap: nat)
    requires |h| <= cap
    ensures Appended(h, g, cap) == Last(h + [g], cap)
  {
  }

  /** Trimming to the window before appending more changes nothing about the
      final window. */
  lemma LastOfLast<T>(a: seq<T>, b: seq<T>, n: nat)
    ensures Last(Last(a, n) + b, n) == Last(a + b, n)
  {
    if |a| > n {
      var t := a[|a| - n..];
      var k := |b| + n;
      assert |t + b| == k;
      if k > n {
        assert (t + b)[k - n..] == (a + b)[|a + b| - n..];
      } else {
        assert t + b == (a + b)[|a + b| - n..];
      }
    }
  }

  /** The history object that every state returned by a generation step shares. */
  class History {
    var records: seq<Generation>

    constructor ()
      ensures records == []
    {
      records := [];
    }

    /** `push` of the new record, then `splice(0, 1)` when the window is exceeded. */
    method Push(g: Generation, cap: nat)
      modifies this
      ensures records == Appended(old(records), g, cap)
    {
      records := records + [g];
      if |records| > cap {
        records := records[1..];
      }
    }
  }
}
