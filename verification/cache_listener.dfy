/** `CuratorCacheListener.postInitializedOnly`: a wrapper that drops the node
    events it receives before the cache reports `initialized`. */
module CacheListener {
  datatype EventType = NodeAdded | NodeUpdated | NodeRemoved

  /** A call made on a listener. */
  datatype Call<N> = Accept(kind: EventType, node: N) | Initialized

  /** The wrapper's state: its `isInitialized` flag. */
  datatype Gate = Gate(isInitialized: bool)

  const Fresh: Gate := Gate(false)

  /** One call on the wrapper: the new state and the calls passed on to the
      wrapped listener. */
  function Deliver<N>(g: Gate, c: Call<N>): (r: (Gate, seq<Call<N>>))
    ensures c.Initialized? ==> r == (Gate(true), [c])
    ensures c.Accept? ==> r.0 == g
    ensures c.Accept? ==> (r.1 == [c] <==> g.isInitialized) && (r.1 == [] <==> !g.isInitialized)
    ensures g.isInitialized ==> r.0.isInitialized
  {
    match c
    case Initialized => (Gate(true), [c])
    case Accept(_, _) => (g, if g.isInitialized then [c] else [])
  }

  /** A sequence of calls on the wrapper. */
  function DeliverAll<N>(g: Gate, calls: seq<Call<N>>): (r: (Gate, seq<Call<N>>))
    ensures g.isInitialized ==> r.0.isInitialized
    ensures |r.1| <= |calls|
    decreases |calls|
  {
    if |calls| == 0 then (g, [])
    else
      var (g1, out1) := Deliver(g, calls[0]);
      var (g2, out2) := DeliverAll(g1, calls[1..]);
      (g2, out1 + out2)
  }

  /** The index of the first `initialized` call, or the length when there is none. */
  function FirstInitialized<N>(calls: seq<Call<N>>): (i: nat)
    ensures i <= |calls|
    ensures forall k :: 0 <= k < i ==> calls[k].Accept?
    ensures i < |calls| ==> calls[i].Initialized?
    decreases |calls|
  {
    if |calls| == 0 || calls[0].Initialized? then 0 else 1 + FirstInitialized(calls[1..])
  }

  /** What reaches the wrapped listener: everything from the first
      `initialized` on, or everything once the flag is already set. */
  lemma {:induction false} DeliverAllForwards<N>(g: Gate, calls: seq<Call<N>>)
    ensures DeliverAll(g, calls).1 == if g.isInitialized then calls else calls[FirstInitialized(calls)..]
    ensures DeliverAll(g, calls).0.isInitialized <==> g.isInitialized || FirstInitialized(calls) < |calls|
    decreases |calls|
  {
    if |calls| > 0 {
      DeliverAllForwards(Deliver(g, calls[0]).0, calls[1..]);
      if calls[0].Initialized? {
        assert calls[1..] == calls[0..][1..];
        assert [calls[0]] + calls[1..] == calls;
      } else if g.isInitialized {
        assert [calls[0]] + calls[1..] == calls;
      } else {
        assert calls[1..][FirstInitialized(calls[1..])..] == calls[FirstInitialized(calls)..];
      }
    }
  }

  /** Node events before `initialized` are dropped, node events after it are
      passed on unchanged, and the flag, once set, stays set. */
  lemma PostInitializedOnly<N>(calls: seq<Call<N>>, n: nat)
    requires n <= |calls|
    ensures FirstInitialized(calls) == |calls| ==> DeliverAll(Fresh, calls).1 == []
    ensures DeliverAll(Fresh, calls[..n]).0.isInitialized ==> DeliverAll(Fresh, calls).0.isInitialized
  {
    DeliverAllForwards(Fresh, calls);
    DeliverAllForwards(Fresh, calls[..n]);
    var f := FirstInitialized(calls[..n]);
    if f < n {
      assert calls[f] == calls[..n][f];
      if FirstInitialized(calls) > f {
        assert calls[f].Accept?;
      }
    }
  }
}
