/** `ConsulCacheImpl`: a worker that repeatedly reads a key prefix
    recursively with a blocking query, mirrors the answer in a map from node
    paths to nodes and reports each difference as a node event, followed by
    one `initialized` after the first complete pass. Server answers,
    interrupts, the Base64 decoder and the iteration order of a `HashSet`
    are inputs. */
module ConsulCache {
  import opened Wrappers
  import opened JavaInt
  import opened Exceptions
  import opened Json
  import opened Transport
  import opened Paths
  import opened CacheListener

  /** A cached node; `MetadataImpl` reports the ModifyIndex as both its
      version and its transaction. */
  datatype Entry = Entry(path: NodePath, version: int, data: Bytes)

  type Mirror = map<NodePath, Entry>
  type Event = Call<Entry>

  /** `Base64.getDecoder().decode`: `None` for text that is not Base64. */
  type Decoder = string -> Option<Bytes>

  /** Each blocking read of `process` waits at most five minutes (`maxRead`). */
  const MaxReadMillis: int := 300_000

  datatype CacheState = CacheState(mirror: Mirror, index: int, initialized: bool, log: seq<Event>)

  const Initial: CacheState := CacheState(map[], -1, false, [])

  /** `node.get(name)` dereferenced: a missing field is a NullPointerException. */
  function Field(node: Json, name: string): (r: Result<Json, Exc>)
    ensures r.Success? <==> Get(node, name).Some?
    ensures r.Success? ==> r.value == Get(node, name).value
    ensures r.Failure? ==> r.error.cls == NullPointerClass
  {
    var f := Get(node, name);
    if f.None? then Failure(Exc(NullPointerClass, "")) else Success(f.value)
  }

  /** The node path of the `Key` field. */
  function KeyPath(node: Json): (r: Result<NodePath, Exc>)
    ensures r.Success? <==> Has(node, "Key")
    ensures r.Failure? ==> r.error.cls == NullPointerClass
    ensures r.Success? ==> r.value.nodes == [Separator] + Split(AsText(Get(node, "Key").value))
  {
    var key :- Field(node, "Key");
    Success(Parse(AsText(key), x => x))
  }

  /** What one snapshot element does to the mirror. */
  datatype NodeStep = NodeStep(mirror: Mirror, used: set<NodePath>, events: seq<Event>)

  /** One iteration of the `processNodes` loop. The `Value` field is read and
      decoded only for a new or changed node. A failure leaves this element
      without effect. */
  function ApplyNode(mirror: Mirror, used: set<NodePath>, node: Json, decode: Decoder): (r: Result<NodeStep, Exc>)
    ensures r.Success? ==> KeyPath(node).Success? && Field(node, "ModifyIndex").Success?
    ensures r.Success? ==>
      var path := KeyPath(node).value;
      var index := AsInt(Field(node, "ModifyIndex").value);
      && r.value.used == used - {path}
      && (path in mirror && mirror[path].version == index ==> r.value.mirror == mirror && r.value.events == [])
      && (path !in mirror || mirror[path].version != index ==>
            && path in r.value.mirror
            && r.value.mirror == mirror[path := r.value.mirror[path]]
            && r.value.mirror[path].path == path && r.value.mirror[path].version == index
            && r.value.events == [Accept(if path in mirror then NodeUpdated else NodeAdded, r.value.mirror[path])])
  {
    var path :- KeyPath(node);
    var used' := used - {path};
    var modifyIndex :- Field(node, "ModifyIndex");
    var index := AsInt(modifyIndex);
    if path in mirror && mirror[path].version == index then Success(NodeStep(mirror, used', []))
    else
      var value :- Field(node, "Value");
      var data := decode(AsText(value));
      if data.None? then Failure(Exc(IllegalArgumentClass, "Illegal base64 character"))
      else
        var entry := Entry(path, index, data.value);
        Success(NodeStep(mirror[path := entry], used', [Accept(if path in mirror then NodeUpdated else NodeAdded, entry)]))
  }

  /** The loop over the snapshot up to its first failure. */
  datatype Progress = Progress(mirror: Mirror, used: set<NodePath>, events: seq<Event>, failure: Option<Exc>)

  function ApplyNodes(mirror: Mirror, used: set<NodePath>, nodes: seq<Json>, decode: Decoder): (r: Progress)
    ensures r.used <= used
    ensures mirror.Keys <= r.mirror.Keys
    decreases |nodes|
  {
    if |nodes| == 0 then Progress(mirror, used, [], None)
    else
      match ApplyNode(mirror, used, nodes[0], decode)
      case Failure(e) => Progress(mirror, used, [], Some(e))
      case Success(step) =>
        var rest := ApplyNodes(step.mirror, step.used, nodes[1..], decode);
        Progress(rest.mirror, rest.used, step.events + rest.events, rest.failure)
  }

  /** The removal loop over the paths left in `usedSet`, visited in `order`
      (the set's iteration order). Each still-mirrored path is removed and
      reported with the node it held. */
  function Removals(mirror: Mirror, used: set<NodePath>, order: seq<NodePath>): (r: (Mirror, seq<Event>))
    ensures r.0.Keys <= mirror.Keys
    ensures forall p :: p in mirror && p !in used ==> p in r.0 && r.0[p] == mirror[p]
    ensures forall k :: 0 <= k < |r.1| ==> r.1[k].Accept? && r.1[k].kind == NodeRemoved
    ensures mirror.Keys - r.0.Keys <= used
    decreases |order|
  {
    if |order| == 0 then (mirror, [])
    else
      var p := order[0];
      if p in used && p in mirror then
        var rest := Removals(mirror - {p}, used - {p}, order[1..]);
        (rest.0, [Accept(NodeRemoved, mirror[p])] + rest.1)
      else Removals(mirror, used, order[1..])
  }

  /** Every path the removal loop drops is reported, with the node it held. */
  lemma {:induction false} RemovalEvents(mirror: Mirror, used: set<NodePath>, order: seq<NodePath>)
    ensures var (after, events) := Removals(mirror, used, order);
      forall p :: p in mirror.Keys - after.Keys ==> Accept(NodeRemoved, mirror[p]) in events
    decreases |order|
  {
    if |order| > 0 {
      var p := order[0];
      if p in used && p in mirror {
        var smaller := mirror - {p};
        RemovalEvents(smaller, used - {p}, order[1..]);
        var (after, rest) := Removals(smaller, used - {p}, order[1..]);
        var events := [Accept(NodeRemoved, mirror[p])] + rest;
        assert Removals(mirror, used, order) == (after, events);
        forall q | q in mirror.Keys - after.Keys
          ensures Accept(NodeRemoved, mirror[q]) in events
        {
          if q != p {
            assert q in smaller.Keys - after.Keys;
            assert smaller[q] == mirror[q];
          }
        }
      } else {
        RemovalEvents(mirror, used, order[1..]);
      }
    }
  }

  /** The removal loop reports one event per path it drops. */
  lemma {:induction false} RemovalEventCount(mirror: Mirror, used: set<NodePath>, order: seq<NodePath>)
    ensures var (after, events) := Removals(mirror, used, order);
      |events| == |mirror.Keys| - |after.Keys|
    decreases |order|
  {
    if |order| > 0 {
      var p := order[0];
      if p in used && p in mirror {
        var smaller := mirror - {p};
        RemovalEventCount(smaller, used - {p}, order[1..]);
        assert smaller.Keys == mirror.Keys - {p};
      } else {
        RemovalEventCount(mirror, used, order[1..]);
      }
    }
  }

  /** `processNodes`: the node events of the snapshot, then the removals,
      then `initialized` the first time a pass gets this far. A failure
      inside the snapshot loop ends the pass after the events already
      emitted; it is returned so that the caller can swallow it. */
  function ProcessNodes(s: CacheState, body: Json, order: seq<NodePath>, decode: Decoder): (r: (CacheState, Option<Exc>))
    ensures r.0.index == s.index
    ensures |r.0.log| >= |s.log| && r.0.log[..|s.log|] == s.log
    ensures r.1.Some? ==> r.0.initialized == s.initialized
    ensures r.1.None? ==> r.0.initialized
    ensures r.1.None? && !s.initialized ==> |r.0.log| > |s.log| && r.0.log[|r.0.log| - 1] == Initialized
    ensures forall k :: |s.log| <= k < |r.0.log| && r.0.log[k].Initialized? ==> !s.initialized && r.1.None? && k == |r.0.log| - 1
  {
    var progress := ApplyNodes(s.mirror, s.mirror.Keys, Elements(body), decode);
    NoInitializedFromNodes(s.mirror, s.mirror.Keys, Elements(body), decode);
    if progress.failure.Some? then
      (s.(mirror := progress.mirror, log := s.log + progress.events), progress.failure)
    else
      var (mirror, removed) := Removals(progress.mirror, progress.used, order);
      var init: seq<Event> := if s.initialized then [] else [Initialized];
      var log := s.log + progress.events + removed + init;
      assert log[..|s.log|] == s.log;
      (s.(mirror := mirror, initialized := true, log := log), None)
  }

  /** The snapshot loop only emits node events. */
  lemma {:induction false} NoInitializedFromNodes(mirror: Mirror, used: set<NodePath>, nodes: seq<Json>, decode: Decoder)
    ensures forall k :: 0 <= k < |ApplyNodes(mirror, used, nodes, decode).events| ==>
      ApplyNodes(mirror, used, nodes, decode).events[k].Accept?
    decreases |nodes|
  {
    if |nodes| > 0 {
      var step := ApplyNode(mirror, used, nodes[0], decode);
      if step.Success? {
        NoInitializedFromNodes(step.value.mirror, step.value.used, nodes[1..], decode);
      }
    }
  }

  /** The request of one pass: the key prefix, `index` only for a
      non-negative index, and `recurse`, awaited for at most `timeoutMillis`. */
  datatype ReadRequest = ReadRequest(key: string, query: seq<(string, string)>, timeoutMillis: int)

  function ReadFor(key: string, index: int): (q: ReadRequest)
    ensures q.key == key && q.timeoutMillis == MaxReadMillis
    ensures index < 0 ==> q.query == [("recurse", "true")]
    ensures index >= 0 ==> q.query == [("index", ToDecimal(index)), ("recurse", "true")]
  {
    if index < 0 then ReadRequest(key, [("recurse", "true")], MaxReadMillis)
    else ReadRequest(key, [("index", ToDecimal(index)), ("recurse", "true")], MaxReadMillis)
  }

  /** What one pass observes: the end of the blocking read and the order in
      which the leftover paths would be removed. */
  datatype PassInput = PassInput(interrupted: bool, arrival: Arrival, order: seq<NodePath>)

  datatype Pass = Pass(state: CacheState, request: ReadRequest, interruptReasserted: bool)

  /** `process()`. Building the request is outside the `try`, so an
      unresolved cache path escapes; everything the read or the snapshot
      throws is swallowed. A response overwrites the index before its nodes
      are processed. */
  function Process(s: CacheState, root: NodePath, arrival: Arrival, order: seq<NodePath>, decode: Decoder): (r: Result<Pass, Exc>)
    ensures r.Success? <==> IsResolved(root)
    ensures r.Failure? ==> r.error.cls == IllegalStateClass
    ensures r.Success? ==> r.value.request == ReadFor(FullPath(root).value, s.index)
    ensures r.Success? ==>
      var o := SyncGet(arrival, "Could not read path: ", ToString(root));
      && (o.Returned? && o.response.Some? ==> r.value.state.index == o.response.value.consulIndex)
      && (o.Returned? && o.response.Some? ==>
            r.value.state == ProcessNodes(s.(index := o.response.value.consulIndex), o.response.value.node, order, decode).0)
      && (!(o.Returned? && o.response.Some?) ==> r.value.state == s)
      && (r.value.interruptReasserted <==> arrival.Interrupted?)
  {
    var key :- FullPath(root);
    var request := ReadFor(key, s.index);
    match SyncGet(arrival, "Could not read path: ", ToString(root))
    case Threw(_) => Success(Pass(s, request, false))
    case Returned(response, reasserted) =>
      if response.None? then Success(Pass(s, request, reasserted))
      else
        var (next, _) := ProcessNodes(s.(index := response.value.consulIndex), response.value.node, order, decode);
        Success(Pass(next, request, reasserted))
  }

  datatype Ending = Stopped | Died(exc: Exc) | OutOfInputs

  datatype Worker = Worker(state: CacheState, requests: seq<ReadRequest>, ending: Ending)

  /** `processor()`: passes until the thread is interrupted or a pass throws. */
  function Processor(s: CacheState, root: NodePath, inputs: seq<PassInput>, decode: Decoder): (w: Worker)
    ensures |w.requests| <= |inputs|
    ensures w.ending.Died? ==> w.ending.exc.cls == IllegalStateClass && !IsResolved(root)
    decreases |inputs|
  {
    if |inputs| == 0 then Worker(s, [], OutOfInputs)
    else if inputs[0].interrupted then Worker(s, [], Stopped)
    else
      match Process(s, root, inputs[0].arrival, inputs[0].order, decode)
      case Failure(e) => Worker(s, [], Died(e))
      case Success(pass) =>
        if pass.interruptReasserted then Worker(pass.state, [pass.request], Stopped)
        else
          var rest := Processor(pass.state, root, inputs[1..], decode);
          Worker(rest.state, [pass.request] + rest.requests, rest.ending)
  }

  /** The number of `initialized` calls in a log. */
  function InitializedCount(log: seq<Event>): nat
    decreases |log|
  {
    if |log| == 0 then 0 else InitializedCount(log[..|log| - 1]) + (if log[|log| - 1].Initialized? then 1 else 0)
  }

  /** The cache has reported `initialized` exactly once if its flag is set,
      and never otherwise. */
  predicate InitializedOnce(s: CacheState) {
    InitializedCount(s.log) == if s.initialized then 1 else 0
  }

  lemma {:induction false} CountAppend(a: seq<Event>, b: seq<Event>)
    ensures InitializedCount(a + b) == InitializedCount(a) + InitializedCount(b)
    decreases |b|
  {
    if |b| == 0 {
      assert a + b == a;
    } else {
      CountAppend(a, b[..|b| - 1]);
      assert (a + b)[..|a + b| - 1] == a + b[..|b| - 1];
    }
  }

  lemma {:induction false} NoInitializedCount(log: seq<Event>)
    requires forall k :: 0 <= k < |log| ==> log[k].Accept?
    ensures InitializedCount(log) == 0
    decreases |log|
  {
    if |log| > 0 {
      NoInitializedCount(log[..|log| - 1]);
    }
  }

  /** A log extended by events of which only a final one may be
      `initialized`, added exactly when the flag is first set, keeps the
      report unique. */
  lemma ExtensionKeepsInitializedOnce(before: seq<Event>, added: seq<Event>, wasInitialized: bool, isInitialized: bool)
    requires InitializedCount(before) == if wasInitialized then 1 else 0
    requires wasInitialized ==> isInitialized
    requires !wasInitialized && isInitialized ==> |added| > 0 && added[|added| - 1] == Initialized
    requires forall k :: 0 <= k < |added| && added[k].Initialized? ==>
      !wasInitialized && isInitialized && k == |added| - 1
    ensures InitializedCount(before + added) == if isInitialized then 1 else 0
  {
    CountAppend(before, added);
    if |added| > 0 {
      var front := added[..|added| - 1];
      forall k | 0 <= k < |front|
        ensures front[k].Accept?
      {
        assert front[k] == added[k];
      }
      NoInitializedCount(front);
    }
  }

  /** `processNodes` keeps the `initialized` report unique. */
  lemma ProcessNodesKeepsInitializedOnce(s: CacheState, body: Json, order: seq<NodePath>, decode: Decoder)
    requires InitializedOnce(s)
    ensures InitializedOnce(ProcessNodes(s, body, order, decode).0)
  {
    var (r, failure) := ProcessNodes(s, body, order, decode);
    var added := r.log[|s.log|..];
    assert r.log == s.log + added;
    forall k | 0 <= k < |added| && added[k].Initialized?
      ensures !s.initialized && r.initialized && k == |added| - 1
    {
      assert added[k] == r.log[|s.log| + k];
    }
    ExtensionKeepsInitializedOnce(s.log, added, s.initialized, r.initialized);
  }

  /** Over any run of the worker, `initialized` is reported at most once,
      and exactly when some pass completed its snapshot. */
  lemma {:induction false} ProcessorKeepsInitializedOnce(s: CacheState, root: NodePath, inputs: seq<PassInput>, decode: Decoder)
    requires InitializedOnce(s)
    ensures InitializedOnce(Processor(s, root, inputs, decode).state)
    ensures s.initialized ==> Processor(s, root, inputs, decode).state.initialized
    decreases |inputs|
  {
    if |inputs| > 0 && !inputs[0].interrupted {
      var p := Process(s, root, inputs[0].arrival, inputs[0].order, decode);
      if p.Success? {
        var o := SyncGet(inputs[0].arrival, "Could not read path: ", ToString(root));
        if o.Returned? && o.response.Some? {
          var s' := s.(index := o.response.value.consulIndex);
          ProcessNodesKeepsInitializedOnce(s', o.response.value.node, inputs[0].order, decode);
        }
        if !p.value.interruptReasserted {
          ProcessorKeepsInitializedOnce(p.value.state, root, inputs[1..], decode);
        }
      }
    }
  }

  /** The paths a well-formed snapshot names. */
  predicate WellFormed(nodes: seq<Json>, decode: Decoder) {
    forall k :: 0 <= k < |nodes| ==>
      && KeyPath(nodes[k]).Success?
      && Field(nodes[k], "ModifyIndex").Success?
      && Field(nodes[k], "Value").Success?
      && decode(AsText(Field(nodes[k], "Value").value)).Some?
  }

  function SnapshotPaths(nodes: seq<Json>): set<NodePath>
    requires forall k :: 0 <= k < |nodes| ==> KeyPath(nodes[k]).Success?
  {
    set k | 0 <= k < |nodes| :: KeyPath(nodes[k]).value
  }

  lemma SnapshotPathsCons(nodes: seq<Json>)
    requires |nodes| > 0
    requires forall k :: 0 <= k < |nodes| ==> KeyPath(nodes[k]).Success?
    ensures SnapshotPaths(nodes) == {KeyPath(nodes[0]).value} + SnapshotPaths(nodes[1..])
  {
    var first := KeyPath(nodes[0]).value;
    forall p | p in SnapshotPaths(nodes)
      ensures p in {first} + SnapshotPaths(nodes[1..])
    {
      var k :| 0 <= k < |nodes| && KeyPath(nodes[k]).value == p;
      if k > 0 {
        assert nodes[1..][k - 1] == nodes[k];
      }
    }
    forall p | p in SnapshotPaths(nodes[1..])
      ensures p in SnapshotPaths(nodes)
    {
      var k :| 0 <= k < |nodes[1..]| && KeyPath(nodes[1..][k]).value == p;
      assert nodes[1..][k] == nodes[k + 1];
    }
  }

  /** A well-formed snapshot is applied completely: the mirror gains exactly
      the snapshot's paths, and the paths left to remove are the old ones it
      does not name. */
  lemma {:induction false} ApplyNodesComplete(mirror: Mirror, used: set<NodePath>, nodes: seq<Json>, decode: Decoder)
    requires WellFormed(nodes, decode)
    ensures var r := ApplyNodes(mirror, used, nodes, decode);
      && r.failure.None?
      && r.mirror.Keys == mirror.Keys + SnapshotPaths(nodes)
      && r.used == used - SnapshotPaths(nodes)
      && (forall p :: p in mirror && p !in SnapshotPaths(nodes) ==> r.mirror[p] == mirror[p])
    decreases |nodes|
  {
    if |nodes| > 0 {
      var step := ApplyNode(mirror, used, nodes[0], decode);
      assert step.Success?;
      ApplyNodesComplete(step.value.mirror, step.value.used, nodes[1..], decode);
      SnapshotPathsCons(nodes);
    } else {
      assert SnapshotPaths(nodes) == {};
    }
  }

  /** With an order that visits every leftover path, the removal loop removes
      exactly the leftover paths. */
  lemma RemovalsComplete(mirror: Mirror, used: set<NodePath>, order: seq<NodePath>)
    requires forall p :: p in used ==> p in order
    ensures Removals(mirror, used, order).0.Keys == mirror.Keys - used
  {
    RemovalsSkipping(mirror, used, order, {});
  }

  /** The general form: paths outside the mirror or outside `used` need no visit. */
  lemma {:induction false} RemovalsSkipping(mirror: Mirror, used: set<NodePath>, order: seq<NodePath>, skipped: set<NodePath>)
    requires forall q :: q in used && q !in skipped ==> q in order
    requires forall q :: q in skipped ==> q !in used || q !in mirror
    ensures Removals(mirror, used, order).0.Keys == mirror.Keys - used
    decreases |order|
  {
    if |order| == 0 {
    } else {
      var x := order[0];
      if x in used && x in mirror {
        forall q | q in used - {x} && q !in skipped
          ensures q in order[1..]
        {
          var k :| 0 <= k < |order| && order[k] == q;
          assert order[1..][k - 1] == q;
        }
        RemovalsSkipping(mirror - {x}, used - {x}, order[1..], skipped);
      } else {
        forall q | q in used && q !in skipped + {x}
          ensures q in order[1..]
        {
          var k :| 0 <= k < |order| && order[k] == q;
          assert order[1..][k - 1] == q;
        }
        RemovalsSkipping(mirror, used, order[1..], skipped + {x});
      }
    }
  }

  /** A complete pass over a well-formed snapshot, with every old path
      visited by the removal order, leaves the mirror holding exactly the
      snapshot's paths and marks the cache initialized. */
  lemma FullPassMirrorsSnapshot(s: CacheState, nodes: seq<Json>, order: seq<NodePath>, decode: Decoder)
    requires WellFormed(nodes, decode)
    requires forall p :: p in s.mirror ==> p in order
    ensures var (next, failure) := ProcessNodes(s, JArr(nodes), order, decode);
      && failure.None?
      && next.mirror.Keys == SnapshotPaths(nodes)
      && next.initialized
  {
    ApplyNodesComplete(s.mirror, s.mirror.Keys, nodes, decode);
    var progress := ApplyNodes(s.mirror, s.mirror.Keys, nodes, decode);
    RemovalsComplete(progress.mirror, progress.used, order);
  }

  /** The worker's slot: the future of the submitted processor, if any. */
  datatype Slot = Slot(worker: Option<nat>)

  /** The slot after `start` or `close`, the worker it cancelled, and what it threw. */
  datatype SlotChange = SlotChange(slot: Slot, cancelled: Option<nat>, error: Option<Exc>)

  /** `start()`: the new worker is submitted first; if the slot is taken it is
      cancelled again and IllegalStateException is thrown. */
  function Start(s: Slot, submitted: nat): (c: SlotChange)
    ensures c.error.None? <==> s.worker.None?
    ensures c.error.None? ==> c.slot.worker == Some(submitted) && c.cancelled.None?
    ensures c.error.Some? ==> c.slot == s && c.cancelled == Some(submitted) && c.error.value.cls == IllegalStateClass
  {
    if s.worker.None? then SlotChange(Slot(Some(submitted)), None, None)
    else SlotChange(s, Some(submitted), Some(Exc(IllegalStateClass, "Already started")))
  }

  /** `close()`: empties the slot and cancels the worker it held. */
  function Close(s: Slot): (c: SlotChange)
    ensures c.slot.worker.None? && c.error.None?
    ensures c.cancelled == s.worker
  {
    SlotChange(Slot(None), s.worker, None)
  }

  /** A second `start` fails and leaves the first worker running; after
      `close` a new `start` succeeds. */
  lemma StartCloseStart(w1: nat, w2: nat, w3: nat)
    ensures var first := Start(Slot(None), w1);
      && first.error.None?
      && Start(first.slot, w2) == SlotChange(first.slot, Some(w2), Some(Exc(IllegalStateClass, "Already started")))
      && Close(first.slot).cancelled == Some(w1)
      && Start(Close(first.slot).slot, w3).slot.worker == Some(w3)
  {
  }

  /** A cache whose path has a parameter dies on its first pass, sending nothing. */
  lemma UnresolvedRootKillsWorker(s: CacheState, root: NodePath, inputs: seq<PassInput>, decode: Decoder)
    requires !IsResolved(root) && |inputs| > 0 && !inputs[0].interrupted
    ensures Processor(s, root, inputs, decode) == Worker(s, [], Died(FullPath(root).error))
  {
  }

  /** A key-value element of a recursive read. */
  function KeyNode(key: string, index: int, value: string): Json {
    JObj(map["Key" := JStr(key), "ModifyIndex" := JNum(index), "Value" := JStr(value)])
  }

  /** The path a one-segment key parses to. */
  lemma KeyNodePath(key: string, index: int, value: string)
    requires |key| > 0 && NoSeparator(key)
    ensures KeyPath(KeyNode(key, index, value)) == Success(NodePath([Separator, key]))
  {
    var node := KeyNode(key, index, value);
    assert Field(node, "Key") == Success(JStr(key));
    SplitRun(key, "", "");
    assert key + "" == key && "" + key == key;
    assert SplitFrom("", key) == [key];
    assert Split(key) == [key];
    var p := Parse(key, x => x);
    assert |p.nodes| == 2 && p.nodes[0] == Separator && p.nodes[1] == key;
    assert p.nodes == [Separator, key];
  }

  /** A pass whose snapshot loop completes: the node events, then the
      removals, then `initialized` if the cache was not yet initialized. */
  lemma CompletePass(s: CacheState, items: seq<Json>, order: seq<NodePath>, decode: Decoder)
    requires ApplyNodes(s.mirror, s.mirror.Keys, items, decode).failure.None?
    ensures var p := ApplyNodes(s.mirror, s.mirror.Keys, items, decode);
      var rem := Removals(p.mirror, p.used, order);
      ProcessNodes(s, JArr(items), order, decode) ==
        (s.(mirror := rem.0, initialized := true, log := s.log + p.events + rem.1 + if s.initialized then [] else [Initialized]), None)
  {
  }

  /** A pass whose snapshot loop fails: the events before the failure are
      kept, nothing is removed and the cache stays as initialized as it was. */
  lemma FailedPass(s: CacheState, items: seq<Json>, order: seq<NodePath>, decode: Decoder)
    requires ApplyNodes(s.mirror, s.mirror.Keys, items, decode).failure.Some?
    ensures var p := ApplyNodes(s.mirror, s.mirror.Keys, items, decode);
      ProcessNodes(s, JArr(items), order, decode) == (s.(mirror := p.mirror, log := s.log + p.events), p.failure)
  {
  }

  /** A well-formed key-value element for a path not yet mirrored adds an
      entry whose version is the wrapped ModifyIndex and whose data is the
      decoded Value, and reports it as added. */
  lemma AddKeyNode(mirror: Mirror, used: set<NodePath>, key: string, index: int, value: string, decode: Decoder)
    requires |key| > 0 && NoSeparator(key) && decode(value).Some?
    requires NodePath([Separator, key]) !in mirror
    ensures var path := NodePath([Separator, key]);
      var entry := Entry(path, AsInt(JNum(index)), decode(value).value);
      ApplyNode(mirror, used, KeyNode(key, index, value), decode) ==
        Success(NodeStep(mirror[path := entry], used - {path}, [Accept(NodeAdded, entry)]))
  {
    KeyNodePath(key, index, value);
  }

  /** An element whose ModifyIndex equals the mirrored version changes
      nothing but marks its path as seen. */
  lemma KeepKeyNode(mirror: Mirror, used: set<NodePath>, key: string, index: int, value: string, decode: Decoder)
    requires |key| > 0 && NoSeparator(key)
    requires NodePath([Separator, key]) in mirror && mirror[NodePath([Separator, key])].version == AsInt(JNum(index))
    ensures ApplyNode(mirror, used, KeyNode(key, index, value), decode) ==
      Success(NodeStep(mirror, used - {NodePath([Separator, key])}, []))
  {
    KeyNodePath(key, index, value);
  }

  /** A key names a path just below the root. */
  function KeyAt(key: string): NodePath {
    NodePath([Separator, key])
  }

  predicate PlainKey(key: string) {
    |key| > 0 && NoSeparator(key)
  }

  /** The first pass of the example below: both keys are added, in order. */
  lemma BothKeysAdded(ka: string, va: int, xa: string, kb: string, vb: int, xb: string, decode: Decoder)
    requires PlainKey(ka) && PlainKey(kb) && ka != kb
    requires IsInt32(va) && IsInt32(vb) && decode(xa).Some? && decode(xb).Some?
    ensures var ea := Entry(KeyAt(ka), va, decode(xa).value);
      var eb := Entry(KeyAt(kb), vb, decode(xb).value);
      ApplyNodes(map[], {}, [KeyNode(ka, va, xa), KeyNode(kb, vb, xb)], decode) ==
        Progress(map[KeyAt(ka) := ea, KeyAt(kb) := eb], {}, [Accept(NodeAdded, ea), Accept(NodeAdded, eb)], None)
  {
    var a := KeyAt(ka);
    var b := KeyAt(kb);
    var ea := Entry(a, va, decode(xa).value);
    var eb := Entry(b, vb, decode(xb).value);
    assert a != b by { assert a.nodes[1] != b.nodes[1]; }
    var none: set<NodePath> := {};
    var empty: Mirror := map[];
    assert none - {a} == none && none - {b} == none;
    assert empty[a := ea] == map[a := ea];
    AddKeyNode(map[], {}, ka, va, xa, decode);
    AddKeyNode(map[a := ea], {}, kb, vb, xb, decode);
    var nodes := [KeyNode(ka, va, xa), KeyNode(kb, vb, xb)];
    assert nodes[1..][1..] == [];
    assert ApplyNodes(map[a := ea], {}, nodes[1..], decode) == Progress(map[a := ea, b := eb], {}, [Accept(NodeAdded, eb)], None);
  }

  /** The second pass of the example below: `b` at its mirrored version is
      unchanged, and `a` is left over. */
  lemma OnlySecondKeySeen(a: NodePath, ea: Entry, kb: string, vb: int, xb: string, db: Bytes, decode: Decoder)
    requires PlainKey(kb) && IsInt32(vb) && a != KeyAt(kb)
    ensures var m := map[a := ea, KeyAt(kb) := Entry(KeyAt(kb), vb, db)];
      ApplyNodes(m, m.Keys, [KeyNode(kb, vb, xb)], decode) == Progress(m, {a}, [], None)
  {
    var b := KeyAt(kb);
    var m := map[a := ea, b := Entry(b, vb, db)];
    assert m.Keys == {a, b} && {a, b} - {b} == {a};
    KeepKeyNode(m, {a, b}, kb, vb, xb, decode);
    assert [KeyNode(kb, vb, xb)][1..] == [];
  }

  /** The first pass of the example below ends initialized, after reporting
      both keys. */
  lemma FirstPassInitializes(ka: string, va: int, xa: string, kb: string, vb: int, xb: string, decode: Decoder)
    requires PlainKey(ka) && PlainKey(kb) && ka != kb
    requires IsInt32(va) && IsInt32(vb) && decode(xa).Some? && decode(xb).Some?
    ensures var ea := Entry(KeyAt(ka), va, decode(xa).value);
      var eb := Entry(KeyAt(kb), vb, decode(xb).value);
      ProcessNodes(Initial, JArr([KeyNode(ka, va, xa), KeyNode(kb, vb, xb)]), [], decode).0 ==
        CacheState(map[KeyAt(ka) := ea, KeyAt(kb) := eb], -1, true, [Accept(NodeAdded, ea), Accept(NodeAdded, eb), Initialized])
  {
    var ea := Entry(KeyAt(ka), va, decode(xa).value);
    var eb := Entry(KeyAt(kb), vb, decode(xb).value);
    var m := map[KeyAt(ka) := ea, KeyAt(kb) := eb];
    BothKeysAdded(ka, va, xa, kb, vb, xb, decode);
    assert Initial.mirror.Keys == {};
    assert Removals(m, {}, []) == (m, []);
    CompletePass(Initial, [KeyNode(ka, va, xa), KeyNode(kb, vb, xb)], [], decode);
  }

  /** A single left-over path that is mirrored is removed and reported. */
  lemma RemoveOne(m: Mirror, p: NodePath)
    requires p in m
    ensures Removals(m, {p}, [p]) == (m - {p}, [Accept(NodeRemoved, m[p])])
  {
    var none: set<NodePath> := {};
    assert {p} - {p} == none && [p][1..] == [];
    var after: seq<Event> := [];
    assert Removals(m - {p}, none, []) == (m - {p}, after);
    assert [p][0] == p;
    assert [Accept(NodeRemoved, m[p])] + after == [Accept(NodeRemoved, m[p])];
  }

  /** The second pass of the example below removes the left-over key. */
  lemma SecondPassRemoves(s: CacheState, a: NodePath, ea: Entry, kb: string, vb: int, xb: string, eb: Entry, decode: Decoder)
    requires PlainKey(kb) && IsInt32(vb) && a != KeyAt(kb)
    requires eb == Entry(KeyAt(kb), vb, eb.data)
    requires s.mirror == map[a := ea, KeyAt(kb) := eb] && s.initialized
    ensures var r := ProcessNodes(s, JArr([KeyNode(kb, vb, xb)]), [a], decode).0;
      && r.log == s.log + [Accept(NodeRemoved, ea)]
      && r.mirror == map[KeyAt(kb) := eb]
  {
    var m := s.mirror;
    OnlySecondKeySeen(a, ea, kb, vb, xb, eb.data, decode);
    assert m - {a} == map[KeyAt(kb) := eb];
    assert a in m && m[a] == ea;
    RemoveOne(m, a);
    CompletePass(s, [KeyNode(kb, vb, xb)], [a], decode);
  }

  /** Two keys, then only the second at the same ModifyIndex: the first pass
      adds both and initializes; the second reports exactly one removal, of
      the first key's node, and mirrors only the second key. */
  lemma VanishedKeyIsRemoved(ka: string, va: int, xa: string, kb: string, vb: int, xb: string, decode: Decoder)
    requires PlainKey(ka) && PlainKey(kb) && ka != kb
    requires IsInt32(va) && IsInt32(vb) && decode(xa).Some? && decode(xb).Some?
    ensures var ea := Entry(KeyAt(ka), va, decode(xa).value);
      var eb := Entry(KeyAt(kb), vb, decode(xb).value);
      var s1 := ProcessNodes(Initial, JArr([KeyNode(ka, va, xa), KeyNode(kb, vb, xb)]), [], decode).0;
      var s2 := ProcessNodes(s1, JArr([KeyNode(kb, vb, xb)]), [KeyAt(ka)], decode).0;
      && s1.log == [Accept(NodeAdded, ea), Accept(NodeAdded, eb), Initialized]
      && s2.log == s1.log + [Accept(NodeRemoved, ea)]
      && s2.mirror == map[KeyAt(kb) := eb]
  {
    var a := KeyAt(ka);
    var ea := Entry(a, va, decode(xa).value);
    var eb := Entry(KeyAt(kb), vb, decode(xb).value);
    assert a != KeyAt(kb) by { assert a.nodes[1] != KeyAt(kb).nodes[1]; }
    FirstPassInitializes(ka, va, xa, kb, vb, xb, decode);
    var s1 := ProcessNodes(Initial, JArr([KeyNode(ka, va, xa), KeyNode(kb, vb, xb)]), [], decode).0;
    SecondPassRemoves(s1, a, ea, kb, vb, xb, eb, decode);
  }

  /** A response overwrites the index even with -1 (no X-Consul-Index
      header) rather than keeping the larger one, and the next read then
      carries no `index` parameter. */
  lemma IndexOverwrittenNotMaximised(s: CacheState, root: NodePath, body: Json, order: seq<NodePath>, decode: Decoder)
    requires IsResolved(root) && s.index >= 0
    ensures var arrival := Arrived(HttpResponse(StatusOk, "OK", Some(body), None));
      var pass := Process(s, root, arrival, order, decode).value;
      && pass.request.query == [("index", ToDecimal(s.index)), ("recurse", "true")]
      && pass.state.index == -1
      && Process(pass.state, root, arrival, order, decode).value.request.query == [("recurse", "true")]
  {
  }

  /** The snapshot loop stops at an element without a ModifyIndex, after
      applying the element before it. */
  lemma StopsAtMissingIndex(ka: string, va: int, xa: string, bad: Json, decode: Decoder)
    requires PlainKey(ka) && IsInt32(va) && decode(xa).Some? && !Has(bad, "ModifyIndex")
    ensures var ea := Entry(KeyAt(ka), va, decode(xa).value);
      var p := ApplyNodes(map[], {}, [KeyNode(ka, va, xa), bad], decode);
      && p.mirror == map[KeyAt(ka) := ea]
      && p.events == [Accept(NodeAdded, ea)]
      && p.failure.Some?
  {
    var a := KeyAt(ka);
    var ea := Entry(a, va, decode(xa).value);
    var none: set<NodePath> := {};
    var empty: Mirror := map[];
    assert none - {a} == none;
    assert empty[a := ea] == map[a := ea];
    AddKeyNode(map[], {}, ka, va, xa, decode);
    var nodes := [KeyNode(ka, va, xa), bad];
    assert ApplyNode(map[a := ea], {}, nodes[1..][0], decode).Failure?;
  }

  /** A snapshot whose second element has no ModifyIndex: the first element
      is applied and reported, the index still advances to the response's,
      and the cache is not initialized. */
  lemma PartialPassAdvancesIndex(root: NodePath, n: int, ka: string, va: int, xa: string, bad: Json, decode: Decoder)
    requires IsResolved(root) && IsInt32(n)
    requires PlainKey(ka) && IsInt32(va) && decode(xa).Some? && !Has(bad, "ModifyIndex")
    ensures var arrival := Arrived(HttpResponse(StatusOk, "OK", Some(JArr([KeyNode(ka, va, xa), bad])), Some(ToDecimal(n))));
      var ea := Entry(KeyAt(ka), va, decode(xa).value);
      var pass := Process(Initial, root, arrival, [], decode).value;
      && pass.state.index == n
      && pass.state.mirror == map[KeyAt(ka) := ea]
      && pass.state.log == [Accept(NodeAdded, ea)]
      && !pass.state.initialized
  {
    ConsulIndexRoundTrip(n);
    StopsAtMissingIndex(ka, va, xa, bad, decode);
    var start := Initial.(index := n);
    assert start.mirror.Keys == {};
    FailedPass(start, [KeyNode(ka, va, xa), bad], [], decode);
  }
}
