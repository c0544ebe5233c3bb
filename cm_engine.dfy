/** The inference session: the activation context that stores payloads
    delivered along links, fires a node once all of its inputs are ready,
    and gives the completion handle when the outputs are. Lock operations,
    node activations and completion-handle operations are recorded in a
    ghost trace; each lock-guarded region is one atomic step. */
module CmEngine {
  import opened CmGraph

  /** What the session does to the outside world. Node activations carry
      the (possibly null) node pointer they were issued with. */
  datatype Event =
    | LockTake(lock: nat)
    | LockGive(lock: nat)
    | NodeActivation(node: Ref)
    | HandleTake
    | HandleTimedTake(acquired: bool)
    | HandleGive

  /** SESSION_IDLE, and the other states by their numeric code. */
  datatype SessionState = SessionIdle | SessionOther(code: int)

  predicate RefsIn(refs: seq<Ref>, n: nat) {
    forall i :: 0 <= i < |refs| ==> RefIn(refs[i], n)
  }

  /** __AreLinkReady: every non-null link of the collection has data. */
  predicate Ready(links: seq<Link>, refs: seq<Ref>)
    requires RefsIn(refs, |links|)
  {
    forall i :: 0 <= i < |refs| && refs[i].At? ==> links[refs[i].id].payload.data != Null
  }

  function Values(entries: seq<Entry>): (r: seq<Ref>)
    ensures |r| == |entries| && forall i :: 0 <= i < |r| ==> r[i] == entries[i].value
  {
    seq(|entries|, i requires 0 <= i < |entries| => entries[i].value)
  }

  /** __AreLinkReady over a name-keyed collection. */
  predicate EntriesReady(links: seq<Link>, entries: seq<Entry>)
    requires RefsIn(Values(entries), |links|)
  {
    Ready(links, Values(entries))
  }

  /** __AreLinkReady(Collection<LinkPtr> *) */
  method AreLinkReady(links: seq<Link>, refs: seq<Ref>) returns (ready: bool)
    requires RefsIn(refs, |links|)
    ensures ready == Ready(links, refs)
  {
    var c := |refs|;
    var i := 0;
    while i != c
      invariant 0 <= i <= c
      invariant forall k :: 0 <= k < i && refs[k].At? ==> links[refs[k].id].payload.data != Null
    {
      var l := refs[i];
      if l.At? && links[l.id].payload.data == Null {
        return false;
      }
      i := i + 1;
    }
    return true;
  }

  /** __AreLinkReady(KeyValueCollection<LinkPtr> *) */
  method AreEntriesReady(links: seq<Link>, entries: seq<Entry>) returns (ready: bool)
    requires RefsIn(Values(entries), |links|)
    ensures ready == EntriesReady(links, entries)
  {
    var c := |entries|;
    var i := 0;
    while i != c
      invariant 0 <= i <= c
      invariant forall k :: 0 <= k < i && entries[k].value.At? ==> links[entries[k].value.id].payload.data != Null
    {
      var l := entries[i].value;
      if l.At? && links[l.id].payload.data == Null {
        assert Values(entries)[i] == l;
        return false;
      }
      i := i + 1;
    }
    return true;
  }

  /** The index of the first entry from `from` on whose key is key, or -1. */
  function FirstIndex(entries: seq<Entry>, key: string, from: nat): (k: int)
    requires from <= |entries|
    ensures k == -1 || from <= k < |entries|
    ensures k == -1 ==> forall i :: from <= i < |entries| ==> entries[i].key != key
    ensures k != -1 ==> entries[k].key == key && forall j :: from <= j < k ==> entries[j].key != key
    decreases |entries| - from
  {
    if from == |entries| then -1
    else if entries[from].key == key then from
    else FirstIndex(entries, key, from + 1)
  }

  /** The link a name maps to: that of the first entry with the name, or
      null when there is none. */
  function Lookup(entries: seq<Entry>, key: string): (r: Ref)
    ensures (forall i :: 0 <= i < |entries| ==> entries[i].key != key) ==> r == Nil
    ensures forall i :: (0 <= i < |entries| && entries[i].key == key
              && (forall j :: 0 <= j < i ==> entries[j].key != key)) ==> r == entries[i].value
    ensures r != Nil ==> exists i :: 0 <= i < |entries| && entries[i].key == key && entries[i].value == r
  {
    var k := FirstIndex(entries, key, 0);
    if k == -1 then Nil else entries[k].value
  }

  /** What the graph must satisfy for the session's reactions to be
      defined: destinations, node inputs and outputs in range. */
  predicate Wired(links: seq<Link>, nodes: seq<Node>, outputs: seq<Entry>) {
    && (forall i :: 0 <= i < |links| ==> RefIn(links[i].ofin, |nodes|))
    && (forall n :: 0 <= n < |nodes| ==> RefsIn(nodes[n].opsc, |links|))
    && EntriesOk(outputs, |links|)
  }

  /** What InferenceSession::Activate(l, data) does once it has stored data
      in link id (links is the state after the store): a join node is
      fired iff all its inputs are ready, inside its lock; a single-input
      node is fired; a terminal link gives the completion handle when
      there is one and there is at most one output or all are ready. */
  function Reaction(links: seq<Link>, nodes: seq<Node>, outputs: seq<Entry>, hasHandle: bool, id: nat): (r: seq<Event>)
    requires Wired(links, nodes, outputs) && id < |links|
  {
    var next := links[id].ofin;
    if next.At? then
      var opsc := nodes[next.id].opsc;
      if |opsc| > 1 then
        [LockTake(GetLock(next.id))]
        + (if Ready(links, opsc) then [NodeActivation(next)] else [])
        + [LockGive(GetLock(next.id))]
      else [NodeActivation(next)]
    else if hasHandle && (|outputs| <= 1 || EntriesReady(links, outputs)) then [HandleGive]
    else []
  }

  /** The node activations RunAsync issues for the first k inputs: each
      input's destination, in map order. */
  function Starts(links: seq<Link>, inputs: seq<Entry>, k: nat): (r: seq<Event>)
    requires EntriesOk(inputs, |links|) && k <= |inputs|
    ensures |r| == k
    ensures forall i :: 0 <= i < k ==> r[i] == NodeActivation(links[inputs[i].value.id].ofin)
  {
    if k == 0 then []
    else Starts(links, inputs, k - 1) + [NodeActivation(links[inputs[k - 1].value.id].ofin)]
  }

  /** Whether InferenceSession::Activate(l, data) accepts a delivery. */
  predicate SessionAccepts(l: Ref, data: Ptr) {
    l.At? && data.Buffer?
  }

  class InferenceSession {
    const model: Graph
    const memoryManager: MemoryManager
    /** Whether _completionHandle is set. */
    const hasHandle: bool
    var state: SessionState
    ghost var trace: seq<Event>

    /** InferenceSession(model, mm): the context's memory manager is the
        one given. */
    constructor (g: Graph, mm: MemoryManager, handle: bool, initial: SessionState)
      ensures model == g && memoryManager == mm && hasHandle == handle
      ensures state == initial && trace == []
    {
      model := g;
      memoryManager := mm;
      hasHandle := handle;
      state := initial;
      trace := [];
    }

    /** GetInput(name): the named input link, whose data is allocated (the
        allocator's answer is `mallocResult`) only if it has none yet. */
    method GetInput(name: string, mallocResult: Ptr) returns (payloadOf: Ref)
      requires model.Valid()
      modifies model`links
      ensures model.Valid()
      ensures payloadOf == Lookup(model.inputs, name)
      ensures payloadOf.Nil? ==> model.links == old(model.links)
      ensures payloadOf.At? ==>
        (payloadOf.id < |model.links| &&
         model.links == if old(model.links)[payloadOf.id].payload.data == Null
                        then SetData(old(model.links), payloadOf.id, mallocResult)
                        else old(model.links))
    {
      var l := Lookup(model.inputs, name);
      if l.At? {
        if model.links[l.id].payload.data == Null {
          model.links := SetData(model.links, l.id, mallocResult);
        }
        return l;
      }
      return Nil;
    }

    /** GetOutput(name): the named output link, or null. */
    function GetOutput(name: string): (payloadOf: Ref)
      reads this, model
      requires model.Valid()
      ensures payloadOf.At? ==> payloadOf.id < |model.links|
      ensures payloadOf.At? ==>
        exists i :: 0 <= i < |model.outputs| && model.outputs[i].key == name && model.outputs[i].value == payloadOf
      ensures (forall i :: 0 <= i < |model.outputs| ==> model.outputs[i].key != name) ==> payloadOf == Nil
    {
      Lookup(model.outputs, name)
    }

    /** RunAsync: when all inputs are ready, takes the completion handle and
        activates each input's destination node in map order. */
    method RunAsync()
      requires model.Valid()
      requires EntriesReady(model.links, model.inputs) ==> hasHandle
      modifies this`trace
      ensures trace == old(trace) +
        (if EntriesReady(model.links, model.inputs) then [HandleTake] + Starts(model.links, model.inputs, |model.inputs|) else [])
    {
      var inputs := model.inputs;
      var ready := AreEntriesReady(model.links, inputs);
      if ready {
        trace := trace + [HandleTake];
        var c := |inputs|;
        var i := 0;
        while i != c
          invariant 0 <= i <= c
          invariant trace == old(trace) + [HandleTake] + Starts(model.links, inputs, i)
        {
          var l := inputs[i].value;
          var _ := ActivateNode(model.links[l.id].ofin);
          i := i + 1;
        }
      }
    }

    /** Join(timeout): waits on the completion handle (whether it was
        acquired before the timeout is `acquired`), gives it back, and
        always returns 0. */
    method Join(timeoutMillis: nat, acquired: bool) returns (r: int)
      requires hasHandle
      modifies this`trace
      ensures r == 0 && trace == old(trace) + [HandleTimedTake(acquired), HandleGive]
    {
      trace := trace + [HandleTimedTake(acquired)];
      trace := trace + [HandleGive];
      return 0;
    }

    /** Reset: back to SESSION_IDLE; returns the session itself. */
    method Reset() returns (s: InferenceSession)
      modifies this`state
      ensures s == this && state == SessionIdle
    {
      state := SessionIdle;
      return this;
    }

    /** Activate(NodePtr): recorded, and always refused. */
    method ActivateNode(node: Ref) returns (ok: bool)
      modifies this`trace
      ensures !ok && trace == old(trace) + [NodeActivation(node)]
    {
      trace := trace + [NodeActivation(node)];
      return false;
    }

    /** Activate(LinkPtr, void *): delivers data along link l. */
    method ActivateLink(l: Ref, data: Ptr) returns (ok: bool)
      requires model.Valid() && RefIn(l, |model.links|)
      modifies model`links, this`trace
      ensures model.Valid()
      ensures ok == SessionAccepts(l, data)
      ensures !ok ==> model.links == old(model.links) && trace == old(trace)
      ensures ok ==> && model.links == SetData(old(model.links), l.id, data)
                     && trace == old(trace) + Reaction(model.links, model.nodes, model.outputs, hasHandle, l.id)
    {
      if l.Nil? || data.Null? {
        return false;
      }
      var next := model.links[l.id].ofin;
      if next.At? {
        var opsc := model.nodes[next.id].opsc;
        if |opsc| > 1 {
          var lock := GetLock(next.id);
          trace := trace + [LockTake(lock)];
          model.links := SetData(model.links, l.id, data);
          var ready := AreLinkReady(model.links, opsc);
          if ready {
            var _ := ActivateNode(next);
          }
          trace := trace + [LockGive(lock)];
          return true;
        }
        model.links := SetData(model.links, l.id, data);
        var _ := ActivateNode(next);
        return true;
      }
      model.links := SetData(model.links, l.id, data);
      if hasHandle {
        if |model.outputs| > 1 {
          var ready := AreEntriesReady(model.links, model.outputs);
          if !ready {
            return true;
          }
        }
        trace := trace + [HandleGive];
      }
      return true;
    }
  }

  // ----- Properties of a run -----

  /** The links after data was stored along each link of ids in turn. */
  function AfterDeliveries(links: seq<Link>, ids: seq<nat>, data: Ptr): (r: seq<Link>)
    requires forall i :: 0 <= i < |ids| ==> ids[i] < |links|
    ensures SameTopology(links, r)
  {
    if ids == [] then links
    else SetData(AfterDeliveries(links, ids[..|ids| - 1], data), ids[|ids| - 1], data)
  }

  lemma {:induction false} AfterDeliveriesAt(links: seq<Link>, ids: seq<nat>, data: Ptr, j: nat)
    requires forall i :: 0 <= i < |ids| ==> ids[i] < |links|
    requires j < |links|
    ensures AfterDeliveries(links, ids, data)[j].payload.data
         == if j in ids then data else links[j].payload.data
  {
    if ids != [] {
      var front := ids[..|ids| - 1];
      AfterDeliveriesAt(links, front, data, j);
      assert ids == front + [ids[|ids| - 1]];
    }
  }

  /** `order` names each non-null link of refs exactly once. */
  predicate Covers(order: seq<nat>, refs: seq<Ref>) {
    && NoDuplicates(order)
    && (forall i :: 0 <= i < |order| ==> At(order[i]) in refs)
    && (forall i :: 0 <= i < |refs| && refs[i].At? ==> refs[i].id in order)
  }

  /** Starting with no data on any link of refs, and storing non-null data
      along each of them once, the collection becomes ready at the last
      delivery and not before. */
  lemma ReadyExactlyAtLast(links: seq<Link>, refs: seq<Ref>, order: seq<nat>, data: Ptr, m: nat)
    requires RefsIn(refs, |links|) && data != Null
    requires forall i :: 0 <= i < |refs| && refs[i].At? ==> links[refs[i].id].payload.data == Null
    requires Covers(order, refs) && 1 <= m <= |order|
    ensures forall i :: 0 <= i < |order| ==> order[i] < |links|
    ensures Ready(AfterDeliveries(links, order[..m], data), refs) <==> m == |order|
  {
    assert forall i :: 0 <= i < |order| ==> order[i] < |links| by {
      forall i | 0 <= i < |order|
        ensures order[i] < |links|
      {
        var k :| 0 <= k < |refs| && refs[k] == At(order[i]);
      }
    }
    var after := AfterDeliveries(links, order[..m], data);
    if m == |order| {
      assert order[..m] == order;
      forall i | 0 <= i < |refs| && refs[i].At?
        ensures after[refs[i].id].payload.data != Null
      {
        AfterDeliveriesAt(links, order[..m], data, refs[i].id);
      }
    } else {
      var k :| 0 <= k < |refs| && refs[k] == At(order[m]);
      assert order[m] !in order[..m];
      AfterDeliveriesAt(links, order[..m], data, order[m]);
      assert after[refs[k].id].payload.data == Null;
    }
  }

  /** Fan-in: when the input links of a join node n all lead to n and each
      receives data once, every delivery takes and gives n's lock once,
      and the node is activated at the last delivery only. */
  lemma JoinFiresAtLastInput(links: seq<Link>, nodes: seq<Node>, outputs: seq<Entry>, hasHandle: bool,
                             n: nat, order: seq<nat>, data: Ptr, m: nat)
    requires Wired(links, nodes, outputs) && n < |nodes| && |nodes[n].opsc| > 1 && data != Null
    requires forall i :: 0 <= i < |nodes[n].opsc| && nodes[n].opsc[i].At? ==>
               links[nodes[n].opsc[i].id].payload.data == Null
    requires Covers(order, nodes[n].opsc) && 1 <= m <= |order|
    requires forall i :: 0 <= i < |order| ==> order[i] < |links| && links[order[i]].ofin == At(n)
    ensures Reaction(AfterDeliveries(links, order[..m], data), nodes, outputs, hasHandle, order[m - 1])
         == [LockTake(GetLock(n))]
            + (if m == |order| then [NodeActivation(At(n))] else [])
            + [LockGive(GetLock(n))]
  {
    ReadyExactlyAtLast(links, nodes[n].opsc, order, data, m);
  }

  /** Completion: when there are several outputs, all terminal and
      initially empty, and each receives data once, the completion handle
      is given at the last delivery only. */
  lemma CompletionAtLastOutput(links: seq<Link>, nodes: seq<Node>, outputs: seq<Entry>,
                               order: seq<nat>, data: Ptr, m: nat)
    requires Wired(links, nodes, outputs) && |outputs| > 1 && data != Null
    requires forall i :: 0 <= i < |outputs| ==> links[outputs[i].value.id].payload.data == Null
    requires Covers(order, Values(outputs)) && 1 <= m <= |order|
    requires forall i :: 0 <= i < |order| ==> order[i] < |links| && links[order[i]].ofin == Nil
    ensures Reaction(AfterDeliveries(links, order[..m], data), nodes, outputs, true, order[m - 1])
         == if m == |order| then [HandleGive] else []
  {
    ReadyExactlyAtLast(links, Values(outputs), order, data, m);
  }

  /** What an InferenceSession answers to ForwardOuput's activations, which
      pass no data (a null pointer). */
  function SessionAnswers(onsc: seq<Ref>): (r: seq<bool>)
    ensures |r| == |onsc| && forall i :: 0 <= i < |r| ==> !r[i]
  {
    seq(|onsc|, i requires 0 <= i < |onsc| => SessionAccepts(onsc[i], Null))
  }

  /** Forwarding an operator's output through an InferenceSession fails at
      the first outgoing link: only that link is written and no clone is
      made. */
  lemma ForwardThroughSessionFails(onsc: seq<Ref>, clones: seq<Ptr>)
    requires 1 <= |onsc| <= |clones|
    ensures Fanout(|onsc|, SessionAnswers(onsc), clones) == Fan(false, 1)
  {
  }
}
