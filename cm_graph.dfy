/** The computational graph: links carrying tensor payloads between nodes,
    and the operators that consume their inputs and forward their output.
    Links and nodes live in arenas addressed by index; pointers to buffers
    are abstract, with Null distinguished. What the activation context
    answers and what the memory manager's Clone returns are given to the
    operations as oracles. */
module CmGraph {
  import opened Wrappers

  /** A nullable Node * or Link *: an index into the arena, or nothing. */
  datatype Ref = Nil | At(id: nat)

  /** A nullable data buffer (void *). */
  datatype Ptr = Null | Buffer(addr: nat)

  /** A Tensor: its element type tag (tensor_data_type_t as int), its size
      in bytes and its data pointer. */
  datatype Tensor = Tensor(elemType: int, size: nat, data: Ptr)

  /** A Link: origin node (Oini), destination node (Ofin) and payload. */
  datatype Link = Link(oini: Ref, ofin: Ref, payload: Tensor)

  /** The node variants of the core. A function table entry is present
      (true) or a null function pointer (false); the kernels themselves are
      not modelled. */
  datatype Operator =
    | Unary(unaryFn: seq<bool>)
    | Binary(binaryFn: seq<bool>)
    | SubGraph
    | OtherNode

  /** A Node: its input links (Opsc), its output links (Onsc) and its kind.
      Its lock is identified with its index. */
  datatype Node = Node(opsc: seq<Ref>, onsc: seq<Ref>, op: Operator)

  /** An entry of a name-keyed link map (KeyValueCollection<LinkPtr>). */
  datatype Entry = Entry(key: string, value: Ref)

  /** Which end of a link LinkCollection::Oini / ::Ofin collect. */
  datatype End = Origin | Destination

  /** A typed kernel applied by node `node` for element type `elemType`. */
  datatype KernelRun = KernelRun(node: nat, elemType: int)

  /** Link(shape, dimension, type): a new link has no origin and no
      destination. */
  function NewLink(payload: Tensor): (l: Link)
    ensures l.oini == Nil && l.ofin == Nil && l.payload == payload
  {
    Link(Nil, Nil, payload)
  }

  /** Link::Activate always succeeds. */
  function LinkActivate(l: Link): (ok: bool)
    ensures ok
  {
    true
  }

  /** Node::GetLock: every node owns one lock and always hands out that
      one; the model names it by the node's index. */
  function GetLock(node: nat): (lock: nat) {
    node
  }

  predicate RefIn(r: Ref, n: nat) {
    r.Nil? || r.id < n
  }

  predicate SameTopology(a: seq<Link>, b: seq<Link>) {
    && |a| == |b|
    && forall i :: 0 <= i < |a| ==>
         && a[i].oini == b[i].oini && a[i].ofin == b[i].ofin
         && a[i].payload.elemType == b[i].payload.elemType
         && a[i].payload.size == b[i].payload.size
  }

  /** `l->Payload.Data = d` on link `id`: that link's data becomes d and
      nothing else changes. */
  function SetData(links: seq<Link>, id: nat, d: Ptr): (r: seq<Link>)
    requires id < |links|
    ensures SameTopology(links, r) && r[id].payload.data == d
    ensures forall j :: 0 <= j < |links| && j != id ==> r[j] == links[j]
  {
    links[id := links[id].(payload := links[id].payload.(data := d))]
  }

  /** The guard `i < 0 || i >= TDT_COUNT` the operators need before
      indexing their function tables. */
  predicate TypeTagRejected(tag: int, typeCount: nat) {
    tag < 0 || tag >= typeCount
  }

  /** Which operand a BinaryOperator keeps as its output. */
  datatype Operands = Operands(primary: nat, secondary: nat)

  /** The operand with the strictly larger Size is primary; on a tie the
      first input is. */
  function ChooseOperands(links: seq<Link>, x: nat, y: nat): (o: Operands)
    requires x < |links| && y < |links|
    ensures (o.primary == x && o.secondary == y) || (o.primary == y && o.secondary == x)
    ensures links[o.primary].payload.size >= links[o.secondary].payload.size
    ensures o.primary == y && x != y ==> links[y].payload.size > links[x].payload.size
  {
    if links[y].payload.size > links[x].payload.size then Operands(y, x) else Operands(x, y)
  }

  // ----- Fan-out -----

  /** The outcome of ForwardOuput: success, and how many of the outgoing
      links had their payload written (a prefix of Onsc). */
  datatype Fan = Fan(ok: bool, written: nat)

  /** ForwardOuput's loop from index i >= 1: each link gets a clone of the
      output, and the first null clone or refused activation stops it. The
      context's answer for link i is accepted[i]; Clone's result for link
      i is clones[i]. */
  function FanoutFrom(i: nat, count: nat, accepted: seq<bool>, clones: seq<Ptr>): (r: Fan)
    requires i <= count <= |accepted| && count <= |clones|
    ensures i <= r.written <= count && (r.ok ==> r.written == count)
    decreases count - i
  {
    if i == count then Fan(true, count)
    else if clones[i] == Null then Fan(false, i)
    else if !accepted[i] then Fan(false, i + 1)
    else FanoutFrom(i + 1, count, accepted, clones)
  }

  /** ForwardOuput over `count` outgoing links: none is success with
      nothing written; otherwise link 0 gets the output's own buffer and a
      refusal there stops before any clone. */
  function Fanout(count: nat, accepted: seq<bool>, clones: seq<Ptr>): (r: Fan)
    requires count <= |accepted| && count <= |clones|
    ensures r.written <= count && (r.ok ==> r.written == count)
    ensures count > 0 ==> r.written >= 1
  {
    if count == 0 then Fan(true, 0)
    else if !accepted[0] then Fan(false, 1)
    else FanoutFrom(1, count, accepted, clones)
  }

  /** The links after the first k outgoing links were written: link 0 with
      the output's data, link j >= 1 with its clone. */
  function Delivered(links: seq<Link>, onsc: seq<Ref>, data: Ptr, clones: seq<Ptr>, k: nat): (r: seq<Link>)
    requires k <= |onsc| <= |clones|
    requires forall j :: 0 <= j < |onsc| ==> onsc[j].At? && onsc[j].id < |links|
    ensures SameTopology(links, r)
  {
    if k == 0 then links
    else SetData(Delivered(links, onsc, data, clones, k - 1), onsc[k - 1].id,
                 if k == 1 then data else clones[k - 1])
  }

  /** ForwardOuput succeeds exactly when every outgoing link accepted its
      activation and every clone was allocated. */
  lemma FanoutSucceedsIff(count: nat, accepted: seq<bool>, clones: seq<Ptr>)
    requires count <= |accepted| && count <= |clones|
    ensures Fanout(count, accepted, clones).ok <==>
      (forall i :: 0 <= i < count ==> accepted[i]) && (forall i :: 1 <= i < count ==> clones[i] != Null)
  {
    if count > 0 && accepted[0] {
      FanoutFromSucceedsIff(1, count, accepted, clones);
    }
  }

  lemma {:induction false} FanoutFromSucceedsIff(i: nat, count: nat, accepted: seq<bool>, clones: seq<Ptr>)
    requires i <= count <= |accepted| && count <= |clones|
    ensures FanoutFrom(i, count, accepted, clones).ok <==>
      (forall k :: i <= k < count ==> accepted[k]) && (forall k :: i <= k < count ==> clones[k] != Null)
    decreases count - i
  {
    if i < count && clones[i] != Null && accepted[i] {
      FanoutFromSucceedsIff(i + 1, count, accepted, clones);
    }
  }

  /** When ForwardOuput stops early at link i, it is because the clone for
      i was null (and link i was not written) or link i refused. */
  lemma {:induction false} FanoutFromStops(i: nat, count: nat, accepted: seq<bool>, clones: seq<Ptr>)
    requires i <= count <= |accepted| && count <= |clones|
    ensures var r := FanoutFrom(i, count, accepted, clones);
      !r.ok ==> ((r.written < count && clones[r.written] == Null)
                 || (r.written >= 1 && !accepted[r.written - 1]))
    decreases count - i
  {
    if i < count && clones[i] != Null && accepted[i] {
      FanoutFromStops(i + 1, count, accepted, clones);
    }
  }

  /** With distinct outgoing links, after k were written link onsc[j]
      holds the output's data (j == 0) or its clone (0 < j < k), an
      unwritten outgoing link keeps its data, and no other link changes. */
  lemma {:induction false} DeliveredAt(links: seq<Link>, onsc: seq<Ref>, data: Ptr, clones: seq<Ptr>, k: nat)
    requires k <= |onsc| <= |clones|
    requires forall j :: 0 <= j < |onsc| ==> onsc[j].At? && onsc[j].id < |links|
    requires forall i, j :: 0 <= i < j < |onsc| ==> onsc[i].id != onsc[j].id
    ensures var r := Delivered(links, onsc, data, clones, k);
      && (forall j :: 0 <= j < |onsc| ==>
            r[onsc[j].id].payload.data ==
              (if j >= k then links[onsc[j].id].payload.data else if j == 0 then data else clones[j]))
      && (forall m :: 0 <= m < |links| && (forall j :: 0 <= j < |onsc| ==> onsc[j].id != m) ==> r[m] == links[m])
  {
    if k > 0 {
      DeliveredAt(links, onsc, data, clones, k - 1);
    }
  }

  /** A link that is not among the outgoing links is not touched by the
      fan-out. */
  lemma {:induction false} DeliveredOutside(links: seq<Link>, onsc: seq<Ref>, data: Ptr, clones: seq<Ptr>, k: nat, m: nat)
    requires k <= |onsc| <= |clones|
    requires forall j :: 0 <= j < |onsc| ==> onsc[j].At? && onsc[j].id < |links|
    requires m < |links| && forall j :: 0 <= j < |onsc| ==> onsc[j].id != m
    ensures Delivered(links, onsc, data, clones, k)[m] == links[m]
  {
    if k > 0 {
      DeliveredOutside(links, onsc, data, clones, k - 1, m);
    }
  }

  // ----- LinkCollection::Oini / ::Ofin -----

  function EndOf(l: Link, which: End): (r: Ref) {
    if which == Origin then l.oini else l.ofin
  }

  /** target after the first k links of coll were scanned: each non-null
      end not yet present is appended. */
  function Gathered(links: seq<Link>, coll: seq<nat>, k: nat, which: End, target: seq<nat>): (r: seq<nat>)
    requires k <= |coll| && forall i :: 0 <= i < |coll| ==> coll[i] < |links|
  {
    if k == 0 then target
    else
      var g := Gathered(links, coll, k - 1, which, target);
      var e := EndOf(links[coll[k - 1]], which);
      if e.At? && e.id !in g then g + [e.id] else g
  }

  predicate NoDuplicates(s: seq<nat>) {
    forall i, j :: 0 <= i < j < |s| ==> s[i] != s[j]
  }

  /** What the collectors promise: target is extended, never with a
      duplicate, exactly by the non-null ends of the scanned links. */
  lemma {:induction false} GatheredSpec(links: seq<Link>, coll: seq<nat>, k: nat, which: End, target: seq<nat>)
    requires k <= |coll| && forall i :: 0 <= i < |coll| ==> coll[i] < |links|
    ensures var r := Gathered(links, coll, k, which, target);
      && target <= r
      && (NoDuplicates(target) ==> NoDuplicates(r))
      && (forall i :: 0 <= i < k && EndOf(links[coll[i]], which).At? ==> EndOf(links[coll[i]], which).id in r)
      && (forall x :: x in r ==> x in target || exists i :: 0 <= i < k && EndOf(links[coll[i]], which) == At(x))
  {
    if k > 0 {
      GatheredSpec(links, coll, k - 1, which, target);
      var g := Gathered(links, coll, k - 1, which, target);
      var e := EndOf(links[coll[k - 1]], which);
      if e.At? && e.id !in g {
        assert forall x :: x in g + [e.id] ==> x in g || x == e.id;
      }
    }
  }

  /** LinkCollection::Oini (which == Origin) and ::Ofin (which ==
      Destination), scanning from the first link (see the findings on
      CollectAsWritten). */
  method CollectEnds(links: seq<Link>, coll: seq<nat>, which: End, target: seq<nat>) returns (r: seq<nat>)
    requires forall i :: 0 <= i < |coll| ==> coll[i] < |links|
    ensures r == Gathered(links, coll, |coll|, which, target)
  {
    r := target;
    for i := 0 to |coll|
      invariant r == Gathered(links, coll, i, which, target)
    {
      var l := links[coll[i]];
      var e := if which == Origin then l.oini else l.ofin;
      if e.At? && e.id !in r {
        r := r + [e.id];
      }
    }
  }

  /** The collectors as written start at index 9 and stop at `i ==
      _count`: a collection of fewer than 9 links is read past its end
      (None here), and otherwise its first 9 links are skipped. */
  function CollectAsWritten(links: seq<Link>, coll: seq<nat>, which: End, target: seq<nat>): (r: Option<seq<nat>>)
    requires forall i :: 0 <= i < |coll| ==> coll[i] < |links|
  {
    if |coll| < 9 then None
    else Some(Gathered(links, coll[9..], |coll| - 9, which, target))
  }

  /** Nine links all starting at node 0: the scan as written adds nothing,
      the scan from the first link adds node 0. */
  lemma CollectSkipsFirstNine()
    ensures var links := [Link(At(0), Nil, Tensor(0, 0, Null))];
            var coll := [0, 0, 0, 0, 0, 0, 0, 0, 0];
            && CollectAsWritten(links, coll, Origin, []) == Some([])
            && Gathered(links, coll, |coll|, Origin, []) == [0]
  {
    var links := [Link(At(0), Nil, Tensor(0, 0, Null))];
    var coll := [0, 0, 0, 0, 0, 0, 0, 0, 0];
    assert coll[9..] == [];
    GatheredSingleOrigin(links, coll, 9);
  }

  lemma {:induction false} GatheredSingleOrigin(links: seq<Link>, coll: seq<nat>, k: nat)
    requires |links| == 1 && links[0].oini == At(0)
    requires forall i :: 0 <= i < |coll| ==> coll[i] == 0
    requires 1 <= k <= |coll|
    ensures Gathered(links, coll, k, Origin, []) == [0]
  {
    if k > 1 {
      GatheredSingleOrigin(links, coll, k - 1);
    }
  }

  // ----- The type-tag guard -----

  /** The guard as written, `i < 0 && i >= TDT_COUNT`. */
  predicate TypeTagRejectedAsWritten(tag: int, typeCount: nat) {
    tag < 0 && tag >= typeCount
  }

  /** No tag is rejected by the guard as written, so a tag of -1 (or of
      TDT_COUNT) goes on to index the function table out of bounds; the
      corrected guard rejects exactly the tags outside the table. */
  lemma TypeTagGuardNeverRejects(typeCount: nat)
    ensures forall tag: int :: !TypeTagRejectedAsWritten(tag, typeCount)
    ensures !TypeTagRejectedAsWritten(-1, typeCount) && TypeTagRejected(-1, typeCount)
    ensures forall tag: int :: !TypeTagRejected(tag, typeCount) <==> 0 <= tag < typeCount
  {
  }

  // ----- The graph -----

  /** The allocator behind IMemoryManager; only Free is performed here,
      and it is recorded. */
  class MemoryManager {
    var released: seq<Ptr>

    constructor ()
      ensures released == []
    {
      released := [];
    }

    method Free(p: Ptr)
      modifies this
      ensures released == old(released) + [p]
    {
      released := released + [p];
    }
  }

  predicate NodeOk(node: Node, linkCount: nat, typeCount: nat) {
    && (forall i :: 0 <= i < |node.opsc| ==> RefIn(node.opsc[i], linkCount))
    && (forall i :: 0 <= i < |node.onsc| ==> node.onsc[i].At? && node.onsc[i].id < linkCount)
    && (forall i, j :: 0 <= i < |node.onsc| && 0 <= j < |node.opsc| ==> node.onsc[i] != node.opsc[j])
    && (node.op.Unary? ==> |node.op.unaryFn| == typeCount)
    && (node.op.Binary? ==> |node.op.binaryFn| == typeCount)
  }

  predicate EntriesOk(entries: seq<Entry>, linkCount: nat) {
    forall i :: 0 <= i < |entries| ==> entries[i].value.At? && entries[i].value.id < linkCount
  }

  /** Every end of every link names a node, every node is NodeOk and every
      named input and output is a link. */
  predicate WellFormed(links: seq<Link>, nodes: seq<Node>, inputs: seq<Entry>, outputs: seq<Entry>, typeCount: nat) {
    && (forall i :: 0 <= i < |links| ==> RefIn(links[i].oini, |nodes|) && RefIn(links[i].ofin, |nodes|))
    && (forall n :: 0 <= n < |nodes| ==> NodeOk(nodes[n], |links|, typeCount))
    && EntriesOk(inputs, |links|) && EntriesOk(outputs, |links|)
  }

  /** A Graph: its links (whose payload data changes during a run), its
      nodes, and its name-keyed inputs and outputs. typeCount is
      TDT_COUNT, the size of every function table. */
  class Graph {
    var links: seq<Link>
    const nodes: seq<Node>
    const inputs: seq<Entry>
    const outputs: seq<Entry>
    const typeCount: nat
    ghost var kernelRuns: seq<KernelRun>

    ghost predicate Valid()
      reads this
    {
      WellFormed(links, nodes, inputs, outputs, typeCount)
    }

    /** A graph as a GraphBuilder hands it over: well formed, with no
        kernel run yet. */
    constructor (ls: seq<Link>, ns: seq<Node>, ins: seq<Entry>, outs: seq<Entry>, tdtCount: nat)
      requires WellFormed(ls, ns, ins, outs, tdtCount)
      ensures Valid()
      ensures links == ls && nodes == ns && inputs == ins && outputs == outs && typeCount == tdtCount
      ensures kernelRuns == []
    {
      links := ls;
      nodes := ns;
      inputs := ins;
      outputs := outs;
      typeCount := tdtCount;
      kernelRuns := [];
    }

    /** Graph::Activate always succeeds. */
    function Activate(): (ok: bool)
      ensures ok
    {
      true
    }

    /** Operator::ForwardOuput for node n with output tensor `output`. */
    method ForwardOutput(n: nat, output: Tensor, accepted: seq<bool>, clones: seq<Ptr>) returns (ok: bool)
      requires Valid() && n < |nodes|
      requires |nodes[n].onsc| <= |accepted| && |nodes[n].onsc| <= |clones|
      modifies this`links
      ensures Valid()
      ensures var f := Fanout(|nodes[n].onsc|, accepted, clones);
        ok == f.ok && links == Delivered(old(links), nodes[n].onsc, output.data, clones, f.written)
    {
      var onsc := nodes[n].onsc;
      var count := |onsc|;
      if count == 0 {
        return true;
      }
      if count == 1 {
        links := SetData(links, onsc[0].id, output.data);
        return accepted[0];
      }
      links := SetData(links, onsc[0].id, output.data);
      if !accepted[0] {
        return false;
      }
      var i := 1;
      while i < count
        invariant 1 <= i <= count && Valid()
        invariant FanoutFrom(1, count, accepted, clones) == FanoutFrom(i, count, accepted, clones)
        invariant links == Delivered(old(links), onsc, output.data, clones, i)
      {
        var buffer := clones[i];
        if buffer == Null {
          return false;
        }
        links := SetData(links, onsc[i].id, buffer);
        if !accepted[i] {
          return false;
        }
        i := i + 1;
      }
      return true;
    }

    /** UnaryOperator::Activate: exactly one non-null input, whose tensor
        is also the output; the kernel for its element type runs when the
        table has one, then the output is forwarded. */
    method UnaryActivate(n: nat, accepted: seq<bool>, clones: seq<Ptr>) returns (ok: bool)
      requires Valid() && n < |nodes| && nodes[n].op.Unary?
      requires |nodes[n].onsc| <= |accepted| && |nodes[n].onsc| <= |clones|
      modifies this`links, this`kernelRuns
      ensures Valid()
      ensures var node := nodes[n];
        if |node.opsc| == 1 && node.opsc[0].At?
           && !TypeTagRejected(old(links)[node.opsc[0].id].payload.elemType, typeCount) then
          var input := old(links)[node.opsc[0].id].payload;
          var f := Fanout(|node.onsc|, accepted, clones);
          && ok == f.ok
          && links == Delivered(old(links), node.onsc, input.data, clones, f.written)
          && kernelRuns == old(kernelRuns) +
               (if node.op.unaryFn[input.elemType] then [KernelRun(n, input.elemType)] else [])
        else !ok && links == old(links) && kernelRuns == old(kernelRuns)
    {
      var node := nodes[n];
      if |node.opsc| == 1 {
        var a := node.opsc[0];
        if a.At? {
          var input := links[a.id].payload;
          var output := input;
          var i := input.elemType;
          if TypeTagRejected(i, typeCount) {
            return false;
          }
          if node.op.unaryFn[i] {
            kernelRuns := kernelRuns + [KernelRun(n, i)];
          }
          ok := ForwardOutput(n, output, accepted, clones);
          return;
        }
      }
      return false;
    }

    /** BinaryOperator::Activate: exactly two non-null inputs; the larger
        is the output, the smaller's buffer is freed and its data nulled,
        then the output is forwarded. */
    method BinaryActivate(n: nat, mm: MemoryManager, accepted: seq<bool>, clones: seq<Ptr>) returns (ok: bool)
      requires Valid() && n < |nodes| && nodes[n].op.Binary?
      requires |nodes[n].onsc| <= |accepted| && |nodes[n].onsc| <= |clones|
      modifies this`links, this`kernelRuns, mm
      ensures Valid()
      ensures var node := nodes[n];
        if |node.opsc| == 2 && node.opsc[0].At? && node.opsc[1].At?
           && !TypeTagRejected(old(links)[ChooseOperands(old(links), node.opsc[0].id, node.opsc[1].id).primary].payload.elemType, typeCount) then
          var o := ChooseOperands(old(links), node.opsc[0].id, node.opsc[1].id);
          var tag := old(links)[o.primary].payload.elemType;
          var freed := SetData(old(links), o.secondary, Null);
          var f := Fanout(|node.onsc|, accepted, clones);
          && mm.released == old(mm.released) + [old(links)[o.secondary].payload.data]
          && ok == f.ok
          && links == Delivered(freed, node.onsc, freed[o.primary].payload.data, clones, f.written)
          && links[o.secondary].payload.data == Null
          && links[o.primary].payload.data == freed[o.primary].payload.data
          && kernelRuns == old(kernelRuns) +
               (if node.op.binaryFn[tag] then [KernelRun(n, tag)] else [])
        else !ok && links == old(links) && kernelRuns == old(kernelRuns) && mm.released == old(mm.released)
    {
      var node := nodes[n];
      if |node.opsc| == 2 {
        var x := node.opsc[0];
        var y := node.opsc[1];
        if x.At? && y.At? {
          var o := ChooseOperands(links, x.id, y.id);
          var i := links[o.primary].payload.elemType;
          if TypeTagRejected(i, typeCount) {
            return false;
          }
          if node.op.binaryFn[i] {
            kernelRuns := kernelRuns + [KernelRun(n, i)];
          }
          mm.Free(links[o.secondary].payload.data);
          links := SetData(links, o.secondary, Null);
          ghost var freed := links;
          var output := links[o.primary].payload;
          ok := ForwardOutput(n, output, accepted, clones);
          DeliveredOutside(freed, node.onsc, output.data, clones, Fanout(|node.onsc|, accepted, clones).written, o.secondary);
          DeliveredOutside(freed, node.onsc, output.data, clones, Fanout(|node.onsc|, accepted, clones).written, o.primary);
          return;
        }
      }
      return false;
    }
  }
}
