/**
 * The node graph as an arena: node records addressed by index, edges as
 * index pairs. This module holds the records, the graph invariants and the
 * pure edits the graph class performs on them.
 */
module Arena {
  import opened Results
  import opened Shapes
  import opened Diagnostics
  import opened Ops

  type NodeId = nat

  /** A handle on output slot `index` of node `node`. */
  datatype OutputRef = OutputRef(node: NodeId, index: nat)

  /** A handle on input slot `index` of node `node`. */
  datatype InputRef = InputRef(node: NodeId, index: nat)

  /** Device placement of a node. */
  datatype Placement = Default | Interpreter | Cpu | Gpu | Nnp

  /** A 64-bit `size_t` value. */
  type SizeT = x: nat | x < 0x1_0000_0000_0000_0000

  /** The placement index of a node that has not been placed: `size_t(-1)`. */
  const PlacementInvalid: SizeT := 0xFFFF_FFFF_FFFF_FFFF

  /** A node's own bookkeeping, apart from its edges. */
  datatype NodeInfo = NodeInfo(
    kind: OpKind,
    instanceId: nat,
    uniqueName: string,
    friendlyName: string,
    controlDependencies: set<NodeId>,
    provenanceTags: set<string>,
    placement: Placement,
    placementIndex: SizeT)

  /** An output slot: its tensor descriptor and the input slots it feeds (its fan-out). */
  datatype OutputSlot = OutputSlot(descriptor: Descriptor, targets: set<InputRef>)

  /** One node: bookkeeping, the source bound to each input slot, and its output slots. */
  datatype NodeRecord = NodeRecord(info: NodeInfo, inputs: seq<OutputRef>, outputs: seq<OutputSlot>)

  /** The unique name of a node: its type name, an underscore and its instance id. */
  function UniqueName(kind: OpKind, id: nat): string {
    Description(kind) + "_" + Decimal(id)
  }

  /**
   * The bookkeeping of a node just built: an empty friendly name (meaning none
   * has been set), no dependencies or tags, not placed.
   */
  function FreshInfo(kind: OpKind, id: nat): NodeInfo {
    NodeInfo(kind, id, UniqueName(kind, id), "", {}, {}, Default, PlacementInvalid)
  }

  /** `operator<` on nodes: instance ids only. */
  predicate InstanceLess(x: NodeInfo, y: NodeInfo) {
    x.instanceId < y.instanceId
  }

  /* ---------- Slots and edges ---------- */

  predicate ValidInput(ns: seq<NodeRecord>, r: InputRef) {
    r.node < |ns| && r.index < |ns[r.node].inputs|
  }

  predicate ValidOutput(ns: seq<NodeRecord>, o: OutputRef) {
    o.node < |ns| && o.index < |ns[o.node].outputs|
  }

  /** The output an input slot is bound to. */
  function SourceOf(ns: seq<NodeRecord>, r: InputRef): OutputRef
    requires ValidInput(ns, r)
  {
    ns[r.node].inputs[r.index]
  }

  /** The fan-out of an output slot. */
  function TargetsOf(ns: seq<NodeRecord>, o: OutputRef): set<InputRef>
    requires ValidOutput(ns, o)
  {
    ns[o.node].outputs[o.index].targets
  }

  function DescriptorOf(ns: seq<NodeRecord>, o: OutputRef): Descriptor
    requires ValidOutput(ns, o)
  {
    ns[o.node].outputs[o.index].descriptor
  }

  /** Every input slot is bound to an existing output slot. */
  ghost predicate SourcesValid(ns: seq<NodeRecord>) {
    forall r :: ValidInput(ns, r) ==> ValidOutput(ns, SourceOf(ns, r))
  }

  /** Every fan-out entry is an existing input slot bound to that very output. */
  ghost predicate FanOutSound(ns: seq<NodeRecord>) {
    forall o, r :: ValidOutput(ns, o) && r in TargetsOf(ns, o) ==> ValidInput(ns, r) && SourceOf(ns, r) == o
  }

  /** Input `r` appears in the fan-out of the output it is bound to. */
  predicate Listed(ns: seq<NodeRecord>, r: InputRef)
    requires SourcesValid(ns) && ValidInput(ns, r)
  {
    r in TargetsOf(ns, SourceOf(ns, r))
  }

  /** Every input appears in its source's fan-out; with FanOutSound, edges agree in both directions. */
  ghost predicate Linked(ns: seq<NodeRecord>)
    requires SourcesValid(ns)
  {
    forall r :: ValidInput(ns, r) ==> Listed(ns, r)
  }

  predicate NodeWellFormed(ns: seq<NodeRecord>, n: NodeId, next: nat)
    requires n < |ns|
  {
    var x := ns[n];
    && |x.inputs| == Arity(x.info.kind)
    && |x.outputs| >= OutputCount(x.info.kind)
    && x.info.instanceId < next
    && x.info.uniqueName == UniqueName(x.info.kind, x.info.instanceId)
    && forall d :: d in x.info.controlDependencies ==> d < |ns|
  }

  ghost predicate AllNodesWellFormed(ns: seq<NodeRecord>, next: nat) {
    forall n :: 0 <= n < |ns| ==> NodeWellFormed(ns, n, next)
  }

  ghost predicate IdsDistinct(ns: seq<NodeRecord>) {
    forall a, b :: 0 <= a < |ns| && 0 <= b < |ns| && a != b ==> ns[a].info.instanceId != ns[b].info.instanceId
  }

  /** The arena invariant; `next` is the next instance id to hand out. */
  ghost predicate WellFormed(ns: seq<NodeRecord>, next: nat) {
    && AllNodesWellFormed(ns, next)
    && IdsDistinct(ns)
    && SourcesValid(ns)
    && FanOutSound(ns)
  }

  /** Advancing the instance counter keeps the invariant. */
  lemma WellFormedAdvance(ns: seq<NodeRecord>, next: nat, next': nat)
    requires WellFormed(ns, next) && next <= next'
    ensures WellFormed(ns, next')
  {
    forall n | 0 <= n < |ns|
      ensures NodeWellFormed(ns, n, next')
    {
      assert NodeWellFormed(ns, n, next);
    }
  }

  /* ---------- Edge edits ---------- */

  /** `ms` has the nodes of `ns`, with the same bookkeeping, slot counts and descriptors. */
  ghost predicate SameNodes(ns: seq<NodeRecord>, ms: seq<NodeRecord>) {
    && |ns| == |ms|
    && (forall n :: 0 <= n < |ns| ==>
          ns[n].info == ms[n].info && |ns[n].inputs| == |ms[n].inputs| && |ns[n].outputs| == |ms[n].outputs|)
    && (forall o :: ValidOutput(ns, o) ==> DescriptorOf(ms, o) == DescriptorOf(ns, o))
  }

  /** Nodes that are the same apart from their edges keep the node-level invariants. */
  lemma SameNodesTransfer(ns: seq<NodeRecord>, ms: seq<NodeRecord>, next: nat)
    requires SameNodes(ns, ms)
    ensures forall r :: ValidInput(ns, r) <==> ValidInput(ms, r)
    ensures forall o :: ValidOutput(ns, o) <==> ValidOutput(ms, o)
    ensures AllNodesWellFormed(ns, next) ==> AllNodesWellFormed(ms, next)
    ensures IdsDistinct(ns) ==> IdsDistinct(ms)
  {
    if AllNodesWellFormed(ns, next) {
      forall n | 0 <= n < |ms|
        ensures NodeWellFormed(ms, n, next)
      {
        assert NodeWellFormed(ns, n, next);
      }
    }
  }

  /** Replaces the fan-out of output `o` by `t`. */
  function SetTargets(ns: seq<NodeRecord>, o: OutputRef, t: set<InputRef>): (ms: seq<NodeRecord>)
    requires ValidOutput(ns, o)
    ensures SameNodes(ns, ms)
    ensures forall r :: ValidInput(ns, r) ==> ValidInput(ms, r) && SourceOf(ms, r) == SourceOf(ns, r)
    ensures forall p :: ValidOutput(ns, p) ==>
      ValidOutput(ms, p) && TargetsOf(ms, p) == if p == o then t else TargetsOf(ns, p)
  {
    var x := ns[o.node];
    ns[o.node := x.(outputs := x.outputs[o.index := x.outputs[o.index].(targets := t)])]
  }

  /** Rebinds input `r` to output `o`, leaving every fan-out as it is. */
  function SetSource(ns: seq<NodeRecord>, r: InputRef, o: OutputRef): (ms: seq<NodeRecord>)
    requires ValidInput(ns, r)
    ensures SameNodes(ns, ms)
    ensures forall q :: ValidInput(ns, q) ==>
      ValidInput(ms, q) && SourceOf(ms, q) == if q == r then o else SourceOf(ns, q)
    ensures forall p :: ValidOutput(ns, p) ==> ValidOutput(ms, p) && TargetsOf(ms, p) == TargetsOf(ns, p)
  {
    var x := ns[r.node];
    ns[r.node := x.(inputs := x.inputs[r.index := o])]
  }

  /** Removes input `r` from the fan-out of its source: afterwards no fan-out lists `r`. */
  function Unlink(ns: seq<NodeRecord>, r: InputRef): (ms: seq<NodeRecord>)
    requires SourcesValid(ns) && FanOutSound(ns) && ValidInput(ns, r)
    ensures SameNodes(ns, ms) && SourcesValid(ms) && FanOutSound(ms)
    ensures forall q :: ValidInput(ns, q) ==> ValidInput(ms, q) && SourceOf(ms, q) == SourceOf(ns, q)
    ensures forall p :: ValidOutput(ns, p) ==>
      ValidOutput(ms, p) && TargetsOf(ms, p) == TargetsOf(ns, p) - {r}
    ensures forall q :: ValidInput(ns, q) && q != r ==> (Listed(ms, q) <==> Listed(ns, q))
  {
    var o := SourceOf(ns, r);
    var ms := SetTargets(ns, o, TargetsOf(ns, o) - {r});
    SameNodesTransfer(ns, ms, 0);
    assert forall p :: ValidOutput(ns, p) && p != o ==> r !in TargetsOf(ns, p);
    ms
  }

  /** Adds input `r` to the fan-out of its source. */
  function Link(ns: seq<NodeRecord>, r: InputRef): (ms: seq<NodeRecord>)
    requires SourcesValid(ns) && FanOutSound(ns) && ValidInput(ns, r)
    ensures SameNodes(ns, ms) && SourcesValid(ms) && FanOutSound(ms)
    ensures forall q :: ValidInput(ns, q) ==> ValidInput(ms, q) && SourceOf(ms, q) == SourceOf(ns, q)
    ensures forall p :: ValidOutput(ns, p) ==>
      ValidOutput(ms, p) &&
      TargetsOf(ms, p) == if p == SourceOf(ns, r) then TargetsOf(ns, p) + {r} else TargetsOf(ns, p)
    ensures Listed(ms, r)
    ensures forall q :: ValidInput(ns, q) && q != r ==> (Listed(ms, q) <==> Listed(ns, q))
  {
    var o := SourceOf(ns, r);
    var ms := SetTargets(ns, o, TargetsOf(ns, o) + {r});
    SameNodesTransfer(ns, ms, 0);
    ms
  }

  /** SameNodes is transitive. */
  lemma SameNodesTrans(ns: seq<NodeRecord>, ms: seq<NodeRecord>, ls: seq<NodeRecord>)
    requires SameNodes(ns, ms) && SameNodes(ms, ls)
    ensures SameNodes(ns, ls)
  {
    SameNodesTransfer(ns, ms, 0);
  }

  /** Rebinding an input that no fan-out lists keeps both halves of the invariant. */
  lemma SetSourceUnlinked(ns: seq<NodeRecord>, r: InputRef, o: OutputRef)
    requires SourcesValid(ns) && FanOutSound(ns) && ValidInput(ns, r) && ValidOutput(ns, o)
    requires forall p :: ValidOutput(ns, p) ==> r !in TargetsOf(ns, p)
    ensures SourcesValid(SetSource(ns, r, o)) && FanOutSound(SetSource(ns, r, o))
  {
    var ms := SetSource(ns, r, o);
    SameNodesTransfer(ns, ms, 0);
    forall p, q | ValidOutput(ms, p) && q in TargetsOf(ms, p)
      ensures ValidInput(ms, q) && SourceOf(ms, q) == p
    {
      assert q in TargetsOf(ns, p);
    }
  }

  /**
   * `replace_input_source_output`: input `r` leaves the fan-out of its old
   * source, is bound to `o`, and joins the fan-out of `o`.
   */
  function Rebind(ns: seq<NodeRecord>, r: InputRef, o: OutputRef): (ms: seq<NodeRecord>)
    requires SourcesValid(ns) && FanOutSound(ns) && ValidInput(ns, r) && ValidOutput(ns, o)
    ensures SameNodes(ns, ms) && SourcesValid(ms) && FanOutSound(ms)
  {
    var ns1 := Unlink(ns, r);
    SameNodesTransfer(ns, ns1, 0);
    SetSourceUnlinked(ns1, r, o);
    var ns2 := SetSource(ns1, r, o);
    var ms := Link(ns2, r);
    SameNodesTrans(ns, ns1, ns2);
    SameNodesTrans(ns, ns2, ms);
    ms
  }

  /**
   * After rebinding, `r` is bound to `o` and listed in its fan-out and in no
   * other; every other input keeps its source and whether it is listed.
   */
  lemma RebindSpec(ns: seq<NodeRecord>, r: InputRef, o: OutputRef)
    requires SourcesValid(ns) && FanOutSound(ns) && ValidInput(ns, r) && ValidOutput(ns, o)
    ensures var ms := Rebind(ns, r, o);
      ValidInput(ms, r) && SourceOf(ms, r) == o && Listed(ms, r)
    ensures var ms := Rebind(ns, r, o);
      forall q :: ValidInput(ns, q) && q != r ==> ValidInput(ms, q) && SourceOf(ms, q) == SourceOf(ns, q)
    ensures var ms := Rebind(ns, r, o);
      forall p :: ValidOutput(ns, p) ==>
        ValidOutput(ms, p) &&
        TargetsOf(ms, p) == if p == o then (TargetsOf(ns, p) - {r}) + {r} else TargetsOf(ns, p) - {r}
    ensures var ms := Rebind(ns, r, o);
      forall q :: ValidInput(ns, q) && q != r ==> (Listed(ms, q) <==> Listed(ns, q))
  {
    var ns1 := Unlink(ns, r);
    SameNodesTransfer(ns, ns1, 0);
    SetSourceUnlinked(ns1, r, o);
    var ns2 := SetSource(ns1, r, o);
    SameNodesTransfer(ns1, ns2, 0);
    assert ValidInput(ns2, r) && SourceOf(ns2, r) == o;
    RebindTargets(ns, ns1, ns2, r, o);
    var ms := Link(ns2, r);
    assert ms == Rebind(ns, r, o);
    forall q | ValidInput(ns, q) && q != r
      ensures Listed(ms, q) <==> Listed(ns, q)
    {
      assert Listed(ns1, q) <==> Listed(ns, q);
      assert Listed(ns2, q) <==> Listed(ns1, q);
    }
  }

  /** The fan-outs after the first two steps of a rebind, the input unlinked and rebound. */
  lemma RebindTargets(ns: seq<NodeRecord>, ns1: seq<NodeRecord>, ns2: seq<NodeRecord>, r: InputRef, o: OutputRef)
    requires SourcesValid(ns) && FanOutSound(ns) && ValidInput(ns, r) && ValidOutput(ns, o)
    requires ns1 == Unlink(ns, r) && ns2 == SetSource(ns1, r, o)
    ensures forall p :: ValidOutput(ns, p) ==>
      ValidOutput(ns2, p) && TargetsOf(ns2, p) == TargetsOf(ns, p) - {r}
  {
    SameNodesTransfer(ns, ns1, 0);
    forall p | ValidOutput(ns, p)
      ensures ValidOutput(ns2, p) && TargetsOf(ns2, p) == TargetsOf(ns, p) - {r}
    {
      assert ValidOutput(ns1, p) && TargetsOf(ns1, p) == TargetsOf(ns, p) - {r};
    }
  }

  /** Removes `q` from the fan-out of `o` (`remove_output_target_input`); `q` may stay bound to `o`. */
  function RemoveTarget(ns: seq<NodeRecord>, o: OutputRef, q: InputRef): (ms: seq<NodeRecord>)
    requires SourcesValid(ns) && FanOutSound(ns) && ValidOutput(ns, o)
    ensures SameNodes(ns, ms) && SourcesValid(ms) && FanOutSound(ms)
    ensures forall r :: ValidInput(ns, r) ==> ValidInput(ms, r) && SourceOf(ms, r) == SourceOf(ns, r)
    ensures forall p :: ValidOutput(ns, p) ==>
      ValidOutput(ms, p) && TargetsOf(ms, p) == if p == o then TargetsOf(ns, p) - {q} else TargetsOf(ns, p)
    ensures forall r :: ValidInput(ns, r) && r != q ==> (Listed(ms, r) <==> Listed(ns, r))
    ensures ValidInput(ns, q) && SourceOf(ns, q) == o ==> !Listed(ms, q)
  {
    var ms := SetTargets(ns, o, TargetsOf(ns, o) - {q});
    SameNodesTransfer(ns, ms, 0);
    ms
  }

  /* ---------- Node bookkeeping ---------- */

  /** Replaces the bookkeeping of node `n`. */
  function WithInfo(ns: seq<NodeRecord>, n: NodeId, info: NodeInfo): (ms: seq<NodeRecord>)
    requires n < |ns|
    ensures |ms| == |ns| && ms[n].info == info
    ensures forall m :: 0 <= m < |ns| && m != n ==> ms[m] == ns[m]
    ensures ms[n].inputs == ns[n].inputs && ms[n].outputs == ns[n].outputs
  {
    ns[n := ns[n].(info := info)]
  }

  /** Nodes whose slots are unchanged: every edge and descriptor is the same. */
  lemma SameSlotsTransfer(ns: seq<NodeRecord>, ms: seq<NodeRecord>)
    requires |ms| == |ns|
    requires forall m :: 0 <= m < |ns| ==> ms[m].inputs == ns[m].inputs && ms[m].outputs == ns[m].outputs
    ensures forall r :: ValidInput(ns, r) <==> ValidInput(ms, r)
    ensures forall o :: ValidOutput(ns, o) <==> ValidOutput(ms, o)
    ensures forall r :: ValidInput(ns, r) ==> SourceOf(ms, r) == SourceOf(ns, r)
    ensures forall o :: ValidOutput(ns, o) ==> TargetsOf(ms, o) == TargetsOf(ns, o)
    ensures SourcesValid(ns) ==> SourcesValid(ms) && (Linked(ms) <==> Linked(ns))
    ensures FanOutSound(ns) ==> FanOutSound(ms)
  {
    forall r
      ensures ValidInput(ns, r) <==> ValidInput(ms, r)
    {
      if r.node < |ns| {
        assert ms[r.node].inputs == ns[r.node].inputs;
      }
    }
    forall o
      ensures ValidOutput(ns, o) <==> ValidOutput(ms, o)
    {
      if o.node < |ns| {
        assert ms[o.node].outputs == ns[o.node].outputs;
      }
    }
    if SourcesValid(ns) {
      assert forall r :: ValidInput(ns, r) ==> (Listed(ms, r) <==> Listed(ns, r));
    }
  }

  /**
   * Changing only bookkeeping that the invariant does not mention keeps the
   * invariant and leaves every edge, and so `Linked`, as it was.
   */
  lemma WithInfoPreserves(ns: seq<NodeRecord>, next: nat, n: NodeId, info: NodeInfo)
    requires WellFormed(ns, next) && n < |ns|
    requires info.kind == ns[n].info.kind && info.instanceId == ns[n].info.instanceId
    requires info.uniqueName == ns[n].info.uniqueName
    requires forall d :: d in info.controlDependencies ==> d < |ns|
    ensures WellFormed(WithInfo(ns, n, info), next)
    ensures Linked(WithInfo(ns, n, info)) <==> Linked(ns)
  {
    var ms := WithInfo(ns, n, info);
    SameSlotsTransfer(ns, ms);
    forall m | 0 <= m < |ms|
      ensures NodeWellFormed(ms, m, next)
    {
      assert NodeWellFormed(ns, m, next);
    }
  }

  /* ---------- Building a node ---------- */

  /** Output slots carrying `ds`, none of them feeding anything yet. */
  function FreshOutputs(ds: seq<Descriptor>): (outs: seq<OutputSlot>)
    ensures |outs| == |ds|
    ensures forall k :: 0 <= k < |ds| ==> outs[k] == OutputSlot(ds[k], {})
  {
    seq(|ds|, k requires 0 <= k < |ds| => OutputSlot(ds[k], {}))
  }

  /**
   * Appends a node of kind `kind` with instance id `next`, bound to `args`,
   * with outputs `ds`; no fan-out lists its inputs yet.
   */
  function AppendNode(ns: seq<NodeRecord>, kind: OpKind, next: nat, args: seq<OutputRef>, ds: seq<Descriptor>)
    : (ms: seq<NodeRecord>)
    ensures |ms| == |ns| + 1 && ms[..|ns|] == ns
    ensures ms[|ns|] == NodeRecord(FreshInfo(kind, next), args, FreshOutputs(ds))
  {
    ns + [NodeRecord(FreshInfo(kind, next), args, FreshOutputs(ds))]
  }

  /** The appended node keeps the node-level half of the invariant, with the counter advanced. */
  lemma AppendNodeInfo(ns: seq<NodeRecord>, kind: OpKind, next: nat, args: seq<OutputRef>, ds: seq<Descriptor>)
    requires WellFormed(ns, next)
    requires |args| == Arity(kind) && |ds| == OutputCount(kind)
    requires forall k :: 0 <= k < |args| ==> ValidOutput(ns, args[k])
    ensures var ms := AppendNode(ns, kind, next, args, ds);
      AllNodesWellFormed(ms, next + 1) && IdsDistinct(ms)
  {
    var ms := AppendNode(ns, kind, next, args, ds);
    var m := |ns|;
    assert forall n :: 0 <= n < m ==> ms[n] == ns[n];
    var next' := next + 1;
    forall n | 0 <= n < |ms|
      ensures NodeWellFormed(ms, n, next')
    {
      if n < m {
        assert NodeWellFormed(ns, n, next);
      }
    }
    forall a | 0 <= a < m
      ensures ns[a].info.instanceId < next
    {
      assert NodeWellFormed(ns, a, next);
    }
  }

  /** The appended node keeps the invariant (with the counter advanced) and every old edge. */
  lemma AppendNodeSpec(ns: seq<NodeRecord>, kind: OpKind, next: nat, args: seq<OutputRef>, ds: seq<Descriptor>)
    requires WellFormed(ns, next)
    requires |args| == Arity(kind) && |ds| == OutputCount(kind)
    requires forall k :: 0 <= k < |args| ==> ValidOutput(ns, args[k])
    ensures var ms := AppendNode(ns, kind, next, args, ds);
      && AllNodesWellFormed(ms, next + 1)
      && IdsDistinct(ms) && SourcesValid(ms) && FanOutSound(ms)
    ensures var ms := AppendNode(ns, kind, next, args, ds);
      forall k :: 0 <= k < |args| ==> ValidInput(ms, InputRef(|ns|, k)) && SourceOf(ms, InputRef(|ns|, k)) == args[k]
    ensures var ms := AppendNode(ns, kind, next, args, ds);
      forall r :: ValidInput(ns, r) ==> ValidInput(ms, r) && SourceOf(ms, r) == SourceOf(ns, r)
    ensures var ms := AppendNode(ns, kind, next, args, ds);
      forall o :: ValidOutput(ns, o) ==>
        ValidOutput(ms, o) && TargetsOf(ms, o) == TargetsOf(ns, o) && DescriptorOf(ms, o) == DescriptorOf(ns, o)
    ensures var ms := AppendNode(ns, kind, next, args, ds);
      forall k :: 0 <= k < |ds| ==> ValidOutput(ms, OutputRef(|ns|, k)) && TargetsOf(ms, OutputRef(|ns|, k)) == {}
    ensures var ms := AppendNode(ns, kind, next, args, ds);
      forall r :: ValidInput(ms, r) ==> ValidInput(ns, r) || (r.node == |ns| && r.index < |args|)
  {
    var ms := AppendNode(ns, kind, next, args, ds);
    var m := |ns|;
    assert forall n :: 0 <= n < m ==> ms[n] == ns[n];
    AppendNodeInfo(ns, kind, next, args, ds);
    forall r | ValidInput(ms, r)
      ensures ValidOutput(ms, SourceOf(ms, r))
    {
      if r.node < m {
        assert ValidInput(ns, r) && SourceOf(ms, r) == SourceOf(ns, r);
      } else {
        assert SourceOf(ms, r) == args[r.index];
      }
    }
    forall o, r | ValidOutput(ms, o) && r in TargetsOf(ms, o)
      ensures ValidInput(ms, r) && SourceOf(ms, r) == o
    {
      assert o.node < m && ValidOutput(ns, o) && r in TargetsOf(ns, o);
      assert ValidInput(ns, r) && ms[r.node] == ns[r.node];
    }
  }

  /** The outputs a new node's inputs are bound to: output 0 of each argument node. */
  function ArgOutputs(args: seq<NodeId>): (refs: seq<OutputRef>)
    ensures |refs| == |args|
    ensures forall k :: 0 <= k < |args| ==> refs[k] == OutputRef(args[k], 0)
  {
    seq(|args|, k requires 0 <= k < |args| => OutputRef(args[k], 0))
  }

  /**
   * `check_single_output_args`: the position of the first argument node that
   * does not have exactly one output, or None when every argument has one.
   */
  function MultiOutputArg(ns: seq<NodeRecord>, args: seq<NodeId>): (r: Option<nat>)
    requires forall k :: 0 <= k < |args| ==> args[k] < |ns|
    ensures r.None? <==> forall k :: 0 <= k < |args| ==> |ns[args[k]].outputs| == 1
    ensures r.Some? ==>
      && r.value < |args| && |ns[args[r.value]].outputs| != 1
      && forall j :: 0 <= j < r.value ==> |ns[args[j]].outputs| == 1
    decreases |args|
  {
    if |args| == 0 then None
    else if |ns[args[0]].outputs| != 1 then Some(0)
    else match MultiOutputArg(ns, args[1..])
      case None => None
      case Some(i) => Some(i + 1)
  }

  /** The argument check depends only on the argument nodes' output counts, so an edit that keeps them keeps its verdict. */
  lemma {:induction false} MultiOutputArgFrame(ns: seq<NodeRecord>, ms: seq<NodeRecord>, args: seq<NodeId>)
    requires |ns| <= |ms|
    requires forall a :: 0 <= a < |ns| ==> |ms[a].outputs| == |ns[a].outputs|
    requires forall k :: 0 <= k < |args| ==> args[k] < |ns|
    ensures MultiOutputArg(ms, args) == MultiOutputArg(ns, args)
    decreases |args|
  {
    if |args| > 0 {
      MultiOutputArgFrame(ns, ms, args[1..]);
    }
  }

  /** Once `set_output_size` gives a node a second output, no node can take it as an argument. */
  lemma GrownArgumentRefused(ns: seq<NodeRecord>, n: NodeId, size: nat, args: seq<NodeId>)
    requires n < |ns| && |ns[n].outputs| <= size && 2 <= size
    requires forall k :: 0 <= k < |args| ==> args[k] < |ns|
    requires n in args
    ensures MultiOutputArg(GrowOutputs(ns, n, size), args).Some?
  {
    var k :| 0 <= k < |args| && args[k] == n;
    assert |GrowOutputs(ns, n, size)[args[k]].outputs| != 1;
  }

  /** The descriptors of the outputs `args` names, as a new node's inputs see them. */
  function ArgDescriptors(ns: seq<NodeRecord>, args: seq<OutputRef>): (ds: seq<Descriptor>)
    requires forall k :: 0 <= k < |args| ==> ValidOutput(ns, args[k])
    ensures |ds| == |args|
  {
    seq(|args|, k requires 0 <= k < |args| => DescriptorOf(ns, args[k]))
  }

  /* ---------- Growing the outputs ---------- */

  /** The output slot `set_output_size` adds: dynamic element type, dynamic rank, no fan-out. */
  const DynamicSlot := OutputSlot(Descriptor(Dynamic, RankDynamic), {})

  /** `set_output_size(size)` on node `n`, when `size` does not shrink it. */
  function GrowOutputs(ns: seq<NodeRecord>, n: NodeId, size: nat): (ms: seq<NodeRecord>)
    requires n < |ns| && |ns[n].outputs| <= size
    ensures |ms| == |ns|
    ensures forall m :: 0 <= m < |ns| && m != n ==> ms[m] == ns[m]
    ensures ms[n].info == ns[n].info && ms[n].inputs == ns[n].inputs
    ensures |ms[n].outputs| == size && ms[n].outputs[..|ns[n].outputs|] == ns[n].outputs
    ensures forall k :: |ns[n].outputs| <= k < size ==> ms[n].outputs[k] == DynamicSlot
  {
    var outs := ns[n].outputs;
    ns[n := ns[n].(outputs := outs + seq(size - |outs|, _ => DynamicSlot))]
  }

  /** Growing the outputs keeps every input and every old output slot; the new slots are dynamic. */
  lemma GrowOutputsSlots(ns: seq<NodeRecord>, n: NodeId, size: nat)
    requires n < |ns| && |ns[n].outputs| <= size
    ensures var ms := GrowOutputs(ns, n, size);
      forall r :: ValidInput(ns, r) <==> ValidInput(ms, r)
    ensures var ms := GrowOutputs(ns, n, size);
      forall r :: ValidInput(ns, r) ==> SourceOf(ms, r) == SourceOf(ns, r)
    ensures var ms := GrowOutputs(ns, n, size);
      forall o :: ValidOutput(ns, o) ==> ValidOutput(ms, o) && ms[o.node].outputs[o.index] == ns[o.node].outputs[o.index]
    ensures var ms := GrowOutputs(ns, n, size);
      forall o :: ValidOutput(ms, o) && !ValidOutput(ns, o) ==> ms[o.node].outputs[o.index] == DynamicSlot
  {
    var ms := GrowOutputs(ns, n, size);
    var old_outs := ns[n].outputs;
    forall o | ValidOutput(ns, o)
      ensures ValidOutput(ms, o) && ms[o.node].outputs[o.index] == ns[o.node].outputs[o.index]
    {
      if o.node == n {
        assert ms[n].outputs[o.index] == ms[n].outputs[..|old_outs|][o.index];
      }
    }
    forall r
      ensures ValidInput(ns, r) <==> ValidInput(ms, r)
    {
      if r.node < |ns| {
        assert ms[r.node].inputs == ns[r.node].inputs;
      }
    }
    forall r | ValidInput(ns, r)
      ensures SourceOf(ms, r) == SourceOf(ns, r)
    {
      assert ms[r.node].inputs == ns[r.node].inputs;
    }
  }

  /** Growing the outputs keeps the invariant, every old slot and every edge. */
  lemma GrowOutputsPreserves(ns: seq<NodeRecord>, next: nat, n: NodeId, size: nat)
    requires WellFormed(ns, next) && n < |ns| && |ns[n].outputs| <= size
    ensures WellFormed(GrowOutputs(ns, n, size), next)
    ensures var ms := GrowOutputs(ns, n, size);
      forall r :: ValidInput(ns, r) <==> ValidInput(ms, r)
    ensures var ms := GrowOutputs(ns, n, size);
      forall r :: ValidInput(ns, r) ==> SourceOf(ms, r) == SourceOf(ns, r)
    ensures var ms := GrowOutputs(ns, n, size);
      forall o :: ValidOutput(ns, o) ==>
        ValidOutput(ms, o) && TargetsOf(ms, o) == TargetsOf(ns, o) && DescriptorOf(ms, o) == DescriptorOf(ns, o)
    ensures Linked(GrowOutputs(ns, n, size)) <==> Linked(ns)
  {
    var ms := GrowOutputs(ns, n, size);
    GrowOutputsSlots(ns, n, size);
    forall m | 0 <= m < |ms|
      ensures NodeWellFormed(ms, m, next)
    {
      assert NodeWellFormed(ns, m, next);
    }
    assert SourcesValid(ms) by {
      forall r | ValidInput(ms, r)
        ensures ValidOutput(ms, SourceOf(ms, r))
      {
        assert ValidInput(ns, r);
      }
    }
    assert FanOutSound(ms) by {
      forall o, r | ValidOutput(ms, o) && r in TargetsOf(ms, o)
        ensures ValidInput(ms, r) && SourceOf(ms, r) == o
      {
        assert ValidOutput(ns, o) && r in TargetsOf(ns, o);
      }
    }
    assert Linked(ms) <==> Linked(ns) by {
      forall r | ValidInput(ns, r)
        ensures Listed(ms, r) <==> Listed(ns, r)
      {
        assert SourceOf(ms, r) == SourceOf(ns, r);
      }
    }
  }

  /** The inputs among the first `k` of node `m` that are bound to `o`. */
  function FedBy(m: NodeId, args: seq<OutputRef>, k: nat, o: OutputRef): (t: set<InputRef>)
    requires k <= |args|
    ensures forall q :: q in t <==> q.node == m && q.index < k && args[q.index] == o
  {
    set j | 0 <= j < k && args[j] == o :: InputRef(m, j)
  }

  /** Inputs `0 .. k - 1` of node `m` have joined their sources' fan-outs, and nothing else changed. */
  ghost predicate LinkedUpTo(ns: seq<NodeRecord>, ms: seq<NodeRecord>, m: NodeId, args: seq<OutputRef>, k: nat)
    requires SourcesValid(ns) && k <= |args|
  {
    && SameNodes(ns, ms) && SourcesValid(ms) && FanOutSound(ms)
    && (forall q :: ValidInput(ns, q) ==> ValidInput(ms, q) && SourceOf(ms, q) == SourceOf(ns, q))
    && (forall o :: ValidOutput(ns, o) ==> ValidOutput(ms, o) && TargetsOf(ms, o) == TargetsOf(ns, o) + FedBy(m, args, k, o))
    && (forall j :: 0 <= j < k ==> ValidInput(ms, InputRef(m, j)) && Listed(ms, InputRef(m, j)))
    && (forall q :: ValidInput(ns, q) && q.node != m ==> (Listed(ms, q) <==> Listed(ns, q)))
  }

  /** Before the input loop, nothing is linked yet. */
  lemma LinkedUpToStart(ns: seq<NodeRecord>, m: NodeId, args: seq<OutputRef>)
    requires SourcesValid(ns) && FanOutSound(ns)
    ensures LinkedUpTo(ns, ns, m, args, 0)
  {
    SameNodesTransfer(ns, ns, 0);
    assert forall o :: ValidOutput(ns, o) ==> FedBy(m, args, 0, o) == {};
  }

  /** The inputs of `m` fed by `o` grow by input `k` exactly when `args[k]` is `o`. */
  lemma FedByStep(m: NodeId, args: seq<OutputRef>, k: nat, o: OutputRef)
    requires k < |args|
    ensures FedBy(m, args, k + 1, o) == FedBy(m, args, k, o) + (if args[k] == o then {InputRef(m, k)} else {})
  {
  }

  /** One turn of the input loop: linking input `k` extends `LinkedUpTo` from `k` to `k + 1`. */
  lemma LinkInputsStep(ns: seq<NodeRecord>, ms: seq<NodeRecord>, m: NodeId, args: seq<OutputRef>, k: nat)
    requires SourcesValid(ns) && k < |args|
    requires m < |ns| && |ns[m].inputs| == |args|
    requires forall j :: 0 <= j < |args| ==> ns[m].inputs[j] == args[j]
    requires LinkedUpTo(ns, ms, m, args, k)
    ensures ValidInput(ms, InputRef(m, k))
    ensures LinkedUpTo(ns, Link(ms, InputRef(m, k)), m, args, k + 1)
  {
    var r := InputRef(m, k);
    assert ValidInput(ns, r);
    var ls := Link(ms, r);
    SameNodesTrans(ns, ms, ls);
    assert SourceOf(ms, r) == args[k];
    forall o | ValidOutput(ns, o)
      ensures ValidOutput(ls, o) && TargetsOf(ls, o) == TargetsOf(ns, o) + FedBy(m, args, k + 1, o)
    {
      assert ValidOutput(ms, o);
      FedByStep(m, args, k, o);
    }
    forall j | 0 <= j < k + 1
      ensures ValidInput(ls, InputRef(m, j)) && Listed(ls, InputRef(m, j))
    {
      if j < k {
        assert ValidInput(ms, InputRef(m, j)) && Listed(ms, InputRef(m, j));
      }
    }
    forall q | ValidInput(ns, q) && q.node != m
      ensures Listed(ls, q) <==> Listed(ns, q)
    {
      assert ValidInput(ms, q) && q != r;
    }
  }

  /**
   * The input loop of the node constructor: input `k` of the new node `m`,
   * already bound to `args[k]`, joins the fan-out of `args[k]`, for each `k`
   * in turn.
   */
  method LinkInputs(ns: seq<NodeRecord>, m: NodeId, args: seq<OutputRef>) returns (ms: seq<NodeRecord>)
    requires SourcesValid(ns) && FanOutSound(ns)
    requires m < |ns| && |ns[m].inputs| == |args|
    requires forall k :: 0 <= k < |args| ==> ns[m].inputs[k] == args[k]
    ensures SameNodes(ns, ms) && SourcesValid(ms) && FanOutSound(ms)
    ensures forall q :: ValidInput(ns, q) ==> ValidInput(ms, q) && SourceOf(ms, q) == SourceOf(ns, q)
    ensures forall o :: ValidOutput(ns, o) ==>
      ValidOutput(ms, o) && TargetsOf(ms, o) == TargetsOf(ns, o) + FedBy(m, args, |args|, o)
    ensures forall k :: 0 <= k < |args| ==> ValidInput(ms, InputRef(m, k)) && Listed(ms, InputRef(m, k))
    ensures forall q :: ValidInput(ns, q) && q.node != m ==> (Listed(ms, q) <==> Listed(ns, q))
  {
    ms := ns;
    LinkedUpToStart(ns, m, args);
    var k := 0;
    while k < |args|
      invariant 0 <= k <= |args|
      invariant LinkedUpTo(ns, ms, m, args, k)
    {
      LinkInputsStep(ns, ms, m, args, k);
      ms := Link(ms, InputRef(m, k));
      k := k + 1;
    }
  }

  /**
   * The node constructor once inference has produced `ds`: appends the node
   * with instance id `next`, binds its inputs to `args` and adds each input
   * to its source's fan-out.
   */
  method BuildNode(ns: seq<NodeRecord>, kind: OpKind, next: nat, args: seq<OutputRef>, ds: seq<Descriptor>)
    returns (ms: seq<NodeRecord>)
    requires WellFormed(ns, next)
    requires |args| == Arity(kind) && |ds| == OutputCount(kind)
    requires forall k :: 0 <= k < |args| ==> ValidOutput(ns, args[k])
    ensures WellFormed(ms, next + 1)
    ensures |ms| == |ns| + 1
    ensures var m := |ns|;
      && ms[m].info == FreshInfo(kind, next)
      && |ms[m].inputs| == |args|
      && (forall k :: 0 <= k < |args| ==> SourceOf(ms, InputRef(m, k)) == args[k])
      && |ms[m].outputs| == |ds|
      && (forall k :: 0 <= k < |ds| ==>
            DescriptorOf(ms, OutputRef(m, k)) == ds[k] && TargetsOf(ms, OutputRef(m, k)) == {})
    ensures forall q :: ValidInput(ns, q) ==> ValidInput(ms, q) && SourceOf(ms, q) == SourceOf(ns, q)
    ensures forall a :: 0 <= a < |ns| ==> ms[a].info == ns[a].info && InstanceLess(ms[a].info, ms[|ns|].info)
    ensures forall o :: ValidOutput(ns, o) ==>
      && ValidOutput(ms, o)
      && DescriptorOf(ms, o) == DescriptorOf(ns, o)
      && TargetsOf(ms, o) == TargetsOf(ns, o) + FedBy(|ns|, args, |args|, o)
    ensures forall a :: 0 <= a < |ns| ==> |ms[a].outputs| == |ns[a].outputs|
    ensures Linked(ns) ==> Linked(ms)
  {
    var m := |ns|;
    AppendNodeSpec(ns, kind, next, args, ds);
    var start := AppendNode(ns, kind, next, args, ds);
    ms := LinkInputs(start, m, args);
    SameNodesTransfer(start, ms, next + 1);
    forall a | 0 <= a < m
      ensures ms[a].info == ns[a].info && InstanceLess(ms[a].info, ms[m].info)
    {
      assert NodeWellFormed(ns, a, next) && start[a] == ns[a];
    }
    forall o | ValidOutput(start, o) && o.node == m
      ensures TargetsOf(ms, o) == {}
    {
      assert forall j :: 0 <= j < |args| ==> args[j].node < m;
      assert FedBy(m, args, |args|, o) == {};
    }
    if Linked(ns) {
      forall q | ValidInput(ms, q)
        ensures Listed(ms, q)
      {
        if q.node < m {
          assert ValidInput(ns, q) && Listed(ns, q);
          assert Listed(start, q);
        }
      }
    }
  }

  /* ---------- Re-running inference ---------- */

  /** The descriptors the inputs of node `n` currently see. */
  function InputDescriptors(ns: seq<NodeRecord>, n: NodeId): (ds: seq<Descriptor>)
    requires SourcesValid(ns) && n < |ns|
    ensures |ds| == |ns[n].inputs|
    ensures forall k :: 0 <= k < |ds| ==> ds[k] == DescriptorOf(ns, SourceOf(ns, InputRef(n, k)))
  {
    seq(|ns[n].inputs|, k requires 0 <= k < |ns[n].inputs| =>
      assert ValidInput(ns, InputRef(n, k));
      DescriptorOf(ns, SourceOf(ns, InputRef(n, k))))
  }

  /** `set_output_type` for outputs `0 .. |ds| - 1` of node `n`. */
  function SetOutputTypes(ns: seq<NodeRecord>, n: NodeId, ds: seq<Descriptor>): (ms: seq<NodeRecord>)
    requires n < |ns| && |ds| <= |ns[n].outputs|
    ensures |ms| == |ns|
    ensures forall m :: 0 <= m < |ns| && m != n ==> ms[m] == ns[m]
    ensures ms[n].info == ns[n].info && ms[n].inputs == ns[n].inputs && |ms[n].outputs| == |ns[n].outputs|
    ensures forall k :: 0 <= k < |ns[n].outputs| ==>
      ms[n].outputs[k].targets == ns[n].outputs[k].targets &&
      ms[n].outputs[k].descriptor == if k < |ds| then ds[k] else ns[n].outputs[k].descriptor
  {
    var outs := ns[n].outputs;
    ns[n := ns[n].(outputs := seq(|outs|, k requires 0 <= k < |outs| =>
      if k < |ds| then outs[k].(descriptor := ds[k]) else outs[k]))]
  }

  /** `revalidate_and_infer_types` on node `n`: its op's rule applied to what its inputs see. */
  function Revalidated(ns: seq<NodeRecord>, next: nat, n: NodeId): Result<seq<NodeRecord>, ValidationFailure>
    requires WellFormed(ns, next) && n < |ns|
  {
    assert NodeWellFormed(ns, n, next);
    match Infer(ns[n].info.kind, InputDescriptors(ns, n))
    case Err(e) => Err(e)
    case Ok(ds) => Ok(SetOutputTypes(ns, n, ds))
  }

  /** `ms` has the nodes and edges of `ns`; only output descriptors may differ. */
  ghost predicate SameEdges(ns: seq<NodeRecord>, ms: seq<NodeRecord>) {
    && |ns| == |ms|
    && (forall n :: 0 <= n < |ns| ==>
          ms[n].info == ns[n].info && ms[n].inputs == ns[n].inputs && |ms[n].outputs| == |ns[n].outputs|)
    && (forall o :: ValidOutput(ns, o) ==> TargetsOf(ms, o) == TargetsOf(ns, o))
  }

  /** Nodes with the same edges keep the invariant and the two-way agreement of edges. */
  lemma SameEdgesTransfer(ns: seq<NodeRecord>, ms: seq<NodeRecord>, next: nat)
    requires SameEdges(ns, ms)
    ensures forall r :: ValidInput(ns, r) <==> ValidInput(ms, r)
    ensures forall o :: ValidOutput(ns, o) <==> ValidOutput(ms, o)
    ensures forall r :: ValidInput(ns, r) ==> SourceOf(ms, r) == SourceOf(ns, r)
    ensures WellFormed(ns, next) ==> WellFormed(ms, next) && (Linked(ms) <==> Linked(ns))
  {
    assert forall r :: ValidInput(ns, r) <==> ValidInput(ms, r) by {
      forall r
        ensures ValidInput(ns, r) <==> ValidInput(ms, r)
      {
        if r.node < |ns| {
          assert ms[r.node].inputs == ns[r.node].inputs;
        }
      }
    }
    assert forall o :: ValidOutput(ns, o) <==> ValidOutput(ms, o) by {
      forall o
        ensures ValidOutput(ns, o) <==> ValidOutput(ms, o)
      {
        if o.node < |ns| {
          assert |ms[o.node].outputs| == |ns[o.node].outputs|;
        }
      }
    }
    forall r | ValidInput(ns, r)
      ensures SourceOf(ms, r) == SourceOf(ns, r)
    {
      assert ms[r.node].inputs == ns[r.node].inputs;
    }
    if WellFormed(ns, next) {
      forall m | 0 <= m < |ms|
        ensures NodeWellFormed(ms, m, next)
      {
        assert NodeWellFormed(ns, m, next);
      }
      assert SourcesValid(ms);
      assert FanOutSound(ms) by {
        forall o, r | ValidOutput(ms, o) && r in TargetsOf(ms, o)
          ensures ValidInput(ms, r) && SourceOf(ms, r) == o
        {
          assert ValidOutput(ns, o) && r in TargetsOf(ns, o);
        }
      }
      assert Linked(ms) <==> Linked(ns) by {
        forall r | ValidInput(ns, r)
          ensures Listed(ms, r) <==> Listed(ns, r)
        {
          assert SourceOf(ms, r) == SourceOf(ns, r);
        }
      }
    }
  }

  /** Setting output types keeps the invariant and every edge. */
  lemma SetOutputTypesPreserves(ns: seq<NodeRecord>, next: nat, n: NodeId, ds: seq<Descriptor>)
    requires WellFormed(ns, next) && n < |ns| && |ds| <= |ns[n].outputs|
    ensures SameEdges(ns, SetOutputTypes(ns, n, ds))
    ensures WellFormed(SetOutputTypes(ns, n, ds), next)
    ensures Linked(SetOutputTypes(ns, n, ds)) <==> Linked(ns)
  {
    var ms := SetOutputTypes(ns, n, ds);
    forall o | ValidOutput(ns, o)
      ensures TargetsOf(ms, o) == TargetsOf(ns, o)
    {
      if o.node != n {
        assert ms[o.node] == ns[o.node];
      }
    }
    SameEdgesTransfer(ns, ms, next);
  }

  /**
   * Re-running inference with nothing changed in between reproduces the same
   * state, provided the node does not read its own outputs (data edges are acyclic).
   */
  lemma RevalidateIdempotent(ns: seq<NodeRecord>, next: nat, n: NodeId)
    requires WellFormed(ns, next) && n < |ns|
    requires forall k :: 0 <= k < |ns[n].inputs| ==> ns[n].inputs[k].node != n
    requires Revalidated(ns, next, n).Ok?
    ensures WellFormed(Revalidated(ns, next, n).value, next)
    ensures Revalidated(Revalidated(ns, next, n).value, next, n) == Revalidated(ns, next, n)
  {
    assert NodeWellFormed(ns, n, next);
    var ds := Infer(ns[n].info.kind, InputDescriptors(ns, n)).value;
    var ms := SetOutputTypes(ns, n, ds);
    SetOutputTypesPreserves(ns, next, n, ds);
    SameEdgesTransfer(ns, ms, next);
    assert InputDescriptors(ms, n) == InputDescriptors(ns, n) by {
      forall k | 0 <= k < |ns[n].inputs|
        ensures InputDescriptors(ms, n)[k] == InputDescriptors(ns, n)[k]
      {
        assert ValidInput(ns, InputRef(n, k));
        var o := SourceOf(ns, InputRef(n, k));
        assert o.node != n;
      }
    }
    var ls := SetOutputTypes(ms, n, ds);
    assert ls == ms by {
      assert forall m :: 0 <= m < |ms| && m != n ==> ls[m] == ms[m];
      assert ls[n].outputs == ms[n].outputs;
    }
  }

  /* ---------- Identity and names ---------- */

  /** `operator<` restricted to the arena's nodes is a strict total order. */
  lemma InstanceOrder(ns: seq<NodeRecord>, next: nat)
    requires WellFormed(ns, next)
    ensures forall a :: 0 <= a < |ns| ==> !InstanceLess(ns[a].info, ns[a].info)
    ensures forall a, b, c ::
      (0 <= a < |ns| && 0 <= b < |ns| && 0 <= c < |ns| &&
       InstanceLess(ns[a].info, ns[b].info) && InstanceLess(ns[b].info, ns[c].info)) ==>
      InstanceLess(ns[a].info, ns[c].info)
    ensures forall a, b :: 0 <= a < |ns| && 0 <= b < |ns| && a != b ==>
      InstanceLess(ns[a].info, ns[b].info) || InstanceLess(ns[b].info, ns[a].info)
  {
  }

  /** The number of trailing decimal digits of `s`. */
  function DigitSuffixLength(s: string): (k: nat)
    ensures k <= |s|
  {
    if |s| == 0 || !IsDigit(s[|s| - 1]) then 0 else 1 + DigitSuffixLength(s[..|s| - 1])
  }

  /** In `prefix_digits` the trailing digits are exactly `digits`. */
  lemma {:induction false} DigitSuffixOfName(p: string, d: string)
    requires forall i :: 0 <= i < |d| ==> IsDigit(d[i])
    ensures DigitSuffixLength(p + "_" + d) == |d|
    ensures (p + "_" + d)[|p + "_" + d| - |d|..] == d
  {
    var s := p + "_" + d;
    if |d| > 0 {
      var d' := d[..|d| - 1];
      assert s[..|s| - 1] == p + "_" + d';
      DigitSuffixOfName(p, d');
    }
  }

  /** A name of the form `prefix_digits` determines its digits. */
  lemma UnderscoreSuffix(p1: string, d1: string, p2: string, d2: string)
    requires p1 + "_" + d1 == p2 + "_" + d2
    requires forall i :: 0 <= i < |d1| ==> IsDigit(d1[i])
    requires forall i :: 0 <= i < |d2| ==> IsDigit(d2[i])
    ensures d1 == d2
  {
    DigitSuffixOfName(p1, d1);
    DigitSuffixOfName(p2, d2);
  }

  /** Distinct nodes of the arena have distinct unique names. */
  lemma UniqueNamesDistinct(ns: seq<NodeRecord>, next: nat, a: NodeId, b: NodeId)
    requires WellFormed(ns, next) && a < |ns| && b < |ns| && a != b
    ensures ns[a].info.uniqueName != ns[b].info.uniqueName
  {
    assert NodeWellFormed(ns, a, next) && NodeWellFormed(ns, b, next);
    var x, y := ns[a].info, ns[b].info;
    if x.uniqueName == y.uniqueName {
      UnderscoreSuffix(Description(x.kind), Decimal(x.instanceId), Description(y.kind), Decimal(y.instanceId));
      DecimalInjective(x.instanceId, y.instanceId);
    }
  }
}
