/**
 * The `Node` methods of the IR as operations on one graph. The graph holds
 * its nodes in an arena; every method names the node it acts on by its id,
 * where ngraph calls the method on a `Node` object.
 */
module NodeGraph {
  import opened Results
  import opened Shapes
  import opened Diagnostics
  import opened Ops
  import opened Arena

  class Graph {
    /** The node records, addressed by id. */
    var nodes: seq<NodeRecord>
    /** The instance id the next node built receives. */
    var nextInstanceId: nat

    /** Slots in range, input sources valid, fan-outs sound, instance ids distinct and issued. */
    ghost predicate Valid()
      reads this
    {
      WellFormed(nodes, nextInstanceId)
    }

    /** Every input also appears in the fan-out of its source. */
    ghost predicate EdgesLinked()
      reads this
    {
      SourcesValid(nodes) && Linked(nodes)
    }

    /** An empty graph whose first node will receive instance id `firstInstanceId`. */
    constructor (firstInstanceId: nat)
      ensures Valid() && EdgesLinked()
      ensures nodes == [] && nextInstanceId == firstInstanceId
    {
      nodes := [];
      nextInstanceId := firstInstanceId;
    }

    /* ---------- Construction and inference ---------- */

    /**
     * Builds a node of kind `kind` from the argument nodes `args`. Every
     * argument must have exactly one output; otherwise nothing happens and
     * the first offending argument is named. Then the node takes the next
     * instance id and the op's inference rule runs on output 0 of each
     * argument. A validation failure leaves the nodes as they were, with the
     * instance id used up; on success input k is bound to output 0 of
     * `args[k]` and joins its fan-out.
     */
    method MakeNode(kind: OpKind, args: seq<NodeId>) returns (r: Result<NodeId, ConstructionFailure>)
      requires Valid()
      requires |args| == Arity(kind)
      requires forall k :: 0 <= k < |args| ==> args[k] < |nodes|
      modifies this
      ensures Valid()
      ensures r.Err? && r.error.Misuse? <==> MultiOutputArg(old(nodes), args).Some?
      ensures r.Err? && r.error.Misuse? ==>
        && r.error.usage == ArgumentNotSingleOutput(MultiOutputArg(old(nodes), args).value)
        && nodes == old(nodes) && nextInstanceId == old(nextInstanceId)
      ensures MultiOutputArg(old(nodes), args).None? ==>
        && nextInstanceId == old(nextInstanceId) + 1
        && (r.Ok? <==> Infer(kind, ArgDescriptors(old(nodes), ArgOutputs(args))).Ok?)
      ensures r.Err? && r.error.Invalid? ==>
        r.error.validation == Infer(kind, ArgDescriptors(old(nodes), ArgOutputs(args))).error && nodes == old(nodes)
      ensures r.Ok? ==> r.value == |old(nodes)| && |nodes| == |old(nodes)| + 1
      ensures r.Ok? ==>
        var m := |old(nodes)|;
        var ds := Infer(kind, ArgDescriptors(old(nodes), ArgOutputs(args))).value;
        && nodes[m].info == FreshInfo(kind, old(nextInstanceId))
        && |nodes[m].inputs| == |args|
        && (forall k :: 0 <= k < |args| ==> SourceOf(nodes, InputRef(m, k)) == OutputRef(args[k], 0))
        && |nodes[m].outputs| == |ds|
        && (forall k :: 0 <= k < |ds| ==>
              DescriptorOf(nodes, OutputRef(m, k)) == ds[k] && TargetsOf(nodes, OutputRef(m, k)) == {})
      ensures r.Ok? ==>
        forall q :: ValidInput(old(nodes), q) ==> ValidInput(nodes, q) && SourceOf(nodes, q) == SourceOf(old(nodes), q)
      ensures r.Ok? ==>
        forall m :: 0 <= m < |old(nodes)| ==>
          && nodes[m].info == old(nodes)[m].info && InstanceLess(nodes[m].info, nodes[r.value].info)
          && |nodes[m].outputs| == |old(nodes)[m].outputs|
      ensures r.Ok? ==>
        forall o :: ValidOutput(old(nodes), o) ==>
          && ValidOutput(nodes, o)
          && DescriptorOf(nodes, o) == DescriptorOf(old(nodes), o)
          && TargetsOf(nodes, o) == TargetsOf(old(nodes), o) + FedBy(|old(nodes)|, ArgOutputs(args), |args|, o)
      ensures old(EdgesLinked()) ==> EdgesLinked()
    {
      var ns := nodes;
      var bad := MultiOutputArg(ns, args);
      if bad.Some? {
        r := Err(Misuse(ArgumentNotSingleOutput(bad.value)));
        return;
      }
      var refs := ArgOutputs(args);
      assert forall k :: 0 <= k < |refs| ==> ValidOutput(ns, refs[k]);
      var id := nextInstanceId;
      var m := |ns|;
      nextInstanceId := id + 1;
      var inferred := Infer(kind, ArgDescriptors(ns, refs));
      if inferred.Err? {
        WellFormedAdvance(ns, id, id + 1);
        r := Err(Invalid(inferred.error));
        return;
      }
      nodes := BuildNode(ns, kind, id, refs, inferred.value);
      r := Ok(m);
    }

    /**
     * `revalidate_and_infer_types`: runs node `n`'s inference rule again on
     * what its inputs now see and, when it passes, writes its output types.
     */
    method Revalidate(n: NodeId) returns (r: Outcome<ValidationFailure>)
      requires Valid() && n < |nodes|
      modifies this
      ensures Valid() && nextInstanceId == old(nextInstanceId)
      ensures r.Pass? <==> Revalidated(old(nodes), old(nextInstanceId), n).Ok?
      ensures r.Fail? ==> r.error == Revalidated(old(nodes), old(nextInstanceId), n).error && nodes == old(nodes)
      ensures r.Pass? ==> nodes == Revalidated(old(nodes), old(nextInstanceId), n).value
      ensures SameEdges(old(nodes), nodes)
      ensures old(EdgesLinked()) ==> EdgesLinked()
    {
      assert NodeWellFormed(nodes, n, nextInstanceId);
      var inferred := Infer(nodes[n].info.kind, InputDescriptors(nodes, n));
      if inferred.Err? {
        SameEdgesTransfer(nodes, nodes, nextInstanceId);
        r := Fail(inferred.error);
        return;
      }
      SetOutputTypesPreserves(nodes, nextInstanceId, n, inferred.value);
      nodes := SetOutputTypes(nodes, n, inferred.value);
      r := Pass;
    }

    /* ---------- Names ---------- */

    /** `get_name`: the unique name, the type name and the instance id joined by an underscore. */
    function Name(n: NodeId): (s: string)
      reads this
      requires Valid() && n < |nodes|
      ensures s == Description(nodes[n].info.kind) + "_" + Decimal(nodes[n].info.instanceId)
    {
      assert NodeWellFormed(nodes, n, nextInstanceId);
      nodes[n].info.uniqueName
    }

    /** `get_friendly_name`: the friendly name once one is set, the unique name before. */
    function FriendlyName(n: NodeId): (s: string)
      reads this
      requires Valid() && n < |nodes|
      ensures nodes[n].info.friendlyName == "" ==> s == Name(n)
      ensures nodes[n].info.friendlyName != "" ==> s == nodes[n].info.friendlyName
    {
      if nodes[n].info.friendlyName == "" then
        Name(n)
      else
        nodes[n].info.friendlyName
    }

    /**
     * `set_friendly_name`: fails once a friendly name has been set, and
     * otherwise records `name`; the unique name never changes.
     */
    method SetFriendlyName(n: NodeId, name: string) returns (r: Outcome<UsageError>)
      requires Valid() && n < |nodes|
      modifies this
      ensures Valid() && nextInstanceId == old(nextInstanceId)
      ensures r.Pass? <==> old(nodes[n].info.friendlyName) == ""
      ensures r.Fail? ==> r.error == FriendlyNameAlreadySet && nodes == old(nodes)
      ensures r.Pass? ==> nodes == WithInfo(old(nodes), n, old(nodes[n].info).(friendlyName := name))
      ensures r.Pass? && name != "" ==> FriendlyName(n) == name
      ensures Name(n) == old(Name(n))
      ensures old(EdgesLinked()) ==> EdgesLinked()
    {
      if nodes[n].info.friendlyName != "" {
        r := Fail(FriendlyNameAlreadySet);
        return;
      }
      assert NodeWellFormed(nodes, n, nextInstanceId);
      var info := nodes[n].info.(friendlyName := name);
      WithInfoPreserves(nodes, nextInstanceId, n, info);
      nodes := WithInfo(nodes, n, info);
      r := Pass;
    }

    /* ---------- Control dependencies ---------- */

    /** `get_control_dependencies`: nodes of this graph that `n` must run after. */
    function ControlDependencies(n: NodeId): (deps: set<NodeId>)
      reads this
      requires Valid() && n < |nodes|
      ensures forall d :: d in deps ==> d < |nodes|
    {
      assert NodeWellFormed(nodes, n, nextInstanceId);
      nodes[n].info.controlDependencies
    }

    /** `add_control_dependency`: inserts `d`; adding it twice keeps a single entry. */
    method AddControlDependency(n: NodeId, d: NodeId)
      requires Valid() && n < |nodes| && d < |nodes|
      modifies this
      ensures Valid() && nextInstanceId == old(nextInstanceId)
      ensures nodes == WithInfo(old(nodes), n,
        old(nodes[n].info).(controlDependencies := old(nodes[n].info.controlDependencies) + {d}))
      ensures ControlDependencies(n) == old(ControlDependencies(n)) + {d}
      ensures old(EdgesLinked()) ==> EdgesLinked()
    {
      assert NodeWellFormed(nodes, n, nextInstanceId);
      var info := nodes[n].info.(controlDependencies := nodes[n].info.controlDependencies + {d});
      WithInfoPreserves(nodes, nextInstanceId, n, info);
      nodes := WithInfo(nodes, n, info);
    }

    /** `remove_control_dependency`: erases exactly `d`, if present. */
    method RemoveControlDependency(n: NodeId, d: NodeId)
      requires Valid() && n < |nodes|
      modifies this
      ensures Valid() && nextInstanceId == old(nextInstanceId)
      ensures nodes == WithInfo(old(nodes), n,
        old(nodes[n].info).(controlDependencies := old(nodes[n].info.controlDependencies) - {d}))
      ensures ControlDependencies(n) == old(ControlDependencies(n)) - {d}
      ensures old(EdgesLinked()) ==> EdgesLinked()
    {
      assert NodeWellFormed(nodes, n, nextInstanceId);
      var info := nodes[n].info.(controlDependencies := nodes[n].info.controlDependencies - {d});
      WithInfoPreserves(nodes, nextInstanceId, n, info);
      nodes := WithInfo(nodes, n, info);
    }

    /* ---------- Provenance ---------- */

    /** `get_provenance_tags`. */
    function ProvenanceTags(n: NodeId): set<string>
      reads this
      requires n < |nodes|
    {
      nodes[n].info.provenanceTags
    }

    /** `add_provenance_tag`. */
    method AddProvenanceTag(n: NodeId, tag: string)
      requires Valid() && n < |nodes|
      modifies this
      ensures Valid() && nextInstanceId == old(nextInstanceId)
      ensures nodes == WithInfo(old(nodes), n, old(nodes[n].info).(provenanceTags := old(nodes[n].info.provenanceTags) + {tag}))
      ensures ProvenanceTags(n) == old(ProvenanceTags(n)) + {tag}
      ensures old(EdgesLinked()) ==> EdgesLinked()
    {
      assert NodeWellFormed(nodes, n, nextInstanceId);
      var info := nodes[n].info.(provenanceTags := nodes[n].info.provenanceTags + {tag});
      WithInfoPreserves(nodes, nextInstanceId, n, info);
      nodes := WithInfo(nodes, n, info);
    }

    /** `remove_provenance_tag`. */
    method RemoveProvenanceTag(n: NodeId, tag: string)
      requires Valid() && n < |nodes|
      modifies this
      ensures Valid() && nextInstanceId == old(nextInstanceId)
      ensures nodes == WithInfo(old(nodes), n, old(nodes[n].info).(provenanceTags := old(nodes[n].info.provenanceTags) - {tag}))
      ensures ProvenanceTags(n) == old(ProvenanceTags(n)) - {tag}
      ensures old(EdgesLinked()) ==> EdgesLinked()
    {
      assert NodeWellFormed(nodes, n, nextInstanceId);
      var info := nodes[n].info.(provenanceTags := nodes[n].info.provenanceTags - {tag});
      WithInfoPreserves(nodes, nextInstanceId, n, info);
      nodes := WithInfo(nodes, n, info);
    }

    /** `merge_provenance_tags_from`: node `n` gains every tag of node `source`. */
    method MergeProvenanceTagsFrom(n: NodeId, source: NodeId)
      requires Valid() && n < |nodes| && source < |nodes|
      modifies this
      ensures Valid() && nextInstanceId == old(nextInstanceId)
      ensures nodes == WithInfo(old(nodes), n,
        old(nodes[n].info).(provenanceTags := old(nodes[n].info.provenanceTags) + old(nodes[source].info.provenanceTags)))
      ensures ProvenanceTags(n) == old(ProvenanceTags(n)) + old(ProvenanceTags(source))
      ensures old(EdgesLinked()) ==> EdgesLinked()
    {
      assert NodeWellFormed(nodes, n, nextInstanceId);
      var info := nodes[n].info.(provenanceTags := nodes[n].info.provenanceTags + nodes[source].info.provenanceTags);
      WithInfoPreserves(nodes, nextInstanceId, n, info);
      nodes := WithInfo(nodes, n, info);
    }

    /* ---------- Placement ---------- */

    /** `get_placement`. */
    function DevicePlacement(n: NodeId): Placement
      reads this
      requires n < |nodes|
    {
      nodes[n].info.placement
    }

    /** `get_placement_index`. */
    function PlacementIndex(n: NodeId): SizeT
      reads this
      requires n < |nodes|
    {
      nodes[n].info.placementIndex
    }

    /** `set_placement`: `get_placement` then returns `p`. */
    method SetPlacement(n: NodeId, p: Placement)
      requires Valid() && n < |nodes|
      modifies this
      ensures Valid() && nextInstanceId == old(nextInstanceId)
      ensures nodes == WithInfo(old(nodes), n, old(nodes[n].info).(placement := p))
      ensures DevicePlacement(n) == p && PlacementIndex(n) == old(PlacementIndex(n))
      ensures old(EdgesLinked()) ==> EdgesLinked()
    {
      assert NodeWellFormed(nodes, n, nextInstanceId);
      var info := nodes[n].info.(placement := p);
      WithInfoPreserves(nodes, nextInstanceId, n, info);
      nodes := WithInfo(nodes, n, info);
    }

    /** `set_placement_index`: `get_placement_index` then returns `i`. */
    method SetPlacementIndex(n: NodeId, i: SizeT)
      requires Valid() && n < |nodes|
      modifies this
      ensures Valid() && nextInstanceId == old(nextInstanceId)
      ensures nodes == WithInfo(old(nodes), n, old(nodes[n].info).(placementIndex := i))
      ensures PlacementIndex(n) == i && DevicePlacement(n) == old(DevicePlacement(n))
      ensures old(EdgesLinked()) ==> EdgesLinked()
    {
      assert NodeWellFormed(nodes, n, nextInstanceId);
      var info := nodes[n].info.(placementIndex := i);
      WithInfoPreserves(nodes, nextInstanceId, n, info);
      nodes := WithInfo(nodes, n, info);
    }

    /* ---------- Ordering ---------- */

    /** `operator<`: by instance id; irreflexive, and total on distinct nodes of the graph. */
    function Less(a: NodeId, b: NodeId): (r: bool)
      reads this
      requires Valid() && a < |nodes| && b < |nodes|
      ensures r ==> a != b
      ensures a != b ==> r || nodes[b].info.instanceId < nodes[a].info.instanceId
    {
      InstanceLess(nodes[a].info, nodes[b].info)
    }

    /* ---------- Outputs ---------- */

    /** `get_output_size`: never fewer than the op kind's own outputs. */
    function OutputSize(n: NodeId): (k: nat)
      reads this
      requires Valid() && n < |nodes|
      ensures k >= OutputCount(nodes[n].info.kind)
    {
      assert NodeWellFormed(nodes, n, nextInstanceId);
      |nodes[n].outputs|
    }

    /**
     * `set_output_size`: refuses to shrink; otherwise appends outputs of
     * dynamic element type and dynamic rank that feed nothing.
     */
    method SetOutputSize(n: NodeId, size: nat) returns (r: Outcome<UsageError>)
      requires Valid() && n < |nodes|
      modifies this
      ensures Valid() && nextInstanceId == old(nextInstanceId)
      ensures r.Pass? <==> old(|nodes[n].outputs|) <= size
      ensures r.Fail? ==> r.error == OutputSizeShrinks && nodes == old(nodes)
      ensures r.Pass? ==> nodes == GrowOutputs(old(nodes), n, size) && OutputSize(n) == size
      ensures r.Pass? ==>
        forall k :: old(|nodes[n].outputs|) <= k < size ==>
          DescriptorOf(nodes, OutputRef(n, k)) == Descriptor(Dynamic, RankDynamic) && TargetsOf(nodes, OutputRef(n, k)) == {}
      ensures r.Pass? ==>
        forall o :: ValidOutput(old(nodes), o) ==>
          DescriptorOf(nodes, o) == DescriptorOf(old(nodes), o) && TargetsOf(nodes, o) == TargetsOf(old(nodes), o)
      ensures old(EdgesLinked()) ==> EdgesLinked()
    {
      if size < |nodes[n].outputs| {
        r := Fail(OutputSizeShrinks);
        return;
      }
      GrowOutputsPreserves(nodes, nextInstanceId, n, size);
      nodes := GrowOutputs(nodes, n, size);
      r := Pass;
    }

    /** `get_output_tensor(i)`: the descriptor of output `i`, if there is one. */
    function OutputTensor(n: NodeId, i: nat): (r: Result<Descriptor, UsageError>)
      reads this
      requires n < |nodes|
      ensures r.Ok? <==> i < |nodes[n].outputs|
      ensures r.Ok? ==> r.value == DescriptorOf(nodes, OutputRef(n, i))
      ensures r.Err? ==> r.error == IndexOutOfRange
    {
      if i < |nodes[n].outputs| then Ok(nodes[n].outputs[i].descriptor) else Err(IndexOutOfRange)
    }

    /** `get_output_element_type(i)`. */
    function OutputElementType(n: NodeId, i: nat): (r: Result<ElementType, UsageError>)
      reads this
      requires n < |nodes|
      ensures r.Ok? <==> i < |nodes[n].outputs|
      ensures r.Ok? ==> r.value == DescriptorOf(nodes, OutputRef(n, i)).elementType
      ensures r.Err? ==> r.error == IndexOutOfRange
    {
      match OutputTensor(n, i)
      case Err(e) => Err(e)
      case Ok(d) => Ok(d.elementType)
    }

    /** `get_output_partial_shape(i)`. */
    function OutputPartialShape(n: NodeId, i: nat): (r: Result<PartialShape, UsageError>)
      reads this
      requires n < |nodes|
      ensures r.Ok? <==> i < |nodes[n].outputs|
      ensures r.Ok? ==> r.value == DescriptorOf(nodes, OutputRef(n, i)).shape
      ensures r.Err? ==> r.error == IndexOutOfRange
    {
      match OutputTensor(n, i)
      case Err(e) => Err(e)
      case Ok(d) => Ok(d.shape)
    }

    /** `get_output_shape(i)`: the static shape of output `i`; a dynamic one is an error. */
    function OutputShape(n: NodeId, i: nat): (r: Result<Shape, UsageError>)
      reads this
      requires n < |nodes|
      ensures r.Ok? <==> i < |nodes[n].outputs| && IsStatic(DescriptorOf(nodes, OutputRef(n, i)).shape)
      ensures r.Ok? ==> FromShape(r.value) == DescriptorOf(nodes, OutputRef(n, i)).shape
      ensures r.Err? ==> r.error == if i < |nodes[n].outputs| then ShapeNotStatic else IndexOutOfRange
    {
      match OutputPartialShape(n, i)
      case Err(e) => Err(e)
      case Ok(p) =>
        match ToShape(p)
        case None => Err(ShapeNotStatic)
        case Some(s) => Ok(s)
    }

    /** `get_output_tensor()`: only a node with exactly one output has one. */
    function SoleTensor(n: NodeId): (r: Result<Descriptor, UsageError>)
      reads this
      requires n < |nodes|
      ensures r.Ok? <==> |nodes[n].outputs| == 1
      ensures r.Ok? ==> r.value == DescriptorOf(nodes, OutputRef(n, 0))
      ensures r.Err? ==> r.error == NotSingleOutput
    {
      if |nodes[n].outputs| != 1 then Err(NotSingleOutput) else OutputTensor(n, 0)
    }

    /** `get_element_type()`: only a node with exactly one output has one. */
    function SoleElementType(n: NodeId): (r: Result<ElementType, UsageError>)
      reads this
      requires n < |nodes|
      ensures r.Ok? <==> |nodes[n].outputs| == 1
      ensures r.Ok? ==> r.value == DescriptorOf(nodes, OutputRef(n, 0)).elementType
      ensures r.Err? ==> r.error == NotSingleOutput
    {
      if |nodes[n].outputs| != 1 then Err(NotSingleOutput) else OutputElementType(n, 0)
    }

    /** `get_shape()`: one output, and its shape static. */
    function SoleShape(n: NodeId): (r: Result<Shape, UsageError>)
      reads this
      requires n < |nodes|
      ensures r.Ok? <==> |nodes[n].outputs| == 1 && IsStatic(DescriptorOf(nodes, OutputRef(n, 0)).shape)
      ensures r.Ok? ==> FromShape(r.value) == DescriptorOf(nodes, OutputRef(n, 0)).shape
      ensures r.Err? ==> r.error == if |nodes[n].outputs| != 1 then NotSingleOutput else ShapeNotStatic
    {
      if |nodes[n].outputs| != 1 then Err(NotSingleOutput) else OutputShape(n, 0)
    }

    /* ---------- Inputs ---------- */

    /** `get_input_size`: the op kind's arity, fixed at construction. */
    function InputSize(n: NodeId): (k: nat)
      reads this
      requires Valid() && n < |nodes|
      ensures k == Arity(nodes[n].info.kind)
    {
      assert NodeWellFormed(nodes, n, nextInstanceId);
      |nodes[n].inputs|
    }

    /** `get_input_source_output(i)`: the output input `i` is bound to, an output of the graph. */
    function InputSourceOutput(n: NodeId, i: nat): (r: Result<OutputRef, UsageError>)
      reads this
      requires Valid() && n < |nodes|
      ensures r.Ok? <==> i < |nodes[n].inputs|
      ensures r.Ok? ==> ValidOutput(nodes, r.value) && r.value == SourceOf(nodes, InputRef(n, i))
      ensures r.Ok? && EdgesLinked() ==> InputRef(n, i) in TargetsOf(nodes, r.value)
      ensures r.Err? ==> r.error == IndexOutOfRange
    {
      if i < |nodes[n].inputs| then
        assert ValidInput(nodes, InputRef(n, i));
        Ok(nodes[n].inputs[i])
      else
        Err(IndexOutOfRange)
    }

    /** `get_input_element_type(i)`: the element type of the output input `i` reads. */
    function InputElementType(n: NodeId, i: nat): (r: Result<ElementType, UsageError>)
      reads this
      requires Valid() && n < |nodes|
      ensures r.Ok? <==> i < |nodes[n].inputs|
      ensures r.Ok? ==> r.value == DescriptorOf(nodes, SourceOf(nodes, InputRef(n, i))).elementType
      ensures r.Err? ==> r.error == IndexOutOfRange
    {
      match InputSourceOutput(n, i)
      case Err(e) => Err(e)
      case Ok(o) => Ok(DescriptorOf(nodes, o).elementType)
    }

    /** `get_input_partial_shape(i)`: the partial shape of the output input `i` reads. */
    function InputPartialShape(n: NodeId, i: nat): (r: Result<PartialShape, UsageError>)
      reads this
      requires Valid() && n < |nodes|
      ensures r.Ok? <==> i < |nodes[n].inputs|
      ensures r.Ok? ==> r.value == DescriptorOf(nodes, SourceOf(nodes, InputRef(n, i))).shape
      ensures r.Err? ==> r.error == IndexOutOfRange
    {
      match InputSourceOutput(n, i)
      case Err(e) => Err(e)
      case Ok(o) => Ok(DescriptorOf(nodes, o).shape)
    }

    /** `get_input_shape(i)`: the static shape of the output input `i` reads. */
    function InputShape(n: NodeId, i: nat): (r: Result<Shape, UsageError>)
      reads this
      requires Valid() && n < |nodes|
      ensures r.Ok? <==> i < |nodes[n].inputs| && IsStatic(DescriptorOf(nodes, SourceOf(nodes, InputRef(n, i))).shape)
      ensures r.Ok? ==> FromShape(r.value) == DescriptorOf(nodes, SourceOf(nodes, InputRef(n, i))).shape
      ensures r.Err? ==> r.error == if i < |nodes[n].inputs| then ShapeNotStatic else IndexOutOfRange
    {
      match InputPartialShape(n, i)
      case Err(e) => Err(e)
      case Ok(p) =>
        match ToShape(p)
        case None => Err(ShapeNotStatic)
        case Some(s) => Ok(s)
    }

    /* ---------- Edges ---------- */

    /** `get_output_target_inputs(i)`: the fan-out of output `i`; each member is bound to that output. */
    function OutputTargetInputs(n: NodeId, i: nat): (r: Result<set<InputRef>, UsageError>)
      reads this
      requires Valid() && n < |nodes|
      ensures r.Ok? <==> i < |nodes[n].outputs|
      ensures r.Ok? ==> forall q :: q in r.value ==> ValidInput(nodes, q) && SourceOf(nodes, q) == OutputRef(n, i)
      ensures r.Ok? && EdgesLinked() ==>
        forall q :: ValidInput(nodes, q) && SourceOf(nodes, q) == OutputRef(n, i) ==> q in r.value
      ensures r.Err? ==> r.error == IndexOutOfRange
    {
      if i < |nodes[n].outputs| then
        assert ValidOutput(nodes, OutputRef(n, i));
        Ok(nodes[n].outputs[i].targets)
      else
        Err(IndexOutOfRange)
    }

    /**
     * `replace_input_source_output(i, src)`: input `i` of node `n` leaves the
     * fan-out of its old source, is bound to `src` and joins the fan-out of
     * `src`; every other input keeps its source.
     */
    method ReplaceInputSourceOutput(n: NodeId, i: nat, src: OutputRef) returns (r: Outcome<UsageError>)
      requires Valid() && n < |nodes| && src.node < |nodes|
      modifies this
      ensures Valid() && nextInstanceId == old(nextInstanceId)
      ensures r.Pass? <==> i < old(|nodes[n].inputs|) && src.index < old(|nodes[src.node].outputs|)
      ensures r.Fail? ==> r.error == IndexOutOfRange && nodes == old(nodes)
      ensures r.Pass? ==> nodes == Rebind(old(nodes), InputRef(n, i), src) && SameNodes(old(nodes), nodes)
      ensures r.Pass? ==> SourceOf(nodes, InputRef(n, i)) == src && InputRef(n, i) in TargetsOf(nodes, src)
      ensures r.Pass? ==>
        forall p :: ValidOutput(nodes, p) && p != src ==> InputRef(n, i) !in TargetsOf(nodes, p)
      ensures r.Pass? ==>
        forall p :: ValidOutput(old(nodes), p) && p != src ==>
          TargetsOf(nodes, p) == TargetsOf(old(nodes), p) - {InputRef(n, i)}
      ensures r.Pass? ==>
        forall q :: ValidInput(old(nodes), q) && q != InputRef(n, i) ==>
          ValidInput(nodes, q) && SourceOf(nodes, q) == SourceOf(old(nodes), q)
      ensures old(EdgesLinked()) ==> EdgesLinked()
    {
      var input := InputRef(n, i);
      if !(i < |nodes[n].inputs| && src.index < |nodes[src.node].outputs|) {
        r := Fail(IndexOutOfRange);
        return;
      }
      RebindSpec(nodes, input, src);
      var ms := Rebind(nodes, input, src);
      SameNodesTransfer(nodes, ms, nextInstanceId);
      if EdgesLinked() {
        forall q | ValidInput(ms, q)
          ensures Listed(ms, q)
        {
          if q != input {
            assert Listed(nodes, q);
          }
        }
      }
      nodes := ms;
      r := Pass;
    }

    /**
     * `remove_output_target_input(i, target)`: drops `target` from the
     * fan-out of output `i` of node `n`. The target stays bound to its
     * source, so the edge is then recorded on one side only.
     */
    method RemoveOutputTargetInput(n: NodeId, i: nat, target: InputRef) returns (r: Outcome<UsageError>)
      requires Valid() && n < |nodes| && target.node < |nodes|
      modifies this
      ensures Valid() && nextInstanceId == old(nextInstanceId)
      ensures r.Pass? <==> i < old(|nodes[n].outputs|) && target.index < old(|nodes[target.node].inputs|)
      ensures r.Fail? ==> r.error == IndexOutOfRange && nodes == old(nodes)
      ensures r.Pass? ==> nodes == RemoveTarget(old(nodes), OutputRef(n, i), target) && SameNodes(old(nodes), nodes)
      ensures r.Pass? ==>
        forall p :: ValidOutput(old(nodes), p) ==>
          TargetsOf(nodes, p) == if p == OutputRef(n, i) then TargetsOf(old(nodes), p) - {target} else TargetsOf(old(nodes), p)
      ensures r.Pass? ==>
        forall q :: ValidInput(old(nodes), q) ==> ValidInput(nodes, q) && SourceOf(nodes, q) == SourceOf(old(nodes), q)
    {
      var output := OutputRef(n, i);
      if !(i < |nodes[n].outputs| && target.index < |nodes[target.node].inputs|) {
        r := Fail(IndexOutOfRange);
        return;
      }
      var ms := RemoveTarget(nodes, output, target);
      SameNodesTransfer(nodes, ms, nextInstanceId);
      nodes := ms;
      r := Pass;
    }
  }
}
