# ngraph IR core in Dafny

This project models three parts of the ngraph tensor-graph IR and proves properties about them.

- **Shape and type inference of the boolean `All` reduction.** The input element type must be boolean or dynamic. On a known rank, every reduction axis must be below the rank. The output is boolean and keeps the dimensions that are not reduced, in their original order.
- **Inference for binary elementwise arithmetic ops** (`Add`, `Subtract`, `Multiply`, `Divide`, `Maximum`, `Minimum`, `Power`). The two argument descriptors are merged into one element type and one partial shape, the helper `validate_and_infer_elementwise_args` being that merge. A boolean result is refused. The output carries the merged descriptor.
- **The bookkeeping of `Node`.** This covers:
  - input slots, each bound to a source output;
  - output slots, each with a fan-out set;
  - rebinding an input, and removing a fan-out entry;
  - control dependencies and provenance tags;
  - the unique name, and a friendly name that may be set once;
  - placement, and ordering by instance id;
  - output-size growth;
  - the per-index accessors and the single-output accessors.

Modules:

- **Results:** `Option`, `Result` and `Outcome`.
- **Shapes:** element types, dimensions, partial shapes and tensor descriptors. It also holds the merge of element types and of partial shapes. The partial-shape merge is the greatest lower bound under "refines".
- **Diagnostics:** validation failures and usage errors, plus the decimal rendering used in names and messages.
- **Reduction:** `op::All`.
- **Elementwise:** the elementwise-argument merge and binary arithmetic inference.
- **Ops:** a closed op-kind tag with each kind's arity, output count and inference rule. The kinds are `Parameter`, `All` and the arithmetic ops; the tag stands in for the C++ class hierarchy.
- **Arena:** the node records as values, plus the graph invariants and the pure edits of the edge structure. Nodes are addressed by index instead of by `shared_ptr`.
- **NodeGraph:** `class Graph`. It holds the arena as a mutable field, together with the next instance id. Each `Node` method becomes a method or a function on the graph that takes the node's id.

The graph invariant `Valid` requires:

- every slot in range;
- every input bound to an existing output;
- every fan-out entry an existing input that is bound to that very output;
- instance ids distinct and below the counter;
- unique names of the form `<type name>_<instance id>`.

The converse edge direction is `EdgesLinked`: every input appears in its source's fan-out. Every operation preserves it except `remove_output_target_input`, which by design leaves only one side of an edge recorded.

Errors are values, not exceptions:

- `ValidationFailure` is a malformed model: a non-boolean reduction input, an out-of-bounds axis, inconsistent element types or shapes, or boolean arithmetic.
- `UsageError` is a programmer error: an index out of range, a multi-output node, a dynamic shape where a static one is needed, a second friendly name, an output count that would shrink, or an argument node that does not have exactly one output. A node construction fails with a `ConstructionFailure`, which is either a usage error (`Misuse`) or a validation failure (`Invalid`).

Some behaviour comes from files outside the model. `node.cpp`, `partial_shape.cpp`, `element_type.cpp` and the op `.cpp` files are not part of this model. Where the headers and tests leave a behaviour open, the model follows ngraph's implementation conventions, listed here:

- **Partial-shape merge.** Unknown rank merges with anything. Known ranks must be equal. Known dimensions must be equal, and a dynamic dimension takes the other side's value.
- **Element-type merge.** `dynamic` merges with anything, and two concrete types must be equal.
- **`All`.** The axis check comes before the element-type check. The failure names the least out-of-bounds axis, because a `std::set` is visited in ascending order.
- **Arithmetic.** The "N numeric" of the doc table is read as "boolean is refused".
- **Friendly name.** An empty friendly name means that none has been set: `set_friendly_name` succeeds only while it is empty.
- **`set_output_size`.** It refuses to shrink. New outputs have dynamic element type, dynamic rank and no fan-out.
- **Node construction.** Every argument node must have exactly one output, and input k is bound to output 0 of argument k. This check runs before the node exists, so a refused argument uses up no instance id. The instance id is taken before validation, so a node whose validation fails still uses one up. In ngraph the `Node` constructor wires each input into its argument's fan-out first, and only then does the op's constructor validate. The model instead infers before wiring, and it keeps only the end state of a failed construction, which leaves no trace in any fan-out.

## Model

| member | source | states |
|---|---|---|
| Reduction.InferAll | test/type_prop/all.cpp:24-159 | every successful inference of `All` yields a boolean output |
| Reduction.KeptPositionsSpec | test/type_prop/all.cpp:116-137 | the surviving positions are strictly increasing, are exactly the positions below the rank that are not axes, and number the rank minus the axes below it |
| Reduction.RemainingAtKept | test/type_prop/all.cpp:116-137 | the j-th output dimension is the input dimension at the j-th surviving position, carried verbatim (dynamic stays dynamic) |
| Reduction.RemainingLength | test/type_prop/all.cpp:24-43 | with all axes in range, output rank = input rank − number of axes |
| Reduction.RemainingNoAxes | test/type_prop/all.cpp:24-43 | reducing over no axes keeps every dimension |
| Reduction.AllRankDynamic | test/type_prop/all.cpp:106-114 | with a dynamic rank, any axis set succeeds; the output is boolean with dynamic rank, and the element type must still be boolean or dynamic |
| Reduction.AllAxisFailure | test/type_prop/all.cpp:86-104 | on a known rank, inference reports an axis out of bounds iff some axis ≥ rank, and the axis reported is the least such axis |
| Reduction.AllElementTypeFailure | test/type_prop/all.cpp:66-84 | with axes in bounds, inference fails with "input element type must be boolean" iff the element type is neither boolean nor dynamic |
| Reduction.AllKnownRank | test/type_prop/all.cpp:24-64 | for a boolean or dynamic input and in-range axes, inference succeeds with a boolean output of rank = rank − number of axes, whose dimensions are the kept ones in order |
| Reduction.AllStaticStaysStatic | test/type_prop/all.cpp:116-125 | a static input shape gives a static output shape |
| Reduction.AllDeduce | test/type_prop/all.cpp:24-64 | a boolean or dynamic {2,4} input gives {4}, {2}, {} and {2,4} for axes {0}, {1}, {0,1} and {}, always with a boolean output |
| Reduction.AllNonBoolean | test/type_prop/all.cpp:66-84 | an i32 input fails with the element-type failure, whose explanation contains "Input element type must be boolean" |
| Reduction.AllAxisOutOfBounds | test/type_prop/all.cpp:86-104 | axes {0,2,1} on rank 2 fail, naming axis 2, and the explanation contains "Reduction axis (2) is out of bounds" |
| Reduction.AllPartialRankDynamic | test/type_prop/all.cpp:106-114 | a rank-dynamic input with far out-of-range axes gives a boolean rank-dynamic output |
| Reduction.AllPartialRankStaticResultStatic | test/type_prop/all.cpp:116-125 | {1,2,?,4,5} with axes {2,3} gives the static shape {1,2,5} |
| Reduction.AllPartialRankStaticResultDynamic | test/type_prop/all.cpp:127-137 | {1,2,?,4,?} with axes {2,3} gives {1,2,?} |
| Reduction.AllPartialRankStaticAxesOutOfBounds | test/type_prop/all.cpp:139-159 | axes {2,5,1} on a rank-5 partial shape fail, naming axis 5, with "Reduction axis (5) is out of bounds" in the explanation |
| Shapes.ToShape | src/ngraph/node.hpp:204-211 | a partial shape converts to a static shape exactly when it is static, and converting back gives the partial shape |
| Shapes.ToShapeFromShape | src/ngraph/node.hpp:204-211 | a static shape survives the round trip through a partial shape |
| Shapes.MergeElementTypesSpec | src/ngraph/node.hpp:116 | element types merge iff compatible; the merge is commutative, refines both types, and every common refinement of the two refines it, so it is their most general common refinement |
| Shapes.MergeDimsSpec | src/ngraph/node.hpp:116 | dimension lists merge iff pointwise compatible; the result has the same length and its i-th dimension is the merge of the i-th dimensions |
| Shapes.MergeShapesSpec | src/ngraph/node.hpp:116 | partial shapes merge iff compatible, and the merge refines both inputs |
| Shapes.MergeShapesGreatest | src/ngraph/node.hpp:116 | any shape refining both inputs makes the merge succeed and refines the merge |
| Shapes.MergeShapesCommutative | src/ngraph/node.hpp:116 | merging is order-independent |
| Shapes.MergeShapesIdempotent | src/ngraph/node.hpp:116 | a shape merges with itself to itself |
| Shapes.MergeStaticShapes | src/ngraph/node.hpp:116 | two static shapes merge iff they are equal |
| Shapes.RefinesTransitive | src/ngraph/node.hpp:116 | refinement of partial shapes is transitive |
| Diagnostics.DecimalInjective | src/ngraph/node.hpp:134-136 | distinct instance ids render as distinct decimal strings |
| Elementwise.MergeDescriptorsSpec | src/ngraph/node.hpp:116-117 | folding in one more argument succeeds iff both element types and both shapes are compatible, and the result then refines both descriptors |
| Elementwise.ElementwiseArgsRefinesInputs | src/ngraph/node.hpp:116 | the single (element type, partial shape) pair inferred for all arguments refines each argument |
| Elementwise.ElementwiseArgsUniform | src/ngraph/node.hpp:116 | arguments that all have one descriptor infer exactly that descriptor |
| Elementwise.ElementwiseArgsPair | src/ngraph/node.hpp:116 | for two arguments, the inferred pair is the merge of the two |
| Elementwise.InferBinaryArithmetic | src/ngraph/op/util/binary_elementwise_arithmetic.hpp:38-45 | a successful inference never has boolean element type |
| Elementwise.BinaryArithmeticSameInputs | src/ngraph/op/util/binary_elementwise_arithmetic.hpp:38-45 | two inputs N[d1..dn] of a numeric type give output N[d1..dn] |
| Elementwise.BinaryArithmeticScalar | src/ngraph/op/util/binary_elementwise_arithmetic.hpp:38-39 | rank-0 inputs are accepted and give a rank-0 output |
| Elementwise.BinaryArithmeticStatic | src/ngraph/op/util/binary_elementwise_arithmetic.hpp:38-45 | for concrete element types and static shapes, inference succeeds iff both inputs are equal and not boolean, and then returns that descriptor |
| Elementwise.BinaryArithmeticElementTypeMismatch | src/ngraph/op/util/binary_elementwise_arithmetic.hpp:39 | different concrete element types fail with "argument element types are inconsistent" |
| Elementwise.BinaryArithmeticShapeMismatch | src/ngraph/op/util/binary_elementwise_arithmetic.hpp:39 | compatible element types with incompatible shapes fail with "argument shapes are inconsistent" |
| Elementwise.BinaryArithmeticMostGeneral | src/ngraph/op/util/binary_elementwise_arithmetic.hpp:38-45 | the output refines both inputs, and is refined by every descriptor that refines both |
| Elementwise.BinaryArithmeticSymmetric | src/ngraph/op/util/binary_elementwise_arithmetic.hpp:38-45 | swapping arg0 and arg1 gives the same result, success or failure |
| Ops.Infer | src/ngraph/node.hpp:111 | a successful inference yields exactly the op kind's number of outputs |
| Ops.ArithmeticShape | src/ngraph/op/util/binary_elementwise_arithmetic.hpp:53-57 | arithmetic ops take two inputs, produce one output, and infer the binary merge of their arguments |
| Arena.RebindSpec | src/ngraph/node.hpp:282-289 | after rebinding input r to o, r is bound to o and listed in o's fan-out only; all other fan-outs lose r; other inputs keep their sources and whether they are listed |
| Arena.RemoveTarget | src/ngraph/node.hpp:288-289 | removing a fan-out entry keeps the invariant, changes only that output's fan-out, leaves every source binding, and unlists the target if it was bound there |
| Arena.AppendNodeSpec | src/ngraph/node.hpp:120 | appending a node with fresh id keeps the invariant with the counter advanced and binds its inputs to the arguments; every old slot and edge stays, and the new outputs feed nothing |
| Arena.LinkInputs | src/ngraph/node.hpp:120 | the constructor's input loop adds input k of the new node to the fan-out of argument k, and changes nothing else |
| Arena.BuildNode | src/ngraph/node.hpp:120 | the constructor, once inference has produced the output types: the new node gets the next instance id, its inputs are bound to the arguments and listed in their fan-outs, its outputs carry the inferred types and feed nothing, the invariant holds with the counter advanced, and a graph whose every input was listed stays so |
| Arena.MultiOutputArg | src/ngraph/node.hpp:80-86 | no position is named exactly when every argument node has one output; a named position is the first argument whose output count is not one |
| Arena.MultiOutputArgFrame | src/ngraph/node.hpp:80-86 | the single-output argument check gives the same verdict on any later graph in which the argument nodes keep their output counts, as building a node guarantees |
| Arena.GrownArgumentRefused | src/ngraph/node.hpp:293-294 | after `set_output_size` gives a node two or more outputs, every argument list that contains it is refused |
| Arena.WithInfoPreserves | src/ngraph/node.hpp:297-309 | changing names, dependencies, tags or placement keeps the invariant and every edge |
| Arena.GrowOutputsPreserves | src/ngraph/node.hpp:294 | growing the output count keeps the invariant, every old slot's descriptor and fan-out, and every binding |
| Arena.SetOutputTypesPreserves | src/ngraph/node.hpp:158-160 | writing output types keeps the invariant and every edge |
| Arena.RevalidateIdempotent | src/ngraph/node.hpp:125 | re-running inference on a node whose inputs are unchanged, and do not read its own outputs, reproduces the same state |
| Arena.InstanceOrder | src/ngraph/node.hpp:278-279 | ordering nodes by instance id is irreflexive, transitive and total on distinct nodes |
| Arena.UniqueNamesDistinct | src/ngraph/node.hpp:134-136 | distinct nodes of a graph have distinct unique names |
| NodeGraph.Graph.constructor | src/ngraph/node.hpp:297-306 | an empty graph satisfies both edge invariants |
| NodeGraph.Graph.MakeNode | src/ngraph/node.hpp:120 | refuses, with nothing changed, when some argument node does not have exactly one output, naming the first such argument; otherwise builds a node with the next instance id, input k bound to output 0 of argument k and listed in its fan-out, a fresh unset friendly name, no dependencies or tags, default placement with invalid index, and outputs from inference; on a validation failure the nodes are untouched; the new node orders after every older one |
| NodeGraph.Graph.Revalidate | src/ngraph/node.hpp:111 | re-runs the node's inference on what its inputs see; on success its output types are replaced, on failure nothing changes; edges never change |
| NodeGraph.Graph.Name | src/ngraph/node.hpp:134-136 | the unique name is the type name, an underscore and the instance id |
| NodeGraph.Graph.FriendlyName | src/ngraph/node.hpp:144-147 | the friendly name if set, else the unique name |
| NodeGraph.Graph.SetFriendlyName | src/ngraph/node.hpp:138-142 | succeeds iff no friendly name is set yet, and then records it; it never changes the unique name or anything else |
| NodeGraph.Graph.ControlDependencies | src/ngraph/node.hpp:185-186 | the control dependencies are nodes of the graph |
| NodeGraph.Graph.AddControlDependency | src/ngraph/node.hpp:188 | the dependency set becomes the old set plus the node (a second add changes nothing) and nothing else changes |
| NodeGraph.Graph.RemoveControlDependency | src/ngraph/node.hpp:190-193 | the dependency set loses exactly the node and nothing else changes |
| NodeGraph.Graph.ProvenanceTags | src/ngraph/node.hpp:267 | `get_provenance_tags`: the node's tag set; the provenance methods state their effect through it |
| NodeGraph.Graph.AddProvenanceTag | src/ngraph/node.hpp:267-268 | `get_provenance_tags` afterwards returns the old tags plus the tag, and nothing else changes |
| NodeGraph.Graph.RemoveProvenanceTag | src/ngraph/node.hpp:267-269 | `get_provenance_tags` afterwards returns the old tags minus exactly the tag, and nothing else changes |
| NodeGraph.Graph.MergeProvenanceTagsFrom | src/ngraph/node.hpp:271-272 | `get_provenance_tags` afterwards returns the union of the node's old tags and the source node's tags, and nothing else changes |
| NodeGraph.Graph.DevicePlacement | src/ngraph/node.hpp:256 | `get_placement`: the node's device placement; `SetPlacement` and `SetPlacementIndex` state their effect through it |
| NodeGraph.Graph.PlacementIndex | src/ngraph/node.hpp:262 | `get_placement_index`: the node's placement index; `SetPlacement` and `SetPlacementIndex` state their effect through it |
| NodeGraph.Graph.SetPlacement | src/ngraph/node.hpp:255-259 | `get_placement` afterwards returns the given placement, `get_placement_index` is unchanged, and nothing else changes |
| NodeGraph.Graph.SetPlacementIndex | src/ngraph/node.hpp:261-265 | `get_placement_index` afterwards returns the given index, `get_placement` is unchanged, and nothing else changes |
| NodeGraph.Graph.Less | src/ngraph/node.hpp:278-279 | `operator<` is irreflexive and relates every two distinct nodes one way or the other |
| NodeGraph.Graph.OutputSize | src/ngraph/node.hpp:195-196 | a node has at least its op kind's number of outputs |
| NodeGraph.Graph.SetOutputSize | src/ngraph/node.hpp:294 | fails iff the new size is smaller; otherwise the earlier outputs are unchanged and the new ones are dynamic with empty fan-out |
| NodeGraph.Graph.OutputTensor | src/ngraph/node.hpp:213-214 | output i's descriptor, or index-out-of-range iff i ≥ the output count |
| NodeGraph.Graph.OutputElementType | src/ngraph/node.hpp:198-199 | output i's element type, or index-out-of-range iff i ≥ the output count |
| NodeGraph.Graph.OutputPartialShape | src/ngraph/node.hpp:207-208 | output i's partial shape, or index-out-of-range iff i ≥ the output count |
| NodeGraph.Graph.OutputShape | src/ngraph/node.hpp:204-205 | output i's shape as a static shape; out-of-range and shape-not-static errors in exactly their cases |
| NodeGraph.Graph.SoleTensor | src/ngraph/node.hpp:216-217 | succeeds iff the node has exactly one output, giving that output's descriptor |
| NodeGraph.Graph.SoleElementType | src/ngraph/node.hpp:201-202 | succeeds iff the node has exactly one output, giving that output's element type |
| NodeGraph.Graph.SoleShape | src/ngraph/node.hpp:210-211 | succeeds iff the node has exactly one output and its shape is static |
| NodeGraph.Graph.InputSize | src/ngraph/node.hpp:229-230 | the input count is the op kind's arity |
| NodeGraph.Graph.InputSourceOutput | src/ngraph/node.hpp:282 | the output input i is bound to, an existing output; with linked edges, input i is in its fan-out; index-out-of-range iff i ≥ the input count |
| NodeGraph.Graph.InputElementType | src/ngraph/node.hpp:232-233 | the element type of input i's source output, or index-out-of-range |
| NodeGraph.Graph.InputPartialShape | src/ngraph/node.hpp:238-239 | the partial shape of input i's source output, or index-out-of-range |
| NodeGraph.Graph.InputShape | src/ngraph/node.hpp:235-236 | the static shape of input i's source output; out-of-range and shape-not-static errors in exactly their cases |
| NodeGraph.Graph.OutputTargetInputs | src/ngraph/node.hpp:288 | the fan-out of output i: each member is an input bound to that output, and with linked edges every input bound to it is a member |
| NodeGraph.Graph.ReplaceInputSourceOutput | src/ngraph/node.hpp:284-287 | when both indices are in range, input i gets the new source and joins its fan-out, leaves every other fan-out, and other inputs keep their sources; otherwise index-out-of-range and nothing changes |
| NodeGraph.Graph.RemoveOutputTargetInput | src/ngraph/node.hpp:289 | when both indices are in range, only the given output's fan-out loses the target and every binding stays; otherwise index-out-of-range and nothing changes |

## Left out

- `is_same_op_type`: depends on C++ RTTI. The op-kind tag `OpKind` takes its place.
- The process-wide atomic instance counter: concurrency is not modelled. The counter is a field of the graph, threaded through node construction.
- Instance ids are unbounded naturals: the 64-bit `size_t` wrap-around of the counter is not modelled. Placement indices are 64-bit (`SizeT`), with `placement_invalid` as 2^64 − 1.
- Text rendering is not modelled: `operator<<`, the short and long descriptions, and the failure-message prefix. Failures are tagged values. `Explanation` renders only the explanation text of the validation failures.
- Adjoints and autodiff (`generate_adjoints`, the adjoint map): a separate module.
- Not modelled as backend or subgraph plumbing, since their bodies are not in the headers:
  - liveness sets;
  - `get_arguments`, `get_argument`, `get_functions` and `copy_with_new_args`;
  - `has_same_type`, `get_users`, `get_default_value`;
  - `get_input_tensor`, `get_node_inputs`, `get_node_outputs`;
  - the `is_*` queries.
- The deprecated descriptor accessors are the same data as the modelled accessors: `get_inputs`, `get_outputs`, `get_output_inputs`, and the `get_output_tensor_ptr` pair, which returns the same descriptors as `get_output_tensor`.
- The graph-rewrite friend functions are declared but not defined in the header.
- `shared_ptr` ownership, lifetimes and node destruction: nodes are arena indices and are never removed. A failed construction is modelled as leaving no node behind.
- Per-element numeric semantics of the arithmetic ops, floating point included: only shape and type inference is modelled.
- `validate_and_infer_elementwise_logical` and the other op classes: only `Parameter`, `All` and the binary arithmetic ops are op kinds.
- `NodeGraph.Graph.MakeNode`: takes a precondition that the argument count matches the op kind's arity, because the C++ op constructors fix their argument count by signature.
- `NodeGraph.Graph.MakeNode`: does not model the intermediate state of a failed construction. In ngraph the node briefly sits in its arguments' fan-outs until it is destroyed; the model infers before wiring and keeps only the end state.
- `NodeGraph.Graph.SetOutputSize`: is a public graph method, although `set_output_size` is protected in ngraph and called only by op constructors. Access control is not modelled; a node grown this way is still refused as an argument.
