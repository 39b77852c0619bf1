/**
 * The closed set of op kinds the model builds nodes from, each with its
 * input count, output count and inference rule.
 */
module Ops {
  import opened Results
  import opened Shapes
  import opened Diagnostics
  import Reduction
  import Elementwise

  /** The concrete binary elementwise arithmetic ops. */
  datatype ArithmeticOp = Add | Subtract | Multiply | Divide | Maximum | Minimum | Power

  /** An op-kind tag with the op's own parameters. */
  datatype OpKind =
    | Parameter(parameterType: ElementType, parameterShape: PartialShape)
    | All(axes: set<nat>)
    | Arithmetic(op: ArithmeticOp)

  /** The type name of the op, as used in node names. */
  function Description(kind: OpKind): string {
    match kind
    case Parameter(_, _) => "Parameter"
    case All(_) => "All"
    case Arithmetic(op) =>
      match op
      case Add => "Add"
      case Subtract => "Subtract"
      case Multiply => "Multiply"
      case Divide => "Divide"
      case Maximum => "Maximum"
      case Minimum => "Minimum"
      case Power => "Power"
  }

  /** Number of input slots a node of this kind is built with. */
  function Arity(kind: OpKind): nat {
    match kind
    case Parameter(_, _) => 0
    case All(_) => 1
    case Arithmetic(_) => 2
  }

  /** Number of output slots a node of this kind is built with. */
  function OutputCount(kind: OpKind): nat {
    1
  }

  /** The op's inference rule: output descriptors from input descriptors, or a validation failure. */
  function Infer(kind: OpKind, inputs: seq<Descriptor>): (r: Result<seq<Descriptor>, ValidationFailure>)
    requires |inputs| == Arity(kind)
    ensures r.Ok? ==> |r.value| == OutputCount(kind)
  {
    match kind
    case Parameter(et, ps) => Ok([Descriptor(et, ps)])
    case All(axes) =>
      (match Reduction.InferAll(inputs[0], axes)
       case Err(e) => Err(e)
       case Ok(d) => Ok([d]))
    case Arithmetic(_) =>
      match Elementwise.InferBinaryArithmetic(inputs[0], inputs[1])
      case Err(e) => Err(e)
      case Ok(d) => Ok([d])
  }

  /** Binary arithmetic has two inputs and one output, and its output is the merged pair of the two. */
  lemma ArithmeticShape(op: ArithmeticOp, a: Descriptor, b: Descriptor)
    ensures Arity(Arithmetic(op)) == 2 && OutputCount(Arithmetic(op)) == 1
    ensures var r := Infer(Arithmetic(op), [a, b]);
      r.Ok? <==> Elementwise.InferBinaryArithmetic(a, b).Ok?
    ensures var r := Infer(Arithmetic(op), [a, b]);
      r.Ok? ==> r.value == [Elementwise.InferBinaryArithmetic(a, b).value]
  {
  }
}
