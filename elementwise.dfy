/**
 * Inference for elementwise ops: the input descriptors are merged into one
 * (element type, partial shape) pair, and binary arithmetic gives its output
 * that pair, provided its element type is numeric.
 */
module Elementwise {
  import opened Results
  import opened Shapes
  import opened Diagnostics

  /** One merge step: the element types first, then the shapes. */
  function MergeDescriptors(acc: Descriptor, d: Descriptor): Result<Descriptor, ValidationFailure> {
    match MergeElementTypes(acc.elementType, d.elementType)
    case None => Err(ArgumentElementTypesInconsistent)
    case Some(et) =>
      match MergeShapes(acc.shape, d.shape)
      case None => Err(ArgumentShapesInconsistent)
      case Some(ps) => Ok(Descriptor(et, ps))
  }

  /** The shared pair of all inputs: input 0, merged with inputs 1, 2, ... in turn. */
  function ElementwiseArgs(inputs: seq<Descriptor>): Result<Descriptor, ValidationFailure>
    requires |inputs| > 0
  {
    if |inputs| == 1 then Ok(inputs[0])
    else
      match ElementwiseArgs(inputs[..|inputs| - 1])
      case Err(e) => Err(e)
      case Ok(acc) => MergeDescriptors(acc, inputs[|inputs| - 1])
  }

  /** Inference of a binary elementwise arithmetic op on `arg0` and `arg1`. */
  function InferBinaryArithmetic(arg0: Descriptor, arg1: Descriptor): (r: Result<Descriptor, ValidationFailure>)
    ensures r.Ok? ==> r.value.elementType != Boolean
  {
    match ElementwiseArgs([arg0, arg1])
    case Err(e) => Err(e)
    case Ok(d) => if d.elementType == Boolean then Err(ArgumentsBoolean) else Ok(d)
  }

  /** `d` is at least as specific as `e` in both element type and shape. */
  predicate DescriptorRefines(d: Descriptor, e: Descriptor) {
    ElementTypeRefines(d.elementType, e.elementType) && Refines(d.shape, e.shape)
  }

  lemma MergeDescriptorsSpec(a: Descriptor, b: Descriptor)
    ensures MergeDescriptors(a, b).Ok? <==>
      ElementTypesCompatible(a.elementType, b.elementType) && Compatible(a.shape, b.shape)
    ensures MergeDescriptors(a, b).Ok? ==>
      DescriptorRefines(MergeDescriptors(a, b).value, a) && DescriptorRefines(MergeDescriptors(a, b).value, b)
  {
    MergeElementTypesSpec(a.elementType, b.elementType);
    MergeShapesSpec(a.shape, b.shape);
  }

  /** The shared pair refines every input: it is at least as specific as each of them. */
  lemma {:induction false} ElementwiseArgsRefinesInputs(inputs: seq<Descriptor>)
    requires |inputs| > 0 && ElementwiseArgs(inputs).Ok?
    ensures forall i :: 0 <= i < |inputs| ==> DescriptorRefines(ElementwiseArgs(inputs).value, inputs[i])
  {
    if |inputs| > 1 {
      var front := inputs[..|inputs| - 1];
      var acc := ElementwiseArgs(front).value;
      var d := ElementwiseArgs(inputs).value;
      ElementwiseArgsRefinesInputs(front);
      MergeDescriptorsSpec(acc, inputs[|inputs| - 1]);
      forall i | 0 <= i < |inputs|
        ensures DescriptorRefines(d, inputs[i])
      {
        if i < |inputs| - 1 {
          assert front[i] == inputs[i];
          RefinesTransitive(d.shape, acc.shape, inputs[i].shape);
        }
      }
    }
  }

  /** Inputs that all carry the same descriptor merge into that descriptor. */
  lemma {:induction false} ElementwiseArgsUniform(inputs: seq<Descriptor>)
    requires |inputs| > 0
    requires forall i :: 0 <= i < |inputs| ==> inputs[i] == inputs[0]
    ensures ElementwiseArgs(inputs) == Ok(inputs[0])
  {
    if |inputs| > 1 {
      ElementwiseArgsUniform(inputs[..|inputs| - 1]);
      MergeShapesIdempotent(inputs[0].shape);
    }
  }

  /* ---------- The binary arithmetic contract ---------- */

  /** With two inputs the shared pair is one merge step. */
  lemma ElementwiseArgsPair(a: Descriptor, b: Descriptor)
    ensures ElementwiseArgs([a, b]) == MergeDescriptors(a, b)
  {
    assert [a, b][..1] == [a];
  }

  /** `N[d1..dn]` with `N` numeric, paired with itself, gives `N[d1..dn]`; this includes rank 0. */
  lemma BinaryArithmeticSameInputs(a: Descriptor)
    requires a.elementType != Boolean
    ensures InferBinaryArithmetic(a, a) == Ok(a)
  {
    ElementwiseArgsPair(a, a);
    MergeShapesIdempotent(a.shape);
  }

  /** A scalar (rank-0) operand pair is accepted. */
  lemma BinaryArithmeticScalar(et: ElementType)
    requires et != Boolean
    ensures InferBinaryArithmetic(Descriptor(et, Dims([])), Descriptor(et, Dims([]))) ==
      Ok(Descriptor(et, Dims([])))
  {
    BinaryArithmeticSameInputs(Descriptor(et, Dims([])));
  }

  /** For concrete types and static shapes, inference succeeds exactly when the operands agree and are numeric. */
  lemma BinaryArithmeticStatic(a: Descriptor, b: Descriptor)
    requires a.elementType != Dynamic && b.elementType != Dynamic
    requires IsStatic(a.shape) && IsStatic(b.shape)
    ensures InferBinaryArithmetic(a, b).Ok? <==> a == b && a.elementType != Boolean
    ensures InferBinaryArithmetic(a, b).Ok? ==> InferBinaryArithmetic(a, b).value == a
  {
    ElementwiseArgsPair(a, b);
    MergeStaticShapes(a.shape, b.shape);
    MergeShapesIdempotent(a.shape);
  }

  /** Element types that are both concrete and differ fail, whatever the shapes. */
  lemma BinaryArithmeticElementTypeMismatch(a: Descriptor, b: Descriptor)
    requires a.elementType != Dynamic && b.elementType != Dynamic && a.elementType != b.elementType
    ensures InferBinaryArithmetic(a, b) == Err(ArgumentElementTypesInconsistent)
  {
    ElementwiseArgsPair(a, b);
  }

  /** Shapes that cannot describe the same value fail once the element types agree. */
  lemma BinaryArithmeticShapeMismatch(a: Descriptor, b: Descriptor)
    requires ElementTypesCompatible(a.elementType, b.elementType)
    requires !Compatible(a.shape, b.shape)
    ensures InferBinaryArithmetic(a, b) == Err(ArgumentShapesInconsistent)
  {
    ElementwiseArgsPair(a, b);
    MergeShapesSpec(a.shape, b.shape);
  }

  /** The output is the most general descriptor that refines both operands. */
  lemma BinaryArithmeticMostGeneral(a: Descriptor, b: Descriptor, c: Descriptor)
    requires InferBinaryArithmetic(a, b).Ok?
    ensures DescriptorRefines(InferBinaryArithmetic(a, b).value, a)
    ensures DescriptorRefines(InferBinaryArithmetic(a, b).value, b)
    ensures DescriptorRefines(c, a) && DescriptorRefines(c, b) ==>
      DescriptorRefines(c, InferBinaryArithmetic(a, b).value)
  {
    ElementwiseArgsPair(a, b);
    MergeDescriptorsSpec(a, b);
    MergeElementTypesSpec(a.elementType, b.elementType);
    if DescriptorRefines(c, a) && DescriptorRefines(c, b) {
      MergeShapesGreatest(a.shape, b.shape, c.shape);
    }
  }

  /** Both operands feed one shared pair, so swapping them changes nothing. */
  lemma BinaryArithmeticSymmetric(a: Descriptor, b: Descriptor)
    ensures InferBinaryArithmetic(a, b) == InferBinaryArithmetic(b, a)
  {
    ElementwiseArgsPair(a, b);
    ElementwiseArgsPair(b, a);
    MergeElementTypesSpec(a.elementType, b.elementType);
    MergeShapesCommutative(a.shape, b.shape);
  }
}
