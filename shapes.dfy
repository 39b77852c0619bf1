/**
 * Tensor descriptors: element types, dimensions and partial shapes, with the
 * merge (unification) rules that shape inference relies on.
 */
module Shapes {
  import opened Results

  /** Element types; `Dynamic` stands for a type that inference has not fixed yet. */
  datatype ElementType =
    | Dynamic | Boolean
    | BF16 | F16 | F32 | F64
    | I8 | I16 | I32 | I64
    | U1 | U8 | U16 | U32 | U64

  /** One dimension of a partial shape: a concrete size or unknown. */
  datatype Dim = Known(size: nat) | Dyn

  /** A shape whose rank may be unknown and whose dimensions may be unknown. */
  datatype PartialShape = RankDynamic | Dims(dims: seq<Dim>)

  /** The static metadata of one graph value. */
  datatype Descriptor = Descriptor(elementType: ElementType, shape: PartialShape)

  /** A fully static shape. */
  type Shape = seq<nat>

  predicate IsStatic(p: PartialShape) {
    p.Dims? && forall i :: 0 <= i < |p.dims| ==> p.dims[i].Known?
  }

  /** True if the rank is unknown or some dimension is unknown. */
  predicate IsDynamic(p: PartialShape) {
    !IsStatic(p)
  }

  /** The partial shape that is exactly the static shape `s`. */
  function FromShape(s: Shape): (p: PartialShape)
    ensures IsStatic(p) && |p.dims| == |s|
    ensures forall i :: 0 <= i < |s| ==> p.dims[i] == Known(s[i])
  {
    Dims(seq(|s|, i requires 0 <= i < |s| => Known(s[i])))
  }

  /** Concretization: the static shape of `p`, which exists only when `p` is static. */
  function ToShape(p: PartialShape): (r: Option<Shape>)
    ensures r.Some? <==> IsStatic(p)
    ensures r.Some? ==> FromShape(r.value) == p
  {
    if IsStatic(p) then
      var s := seq(|p.dims|, i requires 0 <= i < |p.dims| => p.dims[i].size);
      assert FromShape(s).dims == p.dims;
      Some(s)
    else None
  }

  lemma ToShapeFromShape(s: Shape)
    ensures ToShape(FromShape(s)) == Some(s)
  {
    var r := ToShape(FromShape(s));
    assert r.Some?;
    assert |r.value| == |s|;
    assert forall i :: 0 <= i < |s| ==> r.value[i] == s[i];
    assert r.value == s;
  }

  /* ---------- Element types ---------- */

  /** `a` and `b` can denote the same type: equal, or one of them still dynamic. */
  predicate ElementTypesCompatible(a: ElementType, b: ElementType) {
    a == Dynamic || b == Dynamic || a == b
  }

  /** `a` is at least as specific as `b`. */
  predicate ElementTypeRefines(a: ElementType, b: ElementType) {
    b == Dynamic || a == b
  }

  /** Element type merge: a dynamic side adopts the other; two concrete types must agree. */
  function MergeElementTypes(a: ElementType, b: ElementType): Option<ElementType> {
    if a == Dynamic then Some(b)
    else if b == Dynamic then Some(a)
    else if a == b then Some(a)
    else None
  }

  lemma MergeElementTypesSpec(a: ElementType, b: ElementType)
    ensures MergeElementTypes(a, b).Some? <==> ElementTypesCompatible(a, b)
    ensures MergeElementTypes(a, b) == MergeElementTypes(b, a)
    ensures MergeElementTypes(a, b).Some? ==>
      var t := MergeElementTypes(a, b).value;
      ElementTypeRefines(t, a) && ElementTypeRefines(t, b) &&
      forall u :: ElementTypeRefines(u, a) && ElementTypeRefines(u, b) ==> ElementTypeRefines(u, t)
  {
  }

  /* ---------- Dimensions and partial shapes ---------- */

  predicate DimsCompatible(d: Dim, e: Dim) {
    d.Dyn? || e.Dyn? || d == e
  }

  /** `d` is at least as specific as `e`. */
  predicate DimRefines(d: Dim, e: Dim) {
    e.Dyn? || d == e
  }

  /** Dimension merge: an unknown side adopts the other; two sizes must be equal. */
  function MergeDim(a: Dim, b: Dim): Option<Dim> {
    if a.Dyn? then Some(b)
    else if b.Dyn? then Some(a)
    else if a == b then Some(a)
    else None
  }

  /** Position-wise merge of two dimension lists of the same length. */
  function MergeDims(xs: seq<Dim>, ys: seq<Dim>): Option<seq<Dim>>
    requires |xs| == |ys|
  {
    if |xs| == 0 then Some([])
    else
      match MergeDim(xs[0], ys[0])
      case None => None
      case Some(d) =>
        match MergeDims(xs[1..], ys[1..])
        case None => None
        case Some(rest) => Some([d] + rest)
  }

  /**
   * Partial-shape merge: an unknown rank adopts the other side; known ranks
   * must be equal and every position must merge.
   */
  function MergeShapes(a: PartialShape, b: PartialShape): Option<PartialShape> {
    if a.RankDynamic? then Some(b)
    else if b.RankDynamic? then Some(a)
    else if |a.dims| != |b.dims| then None
    else
      match MergeDims(a.dims, b.dims)
      case None => None
      case Some(ds) => Some(Dims(ds))
  }

  /** Two partial shapes can describe the same value. */
  predicate Compatible(p: PartialShape, q: PartialShape) {
    p.RankDynamic? || q.RankDynamic? ||
    (|p.dims| == |q.dims| && forall i :: 0 <= i < |p.dims| ==> DimsCompatible(p.dims[i], q.dims[i]))
  }

  /** `p` is at least as specific as `q`: everything `p` describes, `q` allows. */
  predicate Refines(p: PartialShape, q: PartialShape) {
    q.RankDynamic? ||
    (p.Dims? && |p.dims| == |q.dims| &&
     forall i :: 0 <= i < |p.dims| ==> DimRefines(p.dims[i], q.dims[i]))
  }

  /** The dimension merge succeeds exactly where the inputs agree, position by position. */
  lemma {:induction false} MergeDimsSpec(xs: seq<Dim>, ys: seq<Dim>)
    requires |xs| == |ys|
    ensures MergeDims(xs, ys).Some? <==> forall i :: 0 <= i < |xs| ==> DimsCompatible(xs[i], ys[i])
    ensures MergeDims(xs, ys).Some? ==>
      |MergeDims(xs, ys).value| == |xs| &&
      forall i :: 0 <= i < |xs| ==> Some(MergeDims(xs, ys).value[i]) == MergeDim(xs[i], ys[i])
  {
    if |xs| > 0 {
      MergeDimsSpec(xs[1..], ys[1..]);
      if MergeDim(xs[0], ys[0]).Some? && MergeDims(xs[1..], ys[1..]).Some? {
        var zs := MergeDims(xs, ys).value;
        forall i | 0 <= i < |xs|
          ensures Some(zs[i]) == MergeDim(xs[i], ys[i])
        {
          if i > 0 {
            assert xs[i] == xs[1..][i - 1] && ys[i] == ys[1..][i - 1];
          }
        }
      } else if MergeDim(xs[0], ys[0]).Some? {
        var j :| 0 <= j < |xs| - 1 && !DimsCompatible(xs[1..][j], ys[1..][j]);
        assert !DimsCompatible(xs[j + 1], ys[j + 1]);
      }
    }
  }

  /** Merge succeeds exactly on compatible shapes, and then yields a common refinement. */
  lemma MergeShapesSpec(a: PartialShape, b: PartialShape)
    ensures MergeShapes(a, b).Some? <==> Compatible(a, b)
    ensures MergeShapes(a, b).Some? ==>
      Refines(MergeShapes(a, b).value, a) && Refines(MergeShapes(a, b).value, b)
  {
    if a.Dims? && b.Dims? && |a.dims| == |b.dims| {
      MergeDimsSpec(a.dims, b.dims);
    }
  }

  /** The merge is the most general common refinement: every common refinement refines it. */
  lemma MergeShapesGreatest(a: PartialShape, b: PartialShape, c: PartialShape)
    requires Refines(c, a) && Refines(c, b)
    ensures MergeShapes(a, b).Some? && Refines(c, MergeShapes(a, b).value)
  {
    if a.Dims? && b.Dims? {
      MergeDimsSpec(a.dims, b.dims);
      assert forall i :: 0 <= i < |a.dims| ==> DimRefines(c.dims[i], a.dims[i]) && DimRefines(c.dims[i], b.dims[i]);
    }
  }

  lemma MergeShapesCommutative(a: PartialShape, b: PartialShape)
    ensures MergeShapes(a, b) == MergeShapes(b, a)
  {
    if a.Dims? && b.Dims? && |a.dims| == |b.dims| {
      MergeDimsSpec(a.dims, b.dims);
      MergeDimsSpec(b.dims, a.dims);
      if MergeDims(a.dims, b.dims).Some? {
        var u, v := MergeDims(a.dims, b.dims).value, MergeDims(b.dims, a.dims).value;
        assert forall i :: 0 <= i < |u| ==> u[i] == v[i] by {
          forall i | 0 <= i < |u| ensures u[i] == v[i] {
            assert Some(u[i]) == MergeDim(a.dims[i], b.dims[i]);
            assert Some(v[i]) == MergeDim(b.dims[i], a.dims[i]);
          }
        }
        assert u == v;
      }
    }
  }

  /** Merging a shape with itself gives it back. */
  lemma MergeShapesIdempotent(a: PartialShape)
    ensures MergeShapes(a, a) == Some(a)
  {
    if a.Dims? {
      MergeDimsSpec(a.dims, a.dims);
      var u := MergeDims(a.dims, a.dims).value;
      assert forall i :: 0 <= i < |u| ==> Some(u[i]) == MergeDim(a.dims[i], a.dims[i]);
      assert u == a.dims;
    }
  }

  /** On static shapes, merge succeeds exactly when the shapes are equal. */
  lemma MergeStaticShapes(a: PartialShape, b: PartialShape)
    requires IsStatic(a) && IsStatic(b)
    ensures MergeShapes(a, b).Some? <==> a == b
  {
    MergeShapesSpec(a, b);
    MergeShapesIdempotent(a);
    if Compatible(a, b) {
      assert forall i :: 0 <= i < |a.dims| ==> a.dims[i] == b.dims[i] by {
        forall i | 0 <= i < |a.dims| ensures a.dims[i] == b.dims[i] {
          assert DimsCompatible(a.dims[i], b.dims[i]);
        }
      }
      assert a.dims == b.dims;
    }
  }

  lemma RefinesTransitive(p: PartialShape, q: PartialShape, r: PartialShape)
    requires Refines(p, q) && Refines(q, r)
    ensures Refines(p, r)
  {
    if r.Dims? {
      assert forall i :: 0 <= i < |p.dims| ==> DimRefines(p.dims[i], q.dims[i]) && DimRefines(q.dims[i], r.dims[i]);
    }
  }
}
