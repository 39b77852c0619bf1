/**
 * Type and shape inference of the boolean `All` reduction over an axis set:
 * the input element type must be boolean (or still dynamic), every reduction
 * axis must be below the input rank when the rank is known, and the output
 * keeps the dimensions at the non-reduced positions, in order.
 */
module Reduction {
  import opened Results
  import opened Shapes
  import opened Diagnostics

  /** The positions below `n` that are not reduced, in ascending order. */
  function KeptPositions(n: nat, axes: set<nat>): seq<nat> {
    if n == 0 then []
    else KeptPositions(n - 1, axes) + (if n - 1 in axes then [] else [n - 1])
  }

  /** The dimensions of `dims` at positions not in `axes`, visited from position 0 upward. */
  function Remaining(dims: seq<Dim>, axes: set<nat>): seq<Dim> {
    if |dims| == 0 then []
    else
      var last := |dims| - 1;
      Remaining(dims[..last], axes) + (if last in axes then [] else [dims[last]])
  }

  /** The reduction axes that are out of bounds for an input of rank `rank`. */
  function OutOfBounds(axes: set<nat>, rank: nat): (oob: set<nat>)
    ensures forall a :: a in oob <==> a in axes && a >= rank
  {
    set a | a in axes && a >= rank
  }

  /** The reduction axes below `n`. */
  function AxesBelow(axes: set<nat>, n: nat): set<nat> {
    set a | a in axes && a < n
  }

  /** `m` is the smallest element of `s`. */
  predicate IsLeast(m: nat, s: set<nat>) {
    m in s && forall x :: x in s ==> m <= x
  }

  lemma {:induction false} LeastExists(s: set<nat>)
    requires s != {}
    ensures exists m :: IsLeast(m, s)
  {
    var y :| y in s;
    if s != {y} {
      LeastExists(s - {y});
      var m :| IsLeast(m, s - {y});
      var least := if y < m then y else m;
      forall x | x in s
        ensures least <= x
      {
        if x != y {
          assert x in s - {y};
        }
      }
      assert IsLeast(least, s);
    } else {
      assert IsLeast(y, s);
    }
  }

  /** The smallest element of a non-empty set of axes: the first one an ordered walk meets. */
  function Least(s: set<nat>): (m: nat)
    requires s != {}
    ensures m in s && forall x :: x in s ==> m <= x
  {
    LeastExists(s);
    var m :| IsLeast(m, s);
    m
  }

  /**
   * Inference for `All(arg, axes)`: with a known rank the axis walk comes
   * first and stops at the smallest out-of-bounds axis; then the element type
   * must be compatible with boolean; the output is boolean.
   */
  function InferAll(input: Descriptor, axes: set<nat>): (r: Result<Descriptor, ValidationFailure>)
    ensures r.Ok? ==> r.value.elementType == Boolean
  {
    var typeOk := ElementTypesCompatible(input.elementType, Boolean);
    match input.shape
    case RankDynamic =>
      if typeOk then Ok(Descriptor(Boolean, RankDynamic)) else Err(InputElementTypeNotBoolean)
    case Dims(ds) =>
      var oob := OutOfBounds(axes, |ds|);
      if oob != {} then Err(ReductionAxisOutOfBounds(Least(oob)))
      else if !typeOk then Err(InputElementTypeNotBoolean)
      else Ok(Descriptor(Boolean, Dims(Remaining(ds, axes))))
  }

  /* ---------- The kept positions and the remaining dimensions ---------- */

  /** The kept positions are strictly increasing and are exactly the non-reduced positions below `n`. */
  lemma {:induction false} KeptPositionsSpec(n: nat, axes: set<nat>)
    ensures forall j, k :: 0 <= j < k < |KeptPositions(n, axes)| ==>
      KeptPositions(n, axes)[j] < KeptPositions(n, axes)[k]
    ensures forall i: nat :: i in KeptPositions(n, axes) <==> i < n && i !in axes
    ensures |KeptPositions(n, axes)| + |AxesBelow(axes, n)| == n
  {
    if n > 0 {
      KeptPositionsSpec(n - 1, axes);
      var prev := KeptPositions(n - 1, axes);
      var ks := KeptPositions(n, axes);
      assert forall i :: i in prev ==> i < n - 1;
      assert forall i :: i in ks <==> i in prev || (i == n - 1 && n - 1 !in axes);
      forall i: nat
        ensures i in ks <==> i < n && i !in axes
      {
        if i < n - 1 {
          assert i in prev <==> i !in axes;
        }
      }
      forall j, k | 0 <= j < k < |ks|
        ensures ks[j] < ks[k]
      {
        if k == |prev| {
          assert ks[j] == prev[j] && prev[j] in prev;
        } else {
          assert ks[j] == prev[j] && ks[k] == prev[k];
        }
      }
      if n - 1 in axes {
        assert AxesBelow(axes, n) == AxesBelow(axes, n - 1) + {n - 1};
      } else {
        assert AxesBelow(axes, n) == AxesBelow(axes, n - 1);
      }
    }
  }

  /** Output position `j` holds the input dimension at the `j`-th kept position. */
  lemma {:induction false} RemainingAtKept(dims: seq<Dim>, axes: set<nat>)
    ensures |Remaining(dims, axes)| == |KeptPositions(|dims|, axes)|
    ensures forall j :: 0 <= j < |Remaining(dims, axes)| ==>
      KeptPositions(|dims|, axes)[j] < |dims| &&
      Remaining(dims, axes)[j] == dims[KeptPositions(|dims|, axes)[j]]
  {
    if |dims| > 0 {
      var last := |dims| - 1;
      var front := dims[..last];
      RemainingAtKept(front, axes);
      KeptPositionsSpec(last, axes);
      assert forall i :: 0 <= i < |front| ==> front[i] == dims[i];
    }
  }

  /** With every axis in range the output rank is the input rank minus the number of axes. */
  lemma RemainingLength(dims: seq<Dim>, axes: set<nat>)
    requires forall a :: a in axes ==> a < |dims|
    ensures |Remaining(dims, axes)| == |dims| - |axes|
  {
    RemainingAtKept(dims, axes);
    KeptPositionsSpec(|dims|, axes);
    assert AxesBelow(axes, |dims|) == axes;
  }

  /* ---------- General properties of the inference ---------- */

  /** With an unknown rank no axis is checked: only the element type can fail, and the output rank stays unknown. */
  lemma AllRankDynamic(et: ElementType, axes: set<nat>)
    ensures InferAll(Descriptor(et, RankDynamic), axes) ==
      if et == Dynamic || et == Boolean then Ok(Descriptor(Boolean, RankDynamic))
      else Err(InputElementTypeNotBoolean)
  {
  }

  /** With a known rank, inference names an out-of-bounds axis exactly when one exists, and it names the smallest. */
  lemma AllAxisFailure(et: ElementType, dims: seq<Dim>, axes: set<nat>)
    ensures var r := InferAll(Descriptor(et, Dims(dims)), axes);
      (r.Err? && r.error.ReductionAxisOutOfBounds?) <==> exists a :: a in axes && a >= |dims|
    ensures var r := InferAll(Descriptor(et, Dims(dims)), axes);
      r.Err? && r.error.ReductionAxisOutOfBounds? ==>
        r.error.axis in axes && r.error.axis >= |dims| &&
        forall a :: a in axes && a < r.error.axis ==> a < |dims|
  {
    var r := InferAll(Descriptor(et, Dims(dims)), axes);
    if a :| a in axes && a >= |dims| {
      assert a in OutOfBounds(axes, |dims|);
    }
  }

  /** A concrete non-boolean input type fails once the axes are known to be in range (or the rank is unknown). */
  lemma AllElementTypeFailure(input: Descriptor, axes: set<nat>)
    requires input.shape.Dims? ==> forall a :: a in axes ==> a < |input.shape.dims|
    ensures InferAll(input, axes) == Err(InputElementTypeNotBoolean) <==>
      input.elementType != Dynamic && input.elementType != Boolean
  {
    if input.shape.Dims? {
      assert OutOfBounds(axes, |input.shape.dims|) == {};
    }
  }

  /**
   * On a known rank with every axis in range and a boolean-compatible type,
   * the output is boolean, its rank is the input rank minus the number of
   * axes, and output position `j` carries the input dimension at the `j`-th
   * non-reduced position, in ascending order.
   */
  lemma AllKnownRank(et: ElementType, dims: seq<Dim>, axes: set<nat>)
    requires et == Dynamic || et == Boolean
    requires forall a :: a in axes ==> a < |dims|
    ensures var r := InferAll(Descriptor(et, Dims(dims)), axes);
      r.Ok? && r.value.elementType == Boolean && r.value.shape.Dims? &&
      var out := r.value.shape.dims;
      var kept := KeptPositions(|dims|, axes);
      |out| == |dims| - |axes| && |out| == |kept| &&
      (forall j, k :: 0 <= j < k < |kept| ==> kept[j] < kept[k]) &&
      (forall i: nat :: i in kept <==> i < |dims| && i !in axes) &&
      (forall j :: 0 <= j < |out| ==> kept[j] < |dims| && out[j] == dims[kept[j]])
  {
    assert OutOfBounds(axes, |dims|) == {};
    RemainingLength(dims, axes);
    RemainingAtKept(dims, axes);
    KeptPositionsSpec(|dims|, axes);
  }

  /** Dimensions are carried through verbatim: a static input gives a static output. */
  lemma AllStaticStaysStatic(input: Descriptor, axes: set<nat>)
    requires IsStatic(input.shape)
    requires InferAll(input, axes).Ok?
    ensures IsStatic(InferAll(input, axes).value.shape)
  {
    var dims := input.shape.dims;
    assert OutOfBounds(axes, |dims|) == {};
    RemainingAtKept(dims, axes);
  }

  /** Reducing over no axes keeps the shape. */
  lemma {:induction false} RemainingNoAxes(dims: seq<Dim>)
    ensures Remaining(dims, {}) == dims
  {
    if |dims| > 0 {
      RemainingNoAxes(dims[..|dims| - 1]);
      assert dims[..|dims| - 1] + [dims[|dims| - 1]] == dims;
    }
  }


  /* ---------- The type-propagation test cases ---------- */

  /** Reducing a rank-2 input keeps each of its two dimensions unless its position is an axis. */
  lemma RemainingPair(x: Dim, y: Dim, axes: set<nat>)
    ensures Remaining([x, y], axes) == (if 0 in axes then [] else [x]) + (if 1 in axes then [] else [y])
  {
    assert [x, y][..1] == [x];
    assert [x][..0] == [];
    assert Remaining([x], axes) == (if 0 in axes then [] else [x]);
  }

  /** The `{2, 4}` input of the tests, with element type `et`. */
  function Input24(et: ElementType): (d: Descriptor)
    ensures d.shape == Dims([Known(2), Known(4)])
  {
    Descriptor(et, FromShape([2, 4]))
  }

  /** A `{2, 4}` input, boolean or type-dynamic, reduced over each axis set of the tests. */
  lemma AllDeduce(et: ElementType)
    requires et == Boolean || et == Dynamic
    ensures InferAll(Input24(et), {0}) == Ok(Descriptor(Boolean, FromShape([4])))
    ensures InferAll(Input24(et), {1}) == Ok(Descriptor(Boolean, FromShape([2])))
    ensures InferAll(Input24(et), {0, 1}) == Ok(Descriptor(Boolean, FromShape([])))
    ensures InferAll(Input24(et), {}) == Ok(Descriptor(Boolean, FromShape([2, 4])))
  {
    assert InferAll(Input24(et), {0}) == Ok(Descriptor(Boolean, FromShape([4]))) by {
      RemainingPair(Known(2), Known(4), {0});
      assert Remaining([Known(2), Known(4)], {0}) == [Known(4)];
      assert OutOfBounds({0}, 2) == {};
      assert FromShape([4]).dims == [Known(4)];
    }
    assert InferAll(Input24(et), {1}) == Ok(Descriptor(Boolean, FromShape([2]))) by {
      RemainingPair(Known(2), Known(4), {1});
      assert Remaining([Known(2), Known(4)], {1}) == [Known(2)];
      assert OutOfBounds({1}, 2) == {};
      assert FromShape([2]).dims == [Known(2)];
    }
    assert InferAll(Input24(et), {0, 1}) == Ok(Descriptor(Boolean, FromShape([]))) by {
      RemainingPair(Known(2), Known(4), {0, 1});
      assert OutOfBounds({0, 1}, 2) == {};
      assert FromShape([]).dims == [];
    }
    assert InferAll(Input24(et), {}) == Ok(Descriptor(Boolean, FromShape([2, 4]))) by {
      RemainingPair(Known(2), Known(4), {});
      assert Remaining([Known(2), Known(4)], {}) == [Known(2), Known(4)];
      assert OutOfBounds({}, 2) == {};
    }
  }

  /** An `i32` input fails with the boolean explanation. */
  lemma AllNonBoolean()
    ensures InferAll(Descriptor(I32, FromShape([2, 4])), {0, 1}) == Err(InputElementTypeNotBoolean)
    ensures HasSubstring(Explanation(InputElementTypeNotBoolean), "Input element type must be boolean")
  {
    assert OutOfBounds({0, 1}, 2) == {};
    assert "Input element type must be boolean" <= Explanation(InputElementTypeNotBoolean)[0..];
  }

  /** Axes `{0, 2, 1}` on rank 2 name axis 2. */
  lemma AllAxisOutOfBounds()
    ensures InferAll(Descriptor(Boolean, FromShape([2, 4])), {0, 2, 1}) == Err(ReductionAxisOutOfBounds(2))
    ensures HasSubstring(Explanation(ReductionAxisOutOfBounds(2)), "Reduction axis (2) is out of bounds")
  {
    assert OutOfBounds({0, 2, 1}, 2) == {2};
    assert Decimal(2) == "2";
    assert "Reduction axis (2) is out of bounds" <= Explanation(ReductionAxisOutOfBounds(2))[0..];
  }

  /** A rank-dynamic input accepts even far out-of-range axes; its output rank stays unknown. */
  lemma AllPartialRankDynamic()
    ensures InferAll(Descriptor(Boolean, RankDynamic), {2385, 0, 4404}) == Ok(Descriptor(Boolean, RankDynamic))
    ensures IsDynamic(RankDynamic)
  {
  }

  /** Unfolds the reduction over `{2, 3}` of a rank-5 input one position at a time. */
  lemma RemainingPrefixes(ds: seq<Dim>)
    requires |ds| == 5
    ensures Remaining(ds, {2, 3}) == [ds[0], ds[1], ds[4]]
  {
    var a: set<nat> := {2, 3};
    assert ds[..4][..3][..2][..1][..0] == [];
    assert Remaining(ds[..1], a) == [ds[0]];
    assert ds[..2][..1] == ds[..1];
    assert Remaining(ds[..2], a) == [ds[0], ds[1]];
    assert ds[..3][..2] == ds[..2];
    assert Remaining(ds[..3], a) == [ds[0], ds[1]];
    assert ds[..4][..3] == ds[..3];
    assert Remaining(ds[..4], a) == [ds[0], ds[1]];
    assert ds[..5] == ds;
  }

  /** `{1, 2, ?, 4, 5}` reduced over `{2, 3}` gives the fully static `{1, 2, 5}`. */
  lemma AllPartialRankStaticResultStatic()
    ensures var r := InferAll(Descriptor(Boolean, Dims([Known(1), Known(2), Dyn, Known(4), Known(5)])), {2, 3});
      r.Ok? && r.value.elementType == Boolean && ToShape(r.value.shape) == Some([1, 2, 5])
  {
    var ds := [Known(1), Known(2), Dyn, Known(4), Known(5)];
    assert OutOfBounds({2, 3}, 5) == {};
    assert ds[..4] == [Known(1), Known(2), Dyn, Known(4)];
    assert ds[..4][..3] == [Known(1), Known(2), Dyn];
    assert ds[..4][..3][..2] == [Known(1), Known(2)];
    assert ds[..4][..3][..2][..1] == [Known(1)];
    RemainingPrefixes(ds);
    assert Remaining(ds, {2, 3}) == [Known(1), Known(2), Known(5)];
    ToShapeFromShape([1, 2, 5]);
    assert FromShape([1, 2, 5]).dims == [Known(1), Known(2), Known(5)];
  }

  /** `{1, 2, ?, 4, ?}` reduced over `{2, 3}` gives `{1, 2, ?}`. */
  lemma AllPartialRankStaticResultDynamic()
    ensures InferAll(Descriptor(Boolean, Dims([Known(1), Known(2), Dyn, Known(4), Dyn])), {2, 3}) ==
      Ok(Descriptor(Boolean, Dims([Known(1), Known(2), Dyn])))
  {
    var ds := [Known(1), Known(2), Dyn, Known(4), Dyn];
    assert OutOfBounds({2, 3}, 5) == {};
    assert ds[..4] == [Known(1), Known(2), Dyn, Known(4)];
    assert ds[..4][..3] == [Known(1), Known(2), Dyn];
    assert ds[..4][..3][..2] == [Known(1), Known(2)];
    assert ds[..4][..3][..2][..1] == [Known(1)];
    RemainingPrefixes(ds);
  }

  /** Axes `{2, 5, 1}` on the rank-5 partial shape name axis 5. */
  lemma AllPartialRankStaticAxesOutOfBounds()
    ensures InferAll(Descriptor(Boolean, Dims([Known(1), Known(2), Dyn, Known(4), Dyn])), {2, 5, 1}) ==
      Err(ReductionAxisOutOfBounds(5))
    ensures HasSubstring(Explanation(ReductionAxisOutOfBounds(5)), "Reduction axis (5) is out of bounds")
  {
    assert OutOfBounds({2, 5, 1}, 5) == {5};
    assert Decimal(5) == "5";
    assert "Reduction axis (5) is out of bounds" <= Explanation(ReductionAxisOutOfBounds(5))[0..];
  }
}
