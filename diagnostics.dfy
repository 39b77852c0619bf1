/**
 * The two kinds of failure the graph core raises: validation failures (the
 * graph being built breaks an op's typing rule) and usage errors (the core
 * was called wrongly: a slot index out of range, a single-output accessor on
 * a multi-output node, a second friendly name).
 */
module Diagnostics {

  /** The explanation kind of a node validation failure, with the data it names. */
  datatype ValidationFailure =
    | InputElementTypeNotBoolean
    | ReductionAxisOutOfBounds(axis: nat)
    | ArgumentElementTypesInconsistent
    | ArgumentShapesInconsistent
    | ArgumentsBoolean

  /** Programmer errors: fatal misuse of the node interface. */
  datatype UsageError =
    | IndexOutOfRange
    | NotSingleOutput
    | ShapeNotStatic
    | FriendlyNameAlreadySet
    | OutputSizeShrinks
    | ArgumentNotSingleOutput(argument: nat)

  /** Why building a node failed: its arguments were unusable, or the op's rule rejected them. */
  datatype ConstructionFailure =
    | Misuse(usage: UsageError)
    | Invalid(validation: ValidationFailure)

  predicate IsDigit(c: char) {
    '0' <= c <= '9'
  }

  function DigitChar(d: nat): (c: char)
    requires d < 10
    ensures IsDigit(c) && c as int - '0' as int == d
  {
    ['0', '1', '2', '3', '4', '5', '6', '7', '8', '9'][d]
  }

  /** The decimal rendering of `n`, most significant digit first. */
  function Decimal(n: nat): (s: string)
    ensures |s| > 0
    ensures forall i :: 0 <= i < |s| ==> IsDigit(s[i])
  {
    if n < 10 then [DigitChar(n)] else Decimal(n / 10) + [DigitChar(n % 10)]
  }

  /** Distinct numbers render differently. */
  lemma {:induction false} DecimalInjective(m: nat, n: nat)
    requires Decimal(m) == Decimal(n)
    ensures m == n
  {
    var s, t := Decimal(m), Decimal(n);
    if m >= 10 && n >= 10 {
      assert s[..|s| - 1] == Decimal(m / 10) && t[..|t| - 1] == Decimal(n / 10);
      DecimalInjective(m / 10, n / 10);
      assert s[|s| - 1] == DigitChar(m % 10) && t[|t| - 1] == DigitChar(n % 10);
    }
  }

  /** The explanation text a validation failure carries. */
  function Explanation(f: ValidationFailure): string {
    match f
    case InputElementTypeNotBoolean => "Input element type must be boolean."
    case ReductionAxisOutOfBounds(axis) => "Reduction axis (" + Decimal(axis) + ") is out of bounds"
    case ArgumentElementTypesInconsistent => "Argument element types are inconsistent."
    case ArgumentShapesInconsistent => "Argument shapes are inconsistent."
    case ArgumentsBoolean => "Arguments cannot have boolean element type"
  }

  /** `sub` occurs somewhere in `s`. */
  predicate HasSubstring(s: string, sub: string) {
    exists k :: 0 <= k <= |s| && sub <= s[k..]
  }
}
