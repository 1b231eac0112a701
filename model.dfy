/** Values shared by both benchmark harnesses: runnables, specs, failures. */
module Model {

  datatype Option<+T> = None | Some(value: T)

  /** A `ThrowingRunnable`: the default no-op lambda of `ExtendedSpec`,
      or a caller-supplied lambda, told apart by a number. */
  datatype Runnable = NoOp | User(id: nat)

  /** The exceptions that can leave the builder, the registry or `run`. */
  datatype Error =
    | IllegalArgument(message: string)
    | NullPointer
      // `long` division by zero in the plain engine
    | Arithmetic
      // `BigDecimal.valueOf(NaN)` in the calibrated engine
    | NumberFormat
      // thrown by the runnable invoked as call number `call` of a run
    | ActionThrew(call: nat)

  /** A Java call that either returns a value or throws. */
  datatype Outcome<+T> = Done(value: T) | Threw(error: Error)

  /** `SpecImpl`: the four final fields. A spec carries no cleanup of its own. */
  datatype Spec = Spec(name: string, warmupCycles: int, iterationCycles: int, action: Runnable)

  /** `ExtendedSpec`: a holder whose cleanup field starts as the no-op lambda. */
  class ExtendedSpec {
    var cleanup: Runnable

    constructor ()
      ensures cleanup == NoOp
    {
      cleanup := NoOp;
    }
  }

  /** `SpecImpl.extended()`: a brand-new holder on every call, so it always
      carries the default cleanup, whatever was assigned to an earlier one. */
  method Extended(s: Spec) returns (e: ExtendedSpec)
    ensures fresh(e) && e.cleanup == NoOp
  {
    e := new ExtendedSpec();
  }

  /** What the builder guarantees of every spec it finishes. */
  predicate WellFormed(s: Spec)
  {
    |s.name| > 0 && s.warmupCycles >= 0 && s.iterationCycles >= 0
  }

  /** How many times `for (long k = 0; k < n; k++)` runs its body. */
  function Times(n: int): (r: nat)
    ensures r == 0 <==> n <= 0
    ensures n >= 0 ==> r == n
  {
    if n < 0 then 0 else n
  }

  function Names(specs: seq<Spec>): (ns: seq<string>)
    ensures |ns| == |specs| && forall i :: 0 <= i < |specs| ==> ns[i] == specs[i].name
  {
    seq(|specs|, i requires 0 <= i < |specs| => specs[i].name)
  }

  predicate Distinct<K(==)>(ks: seq<K>)
  {
    forall i, j :: 0 <= i < j < |ks| ==> ks[i] != ks[j]
  }
}
