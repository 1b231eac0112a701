/** The staged spec builder: `AddField.named` -> `AddWarmup.withWarmupCycles`
    -> `AddCycles.withIterations` -> `AddIterations.withAction` -> `AddEnd`.
    Each stage is an immutable value; each step checks its argument before
    building the next stage. */
module Builder {
  import opened Model

  datatype AddField = AddField
  datatype AddWarmup = AddWarmup(name: string)
  datatype AddCycles = AddCycles(warmup: int, parent: AddWarmup)
  datatype AddIterations = AddIterations(iterations: int, parent: AddCycles)
  datatype AddEnd = AddEnd(spec: Spec)

  const EmptyName := "fieldName must not be empty"
  const NegativeWarmup := "warmup cannot be negative"
  const NegativeIterations := "iterations cannot be negative"

  function Named(stage: AddField, fieldName: string): (r: Outcome<AddWarmup>)
    ensures r.Threw? <==> |fieldName| == 0
    ensures r.Threw? ==> r.error == IllegalArgument(EmptyName)
    ensures r.Done? ==> r.value.name == fieldName
  {
    if |fieldName| == 0 then Threw(IllegalArgument(EmptyName)) else Done(AddWarmup(fieldName))
  }

  function WithWarmupCycles(stage: AddWarmup, warmup: int): (r: Outcome<AddCycles>)
    ensures r.Threw? <==> warmup < 0
    ensures r.Threw? ==> r.error == IllegalArgument(NegativeWarmup)
    ensures r.Done? ==> r.value.warmup == warmup && r.value.parent == stage
  {
    if warmup < 0 then Threw(IllegalArgument(NegativeWarmup)) else Done(AddCycles(warmup, stage))
  }

  function WithIterations(stage: AddCycles, iterations: int): (r: Outcome<AddIterations>)
    ensures r.Threw? <==> iterations < 0
    ensures r.Threw? ==> r.error == IllegalArgument(NegativeIterations)
    ensures r.Done? ==> r.value.iterations == iterations && r.value.parent == stage
  {
    if iterations < 0 then Threw(IllegalArgument(NegativeIterations))
    else Done(AddIterations(iterations, stage))
  }

  /** `None` is Java's null, which `Objects.requireNonNull` rejects. */
  function WithAction(stage: AddIterations, action: Option<Runnable>): (r: Outcome<AddEnd>)
    ensures r.Threw? <==> action.None?
    ensures r.Threw? ==> r.error == NullPointer
    ensures r.Done? ==> r.value.spec == Spec(stage.parent.parent.name, stage.parent.warmup,
                                             stage.iterations, action.value)
  {
    match action
    case None => Threw(NullPointer)
    case Some(a) => Done(AddEnd(Spec(stage.parent.parent.name, stage.parent.warmup, stage.iterations, a)))
  }

  /** `withCleanupFunction`: the assignment lands on the holder that
      `extended()` has just made and that nothing keeps, so the stage comes
      back as it was, and the spec it carries has no cleanup to change. */
  method WithCleanupFunction(stage: AddEnd, cleanupFunction: Runnable) returns (r: AddEnd)
    ensures r == stage
  {
    var extended := Extended(stage.spec);
    extended.cleanup := cleanupFunction;
    r := stage;
  }

  /** The caller's chain `spec -> spec.named(n).withWarmupCycles(w)
      .withIterations(k).withAction(a)`, with the first exception
      propagating. It succeeds exactly when every argument is acceptable; the finished spec then carries exactly those
      arguments, and otherwise the exception is that of the first stage
      whose check fails. */
  function Build(name: string, warmup: int, iterations: int, action: Option<Runnable>): (r: Outcome<AddEnd>)
    ensures r.Done? <==> |name| > 0 && warmup >= 0 && iterations >= 0 && action.Some?
    ensures r.Done? ==> r.value.spec == Spec(name, warmup, iterations, action.value) && WellFormed(r.value.spec)
    ensures |name| == 0 ==> r == Threw(IllegalArgument(EmptyName))
    ensures |name| > 0 && warmup < 0 ==> r == Threw(IllegalArgument(NegativeWarmup))
    ensures |name| > 0 && warmup >= 0 && iterations < 0 ==> r == Threw(IllegalArgument(NegativeIterations))
    ensures |name| > 0 && warmup >= 0 && iterations >= 0 && action.None? ==> r == Threw(NullPointer)
  {
    match Named(AddField, name)
    case Threw(e) => Threw(e)
    case Done(w) =>
      match WithWarmupCycles(w, warmup)
      case Threw(e) => Threw(e)
      case Done(c) =>
        match WithIterations(c, iterations)
        case Threw(e) => Threw(e)
        case Done(i) => WithAction(i, action)
  }
}
