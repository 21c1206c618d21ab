/**
 * The home page's new-cycle form: the validation schema, the rule that disables the
 * submit button, and the submit handler that resets the form to its default values.
 */
module Home {
  import opened Wrappers
  import opened Cycles

  /**
   * The minutes input, read with `valueAsNumber`: a number, or NaN when the input is
   * empty or not a number.
   */
  datatype NumberValue = Finite(value: int) | NaN

  /** The values the form holds. */
  datatype FormValues = FormValues(task: string, minutesAmount: NumberValue)

  /** What the schema can reject, one per failed check. */
  datatype Issue = TaskRequired | MinutesNotNumber | MinutesTooShort | MinutesTooLong

  const MinMinutes := 5
  const MaxMinutes := 60

  /** The values the form starts from and returns to on reset. */
  const DefaultValues := FormValues("", Finite(0))

  /** `zod.string().min(1)`. */
  function TaskIssues(task: string): (r: seq<Issue>)
    ensures r == [] <==> |task| >= 1
  {
    if |task| < 1 then [TaskRequired] else []
  }

  /** `zod.number().min(5).max(60)`: NaN fails the type check; a number runs both bounds. */
  function MinutesIssues(minutes: NumberValue): (r: seq<Issue>)
    ensures r == [] <==> minutes.Finite? && MinMinutes <= minutes.value <= MaxMinutes
  {
    match minutes
    case NaN => [MinutesNotNumber]
    case Finite(m) =>
      (if m < MinMinutes then [MinutesTooShort] else []) +
      (if m > MaxMinutes then [MinutesTooLong] else [])
  }

  /**
   * The schema: the form data when both fields pass, otherwise every issue found,
   * the task's first.
   */
  function Validate(values: FormValues): (r: Result<CreateCycleData, seq<Issue>>)
    ensures r.Success? <==>
      |values.task| >= 1 && values.minutesAmount.Finite? &&
      MinMinutes <= values.minutesAmount.value <= MaxMinutes
    ensures r.Success? ==>
      r.value == CreateCycleData(values.task, values.minutesAmount.value)
    ensures r.Failure? ==>
      && r.error != []
      && (TaskRequired in r.error <==> values.task == "")
      && (MinutesNotNumber in r.error <==> values.minutesAmount.NaN?)
      && (MinutesTooShort in r.error <==>
            values.minutesAmount.Finite? && values.minutesAmount.value < MinMinutes)
      && (MinutesTooLong in r.error <==>
            values.minutesAmount.Finite? && values.minutesAmount.value > MaxMinutes)
  {
    var issues := TaskIssues(values.task) + MinutesIssues(values.minutesAmount);
    if issues == [] then Success(CreateCycleData(values.task, values.minutesAmount.value))
    else Failure(issues)
  }

  /** `isSubmitDisabled = !task`: only the empty string is falsy. */
  function IsSubmitDisabled(task: string): (r: bool)
    ensures r <==> TaskIssues(task) == [TaskRequired]
  {
    task == ""
  }

  /**
   * The button is disabled exactly when the schema would reject the task; an enabled
   * button still lets the schema reject the minutes.
   */
  lemma SubmitDisabledIffTaskRejected(values: FormValues)
    ensures IsSubmitDisabled(values.task) <==>
      Validate(values).Failure? && TaskRequired in Validate(values).error
    ensures IsSubmitDisabled(values.task) ==> Validate(values).Failure?
  {
  }

  /** The defaults fail both fields: a freshly reset form cannot be submitted unchanged. */
  lemma DefaultValuesAreRejected()
    ensures Validate(DefaultValues) == Failure([TaskRequired, MinutesTooShort])
    ensures IsSubmitDisabled(DefaultValues.task)
  {
    assert TaskIssues(DefaultValues.task) == [TaskRequired];
    assert MinutesIssues(DefaultValues.minutesAmount) == [MinutesTooShort] + [];
    assert [TaskRequired] + ([MinutesTooShort] + []) == [TaskRequired, MinutesTooShort];
  }

  /** The form state useForm keeps for the page. */
  class NewCycleFormState {
    var values: FormValues

    constructor ()
      ensures values == DefaultValues
    {
      values := DefaultValues;
    }

    /**
     * handleSubmit: runs the schema; when it passes, handleCreateNewCycle receives the
     * data and resets the form to its defaults; when it fails, the form is left as it is.
     */
    method Submit() returns (r: Result<CreateCycleData, seq<Issue>>)
      modifies this
      ensures r == Validate(old(values))
      ensures r.Success? ==> values == DefaultValues && Validate(values).Failure?
      ensures r.Failure? ==> values == old(values)
    {
      r := Validate(values);
      if r.Success? {
        HandleCreateNewCycle(r.value);
      }
    }

    /** The submit handler: resets the form (the data itself is only logged). */
    method HandleCreateNewCycle(data: CreateCycleData)
      modifies this
      ensures values == DefaultValues
    {
      values := DefaultValues;
    }
  }
}
