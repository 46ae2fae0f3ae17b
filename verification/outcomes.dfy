/** Small result types shared by the models. */
module Outcomes {
  datatype Option<+T> = None | Some(value: T)

  /**
   * What a write to the persisted state can do: succeed, fail after the change became
   * visible but before it is known to be durable, or fail before it became visible.
   * The last kind may leave the temporary file of an entry behind.
   */
  datatype Outcome = Done | FailedLate | FailedEarly(litter: bool)
}

