/** A kernel operation either completes or stops the machine: a failed ASSERT or a PANIC
    ends in panic_spin (kernel/debug.c), which never returns. */
module Outcomes {

  datatype Option<+T> = None | Some(value: T)

  datatype Outcome<+T> = Halted | Next(value: T) {
    predicate IsFailure() {
      Halted?
    }

    function PropagateFailure<U>(): Outcome<U>
      requires Halted?
    {
      Halted
    }

    function Extract(): T
      requires Next?
    {
      value
    }
  }
}
