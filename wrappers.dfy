/** Outcomes shared by the whole model.

    The kernel has no recoverable errors: every failure is a Rust `panic!`
    (an `expect`, an `assert!`, a division by zero, or a debug-build arithmetic
    or shift overflow), after which the machine halts.  The model makes each such
    panic an explicit outcome so that the conditions under which it happens can
    be stated and proved. */
module Wrappers {

  datatype Option<T> = None | Some(value: T)

  /** Why the kernel panicked. */
  datatype Reason =
    | DivisionByZero      // `x / x` with `x == 0`
    | ShiftOverflow       // `<<` or `>>` by at least the bit width (debug build)
    | ArithmeticOverflow  // `+`, `-` or `*` leaving the integer's range (debug build)
    | InvalidUsize        // `try_into::<usize>().expect(..)` of a negative distance
    | NoMemoryRegion      // allocator `init`: no memory-map entry holds the kernel
    | AllocFailed         // `alloc`: no free segment fits the request
    | InsertFailed        // `dealloc`: the insertion scan ran off the list
    | AssertFailed        // `dealloc`: `assert!(iterator < new_segment)` fired
    | NullDereference     // `dealloc`: a merge read a header through the null pointer

  /** The result of code that either returns a value or panics. */
  datatype Result<T> = Ok(value: T) | Panic(reason: Reason)
}
