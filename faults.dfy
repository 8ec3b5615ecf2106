/**
 * The throwables that the terminal's command interpreter catches and
 * discards, as explicit values.
 */
module Faults {

  /** Why a command (or one step of it) was abandoned. */
  datatype Fault =
    | NoSuchArgument    // IndexOutOfBoundsException thrown by getArgument
    | NotANumber        // NumberFormatException from Integer.parseInt
    | IndexOutOfRange   // an array or String index outside its array

  datatype Result<+T> = Ok(value: T) | Err(fault: Fault)

  /** How one control sequence ended: carried out in full, or cut short by a
      caught throwable (after whatever it had already changed). */
  datatype Outcome = Done | Aborted(fault: Fault)
}
