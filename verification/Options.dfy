/** The sum types shared by the models. */
module Options {
  datatype Option<+T> = None | Some(value: T)

  /** What a call does: return a code, or leave the buffer it works in. */
  datatype Outcome = Returned(rc: int) | Overrun
}
