/** Shared vocabulary of the SGJW trailer decoder: optional slots, the status
    codes the public operations return, and the fixed-width integer types. */
module Types {

  /** A nullable slot: `None` stands for a NULL pointer. */
  datatype Option<+T> = None | Some(value: T)

  /** The `SGJW_*` return codes that the decoder can produce. */
  datatype Status =
    | Success
    | InvalidParams
    | ReadFailed
    | InvalidEof
    | InvalidOffset
    | FieldReadFailed

  type byte = b: int | 0 <= b < 0x100
  type uint16 = x: int | 0 <= x < 0x1_0000
  type uint32 = x: int | 0 <= x < 0x1_0000_0000
  type uint64 = x: int | 0 <= x < 0x1_0000_0000_0000_0000

  function Min(a: nat, b: nat): nat {
    if a <= b then a else b
  }
}
