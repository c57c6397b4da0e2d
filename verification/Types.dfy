/** Value types shared by every layer of the `.esc` pipeline. */
module Types {

  type byte = x: int | 0 <= x < 0x100

  type uint32 = x: int | 0 <= x < 0x1_0000_0000

  type uint64 = x: int | 0 <= x < 0x1_0000_0000_0000_0000

  datatype Option<+T> = None | Some(value: T)

  datatype Error =
    | Ok
    | NotInitialized
    | Busy
    | InvalidArgument
    | OpenFailed
    | ReadFailed
    | WriteFailed
    | OutputOverflow
    | Cancelled
    | CorruptData
    | UnsupportedVersion
    | UnsupportedAlgorithm
    | NoMemory
    | InternalError

  function Min(a: int, b: int): int {
    if a < b then a else b
  }
}
