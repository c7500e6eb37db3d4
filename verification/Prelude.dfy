/** Results, fixed-width integers and byte strings shared by every module. */
module Prelude {

  /** What the source reports by an exception, or leaves undefined (`OutOfRange`, `CountOverflow`). */
  datatype Error =
    | OutOfRange      // a read past the end of the string
    | EmptyKey        // BERDecode on no bytes
    | CountOverflow   // a list count that overflows the `int` loop counter
    | NoInputs | NoOutputs | ToSelf
    | BadSignature
    | ShortPacket | BadMagic | BadType
    | AcceptFailed

  datatype Result<+T> = Ok(value: T) | Err(error: Error) {
    predicate IsFailure() { Err? }
    function PropagateFailure<U>(): Result<U>
      requires Err?
    {
      Err(error)
    }
    function Extract(): T
      requires Ok?
    {
      value
    }
  }

  /** The outcome of reading a record at a cursor: the record and the cursor after it. */
  datatype Read<+T> = Got(value: T, next: nat) | Fail(error: Error) {
    predicate IsFailure() { Fail? }
    function PropagateFailure<U>(): Read<U>
      requires Fail?
    {
      Fail(error)
    }
    function Extract(): (T, nat)
      requires Got?
    {
      (value, next)
    }
    /** The record alone, for callers that do not see the cursor. */
    function Result(): Result<T> {
      match this
      case Got(v, _) => Ok(v)
      case Fail(e) => Err(e)
    }
  }

  type byte = n: nat | n < 256
  type uint8 = n: nat | n < 256
  type uint16 = n: nat | n < 0x1_0000
  type uint32 = n: nat | n < 0x1_0000_0000
  type uint64 = n: nat | n < 0x1_0000_0000_0000_0000

  type Bytes = seq<byte>

  /** The bytes `Save` writes for a public key; BERDecode rejects the empty string. */
  type Key = k: Bytes | |k| > 0 witness [0]

  /** A SHA-256 digest. */
  type Digest = d: Bytes | |d| == 32 witness seq(32, _ => 0)

  const TWO_TO_THE_31: nat := 0x8000_0000
  const TWO_TO_THE_32: nat := 0x1_0000_0000
}
