/** Types shared by every part of the model: machine integers as bounded
    ranges of `int`, little-endian pairs, and the usual Option and Result. */
module Common {

  /** Go's `byte` and `uint16`. Bit operations on them are written as the
      division and remainder they stand for. */
  type byte = x: int | 0 <= x < 0x100
  type uint16 = x: int | 0 <= x < 0x1_0000

  datatype Option<+T> = None | Some(value: T)

  datatype Error =
    | ExecFailed        // the IPMI layer returned an error
    | NoData            // a reply without any byte
    | ShortReply        // a reply with fewer bytes than are looked at: Go panics
    | ShortRecord       // a sensor's record without its fields: Go panics
    | BadReplyLength    // "Additional data result unexpected"
    | NoSdr             // "Fail to find a valuable SDR"
    | BadRecordType     // "Unexpected RecordType"
    | BadInventorySize  // "Invalid fruInventoryAreaSize"
    | BadProductSize    // "Invalid fruProductInfoSize"
    | BadResponse       // a response that GenericValidator refuses

  datatype Result<+T> = Ok(value: T) | Err(error: Error)

  function Lo(x: uint16): byte { x % 0x100 }

  function Hi(x: uint16): byte { x / 0x100 }

  /** `uint16(lo) | uint16(hi) << 8` */
  function LittleEndian(lo: byte, hi: byte): (x: uint16)
    ensures Lo(x) == lo && Hi(x) == hi
  {
    lo + 0x100 * hi
  }

  function Min(a: int, b: int): int { if a <= b then a else b }

  function Zeros(n: nat): (s: seq<byte>)
    ensures |s| == n
  {
    seq(n, _ => 0)
  }

  /** 0, 1, ... n-1 */
  function Ids(n: nat): (ids: set<nat>)
    ensures forall i: nat :: i in ids <==> i < n
    ensures |ids| == n
  {
    if n == 0 then {} else Ids(n - 1) + {n - 1}
  }

  function Pow2(i: nat): (p: nat)
    ensures p > 0
  {
    if i == 0 then 1 else 2 * Pow2(i - 1)
  }

  /** `x & (1 << i) != 0` */
  predicate Bit(x: nat, i: nat)
    decreases i
  {
    if i == 0 then x % 2 == 1 else Bit(x / 2, i - 1)
  }
}
