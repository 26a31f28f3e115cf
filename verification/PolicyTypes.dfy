/** The private half of a policy as the enclave holds it, and small result types. */
module PolicyTypes {
  import opened ByteStrings

  datatype Option<+T> = None | Some(value: T)

  type Uint16 = x: int | 0 <= x < 0x1_0000

  datatype Share = Share(recipient: Address, shareBps: Uint16)

  datatype PrivateConfig = PrivateConfig(shares: seq<Share>, salt: Bytes32)

  /** What EVALUATE returns: everything an execution needs. */
  datatype Evaluation = Evaluation(policy: Address, shares: seq<Share>, salt: Bytes32, signature: Bytes)

  /** A recipient as the browser holds it: the address is text there. The note is the display label. */
  datatype Recipient = Recipient(address: string, shareBps: int, note: Option<string>)

  const TOTAL_BPS: nat := 10_000

  /** The length of a Go slice is a non-negative 63-bit integer. */
  const SLICE_LIMIT: nat := 0x8000_0000_0000_0000

  /** The exact sum, unbounded. */
  function SumBps(shares: seq<Share>): nat {
    if shares == [] then 0 else SumBps(shares[..|shares| - 1]) + shares[|shares| - 1].shareBps
  }
}
