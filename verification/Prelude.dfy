/** Shared value types: bytes, machine-word bounds, optional values and the diagnostics of grain-core. */
module Prelude {
  type byte = x: int | 0 <= x < 256
  type bytes = seq<byte>

  const U64_BOUND := 0x1_0000_0000_0000_0000
  type u64 = x: int | 0 <= x < U64_BOUND

  const I64_MIN := -0x8000_0000_0000_0000
  const I64_MAX := 0x7fff_ffff_ffff_ffff

  datatype Option<+T> = None | Some(value: T)

  datatype Result<+T, +E> = Ok(value: T) | Err(error: E)

  /** The diagnostics that the modelled operations can report (core/rust/grain-core/src/error.rs). */
  datatype Diag =
    | NonCanonical
    | DupMapKey
    | SetArrayOrder
    | SetArrayDup
    | TagForbidden
    | UnknownTopLevelKey
    | BadCidLink
    | CoseProfile
    | CoseTag18Forbidden
    | Schema
    | ManifestOp
    | QrPrefix
    | CborseqTruncated
    | CborseqGarbageTail
    | CborseqInvalidInitialByte
    | Limit
    | Overflow
    | SeqConflict
    | AkRevoked
    | UnauthorizedGrantIgnored
    | CapChashConflict

  /** The bytes of an ASCII literal; Rust compares such literals as UTF-8 bytes. */
  function Ascii(s: string): (b: bytes)
    ensures |b| == |s|
  {
    seq(|s|, i requires 0 <= i < |s| => s[i] as int % 256)
  }

  /** `n` copies of a byte. */
  function Fill(x: byte, n: nat): (b: bytes)
    ensures |b| == n
  {
    seq(n, _ => x)
  }
}
