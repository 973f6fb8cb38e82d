/** Machine integers, public keys and the Option/Result types shared by every module. */
module Primitives {
  const MAX_U64: int := 0xFFFF_FFFF_FFFF_FFFF
  const TWO_64: int := 0x1_0000_0000_0000_0000
  const TWO_63: int := 0x8000_0000_0000_0000

  type u8 = n: int | 0 <= n < 256
  type u64 = n: int | 0 <= n <= MAX_U64

  /** A public key; the modelled code only ever compares keys for equality. */
  datatype Pubkey = Pubkey(id: nat)

  datatype Option<+T> = None | Some(value: T)

  datatype Result<+T, +E> = Ok(value: T) | Err(error: E)

  function Min(a: int, b: int): int {
    if a <= b then a else b
  }

  /** The unchecked `+=` on a u64, which wraps in a release build. */
  function WrapAdd(a: u64, b: u64): u64 {
    if a + b <= MAX_U64 then a + b else a + b - TWO_64
  }

  /** `u64::saturating_add`. */
  function SatAdd(a: u64, b: u64): u64 {
    Min(a + b, MAX_U64)
  }

  /** `u64::saturating_mul`. */
  function SatMul(a: u64, b: u64): u64 {
    Min(a * b, MAX_U64)
  }

  /** A decoded SPL token transfer (graced/src/util/transfer.rs); only checked transfers carry a mint. */
  datatype TokenTransfer = TokenTransfer(sourceAccount: Pubkey, mint: Option<Pubkey>, destinationAccount: Pubkey,
                                         signer: Pubkey, amount: u64, token22: bool)
}
