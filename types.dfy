/**
 * Fixed-width integers and fixed-length byte strings of the Soroban host,
 * as they appear in the contract's signatures.
 */
module Types {

  type u8 = x: int | 0 <= x < 0x100
  type u32 = x: int | 0 <= x < 0x1_0000_0000
  type u64 = x: int | 0 <= x < 0x1_0000_0000_0000_0000

  const U32_MAX: u32 := 0xFFFF_FFFF
  const U64_MAX: u64 := 0xFFFF_FFFF_FFFF_FFFF

  /** `BytesN<65>`: an uncompressed SEC1 secp256k1 public key of a chip. */
  type PublicKey = b: seq<u8> | |b| == 65 witness seq(65, _ => 0)

  /** `BytesN<64>`: an ECDSA signature as the 32-byte `r` followed by the 32-byte `s`. */
  type Signature = b: seq<u8> | |b| == 64 witness seq(64, _ => 0)

  /** `Hash<32>`: a SHA-256 digest. */
  type Hash = b: seq<u8> | |b| == 32 witness seq(32, _ => 0)

  /** A Soroban `Address`: an account (its ed25519 key) or a contract (its id). */
  datatype Address = Account(key: seq<u8>) | Contract(id: seq<u8>)
}
