/**
 * The chip-signature gate shared by `mint`, `claim` and `transfer`, and the
 * host primitives it relies on.
 */
module ChipAuth {
  import opened Types
  import opened Wrappers
  import opened Errors

  /**
   * The host functions the gate calls, whose implementations are not part of
   * this model: SHA-256 (`e.crypto().sha256`), secp256k1 public-key recovery
   * (`e.crypto().secp256k1_recover`, None when the host traps) and the XDR
   * serialisation of a `u32` (`to_xdr`).
   */
  datatype Host = Host(
    sha256: seq<u8> -> Hash,
    secp256k1Recover: (Hash, Signature, u32) -> Option<PublicKey>,
    nonceToXdr: u32 -> seq<u8>)

  /** The bytes the chip signs the SHA-256 digest of: the message, then the encoded nonce. */
  function SignedMessage(host: Host, message: seq<u8>, nonce: u32): (b: seq<u8>)
    ensures |b| == |message| + |host.nonceToXdr(nonce)|
    ensures b[..|message|] == message && b[|message|..] == host.nonceToXdr(nonce)
  {
    message + host.nonceToXdr(nonce)
  }

  /**
   * The gate's verdict for a key whose stored nonce is `storedNonce`: the
   * nonce must exceed it, and the signature over the digest must recover to
   * exactly `publicKey`.
   */
  function ChipSignatureVerdict(host: Host, message: seq<u8>, signature: Signature, recoveryId: u32,
                                publicKey: PublicKey, nonce: u32, storedNonce: u32): (o: Result<(), Abort>)
    ensures o.Success? <==>
      storedNonce < nonce &&
      host.secp256k1Recover(host.sha256(SignedMessage(host, message, nonce)), signature, recoveryId) == Some(publicKey)
    ensures nonce <= storedNonce ==> o == Failure(Panic(InvalidSignature))
    ensures o.Failure? ==>
      o.error == Panic(InvalidSignature) ||
      (o.error == RecoveryFailed &&
       host.secp256k1Recover(host.sha256(SignedMessage(host, message, nonce)), signature, recoveryId).None?)
  {
    if nonce <= storedNonce then Failure(Panic(InvalidSignature))
    else
      match host.secp256k1Recover(host.sha256(SignedMessage(host, message, nonce)), signature, recoveryId)
      case None => Failure(RecoveryFailed)
      case Some(recovered) =>
        if recovered != publicKey then Failure(Panic(InvalidSignature)) else Success(())
  }

  /**
   * Replay protection: once a nonce has been accepted for a key (and stored),
   * presenting it again, or any smaller nonce, is refused; nonce 0 is never
   * accepted because the stored nonce starts at 0.
   */
  lemma ReplayRejected(host: Host, message: seq<u8>, signature: Signature, recoveryId: u32,
                          publicKey: PublicKey, nonce: u32, accepted: u32)
    requires nonce <= accepted
    ensures ChipSignatureVerdict(host, message, signature, recoveryId, publicKey, nonce, accepted)
            == Failure(Panic(InvalidSignature))
    ensures ChipSignatureVerdict(host, message, signature, recoveryId, publicKey, 0, 0)
            == Failure(Panic(InvalidSignature))
  {
  }
}
