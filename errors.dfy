/** The contract's error enumeration and the ways a host call can abort. */
module Errors {
  import opened Types

  /** `NonFungibleTokenError`, with its `u32` discriminants given by `Code`. */
  datatype NonFungibleTokenError =
    | NonExistentToken
    | IncorrectOwner
    | InsufficientApproval
    | InvalidApprover
    | InvalidLiveUntilLedger
    | MathOverflow
    | TokenIDsAreDepleted
    | InvalidAmount
    | TokenNotFoundInOwnerList
    | TokenNotFoundInGlobalList
    | TokenAlreadyMinted
    | BaseUriMaxLenExceeded
    | InvalidRoyaltyAmount
    | UnsetMetadata
    | InvalidSignature

  /** The code a `panic_with_error!` of this error reports to the caller. */
  function Code(e: NonFungibleTokenError): (c: u32)
    ensures 200 <= c <= 214
  {
    match e
    case NonExistentToken => 200
    case IncorrectOwner => 201
    case InsufficientApproval => 202
    case InvalidApprover => 203
    case InvalidLiveUntilLedger => 204
    case MathOverflow => 205
    case TokenIDsAreDepleted => 206
    case InvalidAmount => 207
    case TokenNotFoundInOwnerList => 208
    case TokenNotFoundInGlobalList => 209
    case TokenAlreadyMinted => 210
    case BaseUriMaxLenExceeded => 211
    case InvalidRoyaltyAmount => 212
    case UnsetMetadata => 213
    case InvalidSignature => 214
  }

  /** Distinct errors report distinct codes. */
  lemma CodeInjective(e1: NonFungibleTokenError, e2: NonFungibleTokenError)
    ensures Code(e1) == Code(e2) ==> e1 == e2
  {
  }

  /**
   * Why a host call aborted. Every abort discards the call's writes.
   *  - Panic: a `panic_with_error!` of the contract with this error.
   *  - RecoveryFailed: the host's secp256k1 recovery trapped (recovery id
   *    out of range, or a signature from which no key can be recovered).
   *  - ArithmeticOverflow: a checked `u32` addition overflowed (a Rust panic).
   */
  datatype Abort = Panic(error: NonFungibleTokenError) | RecoveryFailed | ArithmeticOverflow
}
