# Stellar Merch Shop — a Dafny model

Stellar Merch Shop is a Soroban smart contract for NFTs that are bound to
physical merchandise. Each item carries an NFC chip holding a secp256k1 key
pair. A token exists for each chip's public key, and every state-changing call
must carry a fresh signature by that chip:

- `mint` binds a new token id to the chip's key;
- `claim` gives the unowned token to a claimant;
- `transfer` moves it between addresses.

All three pass through one gate, `verify_chip_signature`. The gate accepts a
call only when:

- the nonce exceeds the one stored for the key;
- the signature over SHA-256(message ‖ XDR(nonce)) recovers to exactly that key.

It then stores the nonce. Any panic aborts the host call, and the host
discards all of the call's writes, the nonce write included.

This project models:

- the contract (`contract.dfy`): a class `StellarMerchShop` whose map fields
  are the contract's storage, with one method per state-changing entry point
  and one function per query;
- the gate's verdict as a function (`chip_auth.dfy`);
- the ledger invariant and the lemmas that every successful call keeps it
  (`ledger.dfy`);
- the test helper that puts an ECDSA signature into low-s form: a big-endian
  compare, then a borrow-propagating subtraction `n − s` over 32-byte arrays
  (`low_s.dfy`);
- the search for a recovery id that tries 0 to 3 in order (`low_s.dfy`).

`big_endian.dfy` gives byte strings their numeric value. `errors.dfy` mirrors
the error enumeration.

The host is a parameter of the model. SHA-256, secp256k1 public-key recovery
and the XDR encoding of a `u32` are function-valued fields of `ChipAuth.Host`.
A recovery that traps in the host is `None`.

The ledger invariant (`Ledger.Invariant`), kept by every method:

- exactly the ids below `NextTokenId` have a stored public key;
- the key-to-id and id-to-key maps are inverse to each other;
- `NextTokenId ≤ MaxTokens`;
- only minted ids have an owner;
- every address's balance is the number of tokens it owns.

## Model

| member | source | states |
|---|---|---|
| Contract.StellarMerchShop.constructor | contracts/stellar-merch-shop/src/contract.rs:31-40 | stores admin, name, symbol, base URI and cap, so `Name`/`Symbol` return the given name and symbol; the counter starts at 0 with no keys, owners, balances or nonces; the ledger invariant holds |
| Contract.StellarMerchShop.Name | contracts/stellar-merch-shop/src/contract.rs:178-183 | returns the name held in instance storage, which only the constructor writes |
| Contract.StellarMerchShop.Symbol | contracts/stellar-merch-shop/src/contract.rs:185-190 | returns the symbol held in instance storage, which only the constructor writes |
| Contract.StellarMerchShop.GetNonce | contracts/stellar-merch-shop/src/contract.rs:170-176 | never fails; 0 for a key that has never been used |
| Contract.StellarMerchShop.Balance | contracts/stellar-merch-shop/src/contract.rs:86-91 | never fails; 0 for an address that has never been credited |
| Contract.StellarMerchShop.BalanceCountsOwnedTokens | contracts/stellar-merch-shop/src/contract.rs:86-91 | in a valid state, the balance of an address equals the number of tokens it owns |
| Contract.StellarMerchShop.OwnerOf | contracts/stellar-merch-shop/src/contract.rs:93-97 | succeeds exactly when the token has an owner and returns that owner; otherwise fails with NonExistentToken |
| Contract.StellarMerchShop.OwnedTokensAreMinted | contracts/stellar-merch-shop/src/contract.rs:110-126 | an owned token id is below the counter and has a stored key, and its owner's balance is at least 1 |
| Contract.StellarMerchShop.TokenUri | contracts/stellar-merch-shop/src/contract.rs:192-212 | fails with NonExistentToken exactly when the id has no stored key; otherwise returns the base URI, then `/`, then 8 bytes whose big-endian value is the id (length `|uri| + 9`) |
| Contract.StellarMerchShop.TokenUriExistsForMintedIds | contracts/stellar-merch-shop/src/contract.rs:192-197 | in a valid state `token_uri` succeeds exactly for ids below `NextTokenId`, whether claimed or not |
| Contract.StellarMerchShop.VerifyChipSignature | contracts/stellar-merch-shop/src/contract.rs:219-252 | its result is the gate's verdict against the stored nonce; on success only that key's nonce changes and it becomes `nonce`; on failure nothing changes |
| Contract.StellarMerchShop.Mint | contracts/stellar-merch-shop/src/contract.rs:42-84 | errors in source order: gate, TokenAlreadyMinted for a bound key, TokenIDsAreDepleted when the counter has reached the cap; on success it returns the old counter, binds it to the key both ways, increments the counter, stores the nonce, adds no owner and changes no balance, and keeps the invariant; on any error the state is unchanged |
| Contract.StellarMerchShop.Claim | contracts/stellar-merch-shop/src/contract.rs:99-131 | errors in source order: gate, NonExistentToken for an unbound key, TokenAlreadyMinted for an owned token, overflow of the claimant's `u32` balance; on success it returns the key's id, the claimant becomes the owner, only the claimant's balance rises by 1, and the invariant is kept; on any error the state is unchanged |
| Contract.StellarMerchShop.GiveToClaimant | contracts/stellar-merch-shop/src/contract.rs:110-130 | the part of `claim` after the gate: the same error order, and on success the writes of `claim` to owner and balance |
| Contract.StellarMerchShop.Transfer | contracts/stellar-merch-shop/src/contract.rs:133-168 | errors in source order: gate, NonExistentToken for an id without a key, InvalidSignature for a different key, NonExistentToken for an unowned token, IncorrectOwner, overflow of `to`'s balance; on success `to` owns the token, `from` loses one, `to` gains one (no change when `from == to`), and the invariant is kept; on any error the state is unchanged |
| Contract.StellarMerchShop.MoveToken | contracts/stellar-merch-shop/src/contract.rs:155-167 | the writes of `transfer` after the owner check; `from`'s debit cannot underflow; overflow exactly when `from != to` and `to` holds `u32::MAX` |
| ChipAuth.SignedMessage | contracts/stellar-merch-shop/src/contract.rs:239-241 | the bytes hashed for the signature are the message followed by the XDR encoding of the nonce, with nothing between or after |
| ChipAuth.ChipSignatureVerdict | contracts/stellar-merch-shop/src/contract.rs:227-248 | accepts exactly when the nonce exceeds the stored one and recovery over SHA-256(message ‖ XDR(nonce)) yields the key; a stale nonce is InvalidSignature; any other failure is InvalidSignature or a trapped recovery |
| ChipAuth.ReplayRejected | contracts/stellar-merch-shop/src/contract.rs:227-236 | a nonce at or below an accepted one is refused with InvalidSignature, and nonce 0 is refused for a key never used |
| Ledger.EmptyInvariant | contracts/stellar-merch-shop/src/contract.rs:31-40 | the freshly constructed storage satisfies the ledger invariant |
| Ledger.OwnerBalancePositive | contracts/stellar-merch-shop/src/contract.rs:160-163 | when balances count ownership, the owner of a token has balance at least 1, so `from_balance - 1` cannot underflow |
| Ledger.MintStep | contracts/stellar-merch-shop/src/contract.rs:77-81 | the counter rises by exactly 1; the old counter is bound to the key in both maps, each gaining that one entry while every existing binding keeps its value; one Mint event is appended; owners, balances and nonces are untouched, so nothing else changes |
| Ledger.ClaimStep | contracts/stellar-merch-shop/src/contract.rs:123-128 | the claimant becomes the token's owner and every other token keeps its owner; the claimant's balance rises by 1 and every other balance is unchanged; one Claim event is appended; counter, both key maps and nonces are untouched, so nothing else changes |
| Ledger.TransferStep | contracts/stellar-merch-shop/src/contract.rs:160-167 | `to` becomes the token's owner and every other token keeps its owner; for `from != to`, `from` loses 1 and `to` gains 1; for `from == to` the read-after-write leaves all balances as they were; every other balance is unchanged; one Transfer event is appended; the counter, both key maps and nonces are untouched, so nothing else changes |
| Ledger.MintPreservesInvariant | contracts/stellar-merch-shop/src/contract.rs:62-79 | a mint of an unbound key under the cap uses an id that was never minted and keeps the invariant |
| Ledger.CreditOwnedBy | contracts/stellar-merch-shop/src/contract.rs:123-126 | giving an unowned token to the claimant adds it to the claimant's tokens only |
| Ledger.CreditKeepsCounting | contracts/stellar-merch-shop/src/contract.rs:123-126 | after the claim writes, every balance still counts the tokens that address owns |
| Ledger.ClaimPreservesInvariant | contracts/stellar-merch-shop/src/contract.rs:119-126 | claiming a minted, unowned token keeps the invariant |
| Ledger.MoveOwnedBy | contracts/stellar-merch-shop/src/contract.rs:160-160 | re-owning a token moves it from its old owner's tokens to the new owner's tokens and leaves every other address's tokens alone |
| Ledger.MoveKeepsCounting | contracts/stellar-merch-shop/src/contract.rs:160-165 | after the owner write and the two sequential balance writes, every balance still counts the tokens that address owns, including when `from == to` |
| Ledger.TransferPreservesInvariant | contracts/stellar-merch-shop/src/contract.rs:155-165 | a transfer by the owner keeps the invariant, and the owner's balance is at least 1 before the debit |
| Ledger.DenseIdsCount | contracts/stellar-merch-shop/src/contract.rs:77-79 | when exactly the ids below the counter are minted, there are as many minted ids as the counter |
| Ledger.InverseSameSize | contracts/stellar-merch-shop/src/contract.rs:78-79 | two maps that are inverse to each other have the same size |
| Ledger.MintedCount | contracts/stellar-merch-shop/src/contract.rs:67-77 | under the invariant, the number of keys, the number of ids and the counter are equal and at most `MaxTokens`, so no more than `MaxTokens` mints ever succeed |
| Ledger.TotalBalanceCountsOwnedTokens | contracts/stellar-merch-shop/src/contract.rs:123-165 | when balances count ownership, the sum of all balances is the number of owned tokens |
| Errors.Code | contracts/stellar-merch-shop/src/errors.rs:6-40 | every error code lies in 200..214 |
| Errors.CodeInjective | contracts/stellar-merch-shop/src/errors.rs:6-40 | distinct errors have distinct codes |
| BigEndian.ToBytes | contracts/stellar-merch-shop/src/contract.rs:209-209 | `to_be_bytes`: n bytes whose big-endian value is the number |
| BigEndian.ToBytesOfValue | contracts/stellar-merch-shop/src/contract.rs:209-209 | encoding a byte string's value at its own length gives the string back |
| BigEndian.ValueInjective | contracts/stellar-merch-shop/src/contract.rs:209-209 | byte strings of equal length with equal value are equal |
| BigEndian.LexGreaterIsNumericGreater | contracts/stellar-merch-shop/src/test.rs:131-140 | for equal lengths, "greater at the first differing byte" is the same as a greater big-endian value, in both directions |
| LowS.CurveOrderValue | contracts/stellar-merch-shop/src/test.rs:126-129 | the `curve_order` bytes denote the secp256k1 order n |
| LowS.HalfOrderValue | contracts/stellar-merch-shop/src/test.rs:116-117 | the bytes of the half order given in the comment denote ⌊n/2⌋ |
| LowS.HalfOrderAsWrittenValue | contracts/stellar-merch-shop/src/test.rs:121-124 | the `half_order` bytes as written denote HALF_N_AS_WRITTEN |
| LowS.HalfOrderIsHalfCurveOrder | contracts/stellar-merch-shop/src/test.rs:116-117 | n = 2·half + 1 |
| LowS.ExceedsHalf | contracts/stellar-merch-shop/src/test.rs:131-140 | the flag is set exactly when `s` is greater at the first differing byte, which is exactly when `s` is numerically greater than the half |
| LowS.BorrowStep | contracts/stellar-merch-shop/src/test.rs:148-158 | one byte step of the subtraction: digit minus subtrahend minus borrow-in equals the result byte minus 256 × borrow-out |
| LowS.SubtractStep | contracts/stellar-merch-shop/src/test.rs:147-159 | one loop iteration extends the subtracted suffix by one byte and keeps the value relation |
| LowS.SubtractFrom | contracts/stellar-merch-shop/src/test.rs:143-160 | the borrow stays 0 or 1; the result's value is (order − s) mod 2^(8·len); when s ≤ order the borrow is 0 and the result is exactly order − s; otherwise the borrow is 1 |
| LowS.NormalizeSWith | contracts/stellar-merch-shop/src/test.rs:119-164 | `normalize_s` over a given half and order: s unchanged when s ≤ half; order − s when half < s ≤ order; order − s + 2^256 when s > order |
| LowS.NormalizeS | contracts/stellar-merch-shop/src/test.rs:116-164 | with the true half order: s unchanged when s ≤ n/2; n − s when n/2 < s ≤ n; the output is in low-s form (≤ n/2) for every s ≤ n; it wraps mod 2^256 when s > n |
| LowS.NormalizeSAsWritten | contracts/stellar-merch-shop/src/test.rs:119-164 | with the `half_order` bytes as written: s unchanged when s ≤ HALF_N_AS_WRITTEN; n − s above it up to n; n − s + 2^256 when s > n, the final borrow being dropped |
| LowS.HighSKeptAsWritten | contracts/stellar-merch-shop/src/test.rs:121-124 | s = ⌊n/2⌋ + 1 is high (above n/2, at most n) yet not above the as-written half order, so the as-written helper returns it unchanged |
| LowS.FindRecoveryId | contracts/stellar-merch-shop/src/test.rs:179-191 | returns the smallest id in 0..3 whose recovery gives the expected key, having seen mismatches for all smaller ids; None when every id recovers a different key; a trap in the host aborts with every earlier id a mismatch |

## Left out

- SHA-256, secp256k1 public-key recovery and the XDR encoding of the nonce are host functions. They are uninterpreted parameters (`ChipAuth.Host`). The elliptic-curve maths is not modelled.
- That at most one recovery id in 0..3 recovers a given key is a property of ECDSA. It is not stated.
- Host transaction rollback is modelled by the contract restoring the storage it saved on entry (`Rollback`). The host's own transaction machinery is not modelled.
- Instance versus persistent storage, TTL and `contracttype` serialisation are not modelled. Storage is plain maps and fields of the class.
- Published events are modelled as a sequence in the class, not as the host's event log. In `events.rs` the `Mint` struct has a `to` field that `mint` does not supply, and there is no `Claim` struct. The model records the fields the contract passes.
- The `Admin` key is written by the constructor and never read. The model stores it only.
- The trait in `lib.rs` declares signatures that do not match the implementation. The model follows `contract.rs`. The approval keys and the approval operations declared there are not implemented and not modelled.
- `MathOverflow` is declared but never raised. An overflowing balance increment is modelled as the panic of a checked `u32` addition (`ArithmeticOverflow`), not as that error.
- The `String` built by `token_uri` is modelled as its raw bytes. The id bytes are not UTF-8 validated, and neither is the `String` built from them.
- The fixed signature vectors of the test and the assembly of `r ‖ s` into the 64-byte signature (test.rs:174-177) are fixtures, not behaviour.
- The test's call to `mint` with an extra `to` argument (test.rs:199-209) belongs to an older signature and is not modelled. So is its mint with nonce 0 (test.rs:85). The gate would refuse nonce 0 (`ChipAuth.ReplayRejected`).
- LowS.SubtractFrom: the source works on `[u8; 32]`. The model subtracts words of any equal length, and the 32-byte case is the one `normalize_s` uses.

## Findings

| source | as written | input that shows it | evidently intended | confidence | as-written member | corrected member |
|---|---|---|---|---|---|---|
| contracts/stellar-merch-shop/src/test.rs:121-124 | the `half_order` bytes are 7F, then 23 bytes FF, then 5D 57 6E 73 57 A4 50 1D. This is larger than the half order 0x7FFF…FF5D576E7357A4501DDFE92F46681B20A0 that the comment at test.rs:117 gives. | s = ⌊n/2⌋ + 1 = 0x7FFFFFFFFFFFFFFFFFFFFFFFFFFFFFFF5D576E7357A4501DDFE92F46681B20A1 is above n/2 but below the as-written bytes, so it is returned unnormalised in high-s form | compare against ⌊n/2⌋, so that every s ≤ n comes out at most n/2 | not executed | LowS.HighSKeptAsWritten | LowS.NormalizeS |
