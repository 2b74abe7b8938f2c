/**
 * The `StellarMerchShop` contract: tokens minted, claimed and transferred
 * under the authority of a chip's secp256k1 signature.
 *
 * Each call runs as one host transaction. A `panic_with_error!`, a trapped
 * host call or an arithmetic overflow aborts the call and the host discards
 * every write it made, the nonce write included; the methods below model
 * that by restoring the storage they saved on entry (`Rollback`).
 */
module Contract {
  import opened Types
  import opened Wrappers
  import opened Errors
  import opened BigEndian
  import opened ChipAuth
  import opened Ledger

  /** The byte `/` placed between the base URI and the token id. */
  const SLASH: u8 := 0x2F

  class StellarMerchShop {
    // Instance storage written once, by the constructor.
    const admin: Address
    const name: seq<u8>
    const symbol: seq<u8>
    const uri: seq<u8>
    const maxTokens: u64

    // Storage the calls change.
    var nextTokenId: u64
    var nonces: map<PublicKey, u32>
    var tokenIdByPublicKey: map<PublicKey, u64>
    var publicKeys: map<u64, PublicKey>
    var owners: map<u64, Address>
    var balances: map<Address, u32>
    var events: seq<Event>

    /** The changeable storage as one value. */
    function Snapshot(): Storage
      reads this
    {
      Storage(nextTokenId, nonces, tokenIdByPublicKey, publicKeys, owners, balances, events)
    }

    ghost predicate Valid()
      reads this
    {
      Invariant(Snapshot(), maxTokens)
    }

    /** `__constructor`: stores the metadata and the cap, and sets `NextTokenId` to 0. */
    constructor (admin: Address, name: seq<u8>, symbol: seq<u8>, uri: seq<u8>, maxTokens: u64)
      ensures Valid()
      ensures this.admin == admin && this.name == name && this.symbol == symbol
      ensures this.uri == uri && this.maxTokens == maxTokens
      ensures Name() == name && Symbol() == symbol
      ensures Snapshot() == EMPTY
    {
      this.admin := admin;
      this.name := name;
      this.symbol := symbol;
      this.uri := uri;
      this.maxTokens := maxTokens;
      nextTokenId := 0;
      nonces := map[];
      tokenIdByPublicKey := map[];
      publicKeys := map[];
      owners := map[];
      balances := map[];
      events := [];
      new;
      EmptyInvariant(maxTokens);
    }

    /** The host discarding an aborted call's writes. */
    method Rollback(saved: Storage)
      modifies this
      ensures Snapshot() == saved
    {
      nextTokenId := saved.nextTokenId;
      nonces := saved.nonces;
      tokenIdByPublicKey := saved.tokenIdByPublicKey;
      publicKeys := saved.publicKeys;
      owners := saved.owners;
      balances := saved.balances;
      events := saved.events;
    }

    /** `name`: the collection name stored at construction. */
    function Name(): (n: seq<u8>)
      reads this
      ensures n == name
    {
      name
    }

    /** `symbol`: the collection symbol stored at construction. */
    function Symbol(): (s: seq<u8>)
      reads this
      ensures s == symbol
    {
      symbol
    }

    /** `get_nonce`: the last nonce accepted for a key; never fails. */
    function GetNonce(publicKey: PublicKey): (n: u32)
      reads this
      ensures publicKey !in nonces ==> n == 0
    {
      if publicKey in nonces then nonces[publicKey] else 0
    }

    /** `balance`: never fails; it is the number of tokens the address owns. */
    function Balance(owner: Address): (b: u32)
      reads this
      ensures owner !in balances ==> b == 0
    {
      BalanceIn(balances, owner)
    }

    /** In a valid state an address's balance is the number of tokens it owns. */
    lemma BalanceCountsOwnedTokens(owner: Address)
      requires Valid()
      ensures Balance(owner) == |OwnedBy(owners, owner)|
    {
    }

    /** `owner_of`: fails for a token that is not minted or not yet claimed. */
    function OwnerOf(tokenId: u64): (r: Result<Address, Abort>)
      reads this
      ensures r.Success? <==> tokenId in owners
      ensures r.Failure? ==> r.error == Panic(NonExistentToken)
      ensures r.Success? ==> owners[tokenId] == r.value
    {
      if tokenId in owners then Success(owners[tokenId]) else Failure(Panic(NonExistentToken))
    }

    /** In a valid state only minted tokens have owners, and an owner's balance is at least 1. */
    lemma OwnedTokensAreMinted(tokenId: u64)
      requires Valid() && OwnerOf(tokenId).Success?
      ensures tokenId < nextTokenId && tokenId in publicKeys
      ensures Balance(OwnerOf(tokenId).value) >= 1
    {
      OwnerBalancePositive(balances, owners, tokenId);
    }

    /**
     * `token_uri`: the base URI, a `/` and the eight big-endian bytes of the
     * id (raw bytes, not decimal digits); fails for an id never minted,
     * whether or not it has been claimed.
     */
    function TokenUri(tokenId: u64): (r: Result<seq<u8>, Abort>)
      reads this
      ensures r.Success? <==> tokenId in publicKeys
      ensures r.Failure? ==> r.error == Panic(NonExistentToken)
      ensures r.Success? ==>
        && |r.value| == |uri| + 9
        && r.value[..|uri|] == uri
        && r.value[|uri|] == SLASH
        && Value(r.value[|uri| + 1..]) == tokenId
    {
      if tokenId !in publicKeys then Failure(Panic(NonExistentToken))
      else
        assert Pow256(8) == 0x1_0000_0000_0000_0000;
        var uriBytes := uri + [SLASH] + ToBytes(tokenId, 8);
        assert uriBytes[|uri| + 1..] == ToBytes(tokenId, 8);
        Success(uriBytes)
    }

    /** In a valid state the URI exists exactly for the ids minted so far. */
    lemma TokenUriExistsForMintedIds(tokenId: u64)
      requires Valid()
      ensures TokenUri(tokenId).Success? <==> tokenId < nextTokenId
    {
    }

    /**
     * `verify_chip_signature`: checks the nonce against the stored one and
     * the recovered key against `publicKey`, then stores the nonce.
     */
    method VerifyChipSignature(host: Host, message: seq<u8>, signature: Signature, recoveryId: u32,
                               publicKey: PublicKey, nonce: u32) returns (o: Result<(), Abort>)
      modifies this
      ensures o == ChipSignatureVerdict(host, message, signature, recoveryId, publicKey, nonce,
                                        old(GetNonce(publicKey)))
      ensures Snapshot() == if o.Success? then old(Snapshot()).(nonces := old(nonces)[publicKey := nonce])
                            else old(Snapshot())
    {
      var storedNonce := GetNonce(publicKey);
      if nonce <= storedNonce {
        return Failure(Panic(InvalidSignature));
      }
      var builder := message + host.nonceToXdr(nonce);
      var messageHash := host.sha256(builder);
      var recovered := host.secp256k1Recover(messageHash, signature, recoveryId);
      if recovered.None? {
        return Failure(RecoveryFailed);
      }
      if recovered.value != publicKey {
        return Failure(Panic(InvalidSignature));
      }
      nonces := nonces[publicKey := nonce];
      return Success(());
    }

    /**
     * `mint`: after the chip gate, binds a key that is not yet bound to the
     * next id. The token has no owner until it is claimed.
     */
    method Mint(host: Host, message: seq<u8>, signature: Signature, recoveryId: u32,
                publicKey: PublicKey, nonce: u32) returns (r: Result<u64, Abort>)
      requires Valid()
      modifies this
      ensures Valid()
      ensures var verdict := ChipSignatureVerdict(host, message, signature, recoveryId, publicKey, nonce,
                                                  old(GetNonce(publicKey)));
              r == if verdict.Failure? then Failure(verdict.error)
                   else if publicKey in old(tokenIdByPublicKey) then Failure(Panic(TokenAlreadyMinted))
                   else if old(nextTokenId) >= maxTokens then Failure(Panic(TokenIDsAreDepleted))
                   else Success(old(nextTokenId))
      ensures r.Failure? ==> Snapshot() == old(Snapshot())
      ensures r.Success? ==> GetNonce(publicKey) == nonce > old(GetNonce(publicKey))
      ensures r.Success? ==> r.value !in old(publicKeys) && r.value !in owners
      ensures r.Success? ==> Snapshot() == MintStep(old(Snapshot()).(nonces := old(nonces)[publicKey := nonce]), publicKey)
    {
      var tx := Snapshot();
      var verdict := VerifyChipSignature(host, message, signature, recoveryId, publicKey, nonce);
      if verdict.Failure? {
        return Failure(verdict.error);
      }
      if publicKey in tokenIdByPublicKey {
        Rollback(tx);
        return Failure(Panic(TokenAlreadyMinted));
      }
      var tokenId := nextTokenId;
      if tokenId >= maxTokens {
        Rollback(tx);
        return Failure(Panic(TokenIDsAreDepleted));
      }
      ghost var verified := Snapshot();
      MintPreservesInvariant(verified, maxTokens, publicKey);
      nextTokenId := tokenId + 1;
      tokenIdByPublicKey := tokenIdByPublicKey[publicKey := tokenId];
      publicKeys := publicKeys[tokenId := publicKey];
      events := events + [MintEvent(tokenId)];
      assert Snapshot() == MintStep(verified, publicKey);
      return Success(tokenId);
    }

    /**
     * `claim`: after the chip gate, gives the token bound to the chip's key
     * to `claimant`, once.
     */
    method Claim(host: Host, claimant: Address, message: seq<u8>, signature: Signature, recoveryId: u32,
                 publicKey: PublicKey, nonce: u32) returns (r: Result<u64, Abort>)
      requires Valid()
      modifies this
      ensures Valid()
      ensures var verdict := ChipSignatureVerdict(host, message, signature, recoveryId, publicKey, nonce,
                                                  old(GetNonce(publicKey)));
              r == if verdict.Failure? then Failure(verdict.error)
                   else if publicKey !in old(tokenIdByPublicKey) then Failure(Panic(NonExistentToken))
                   else if old(tokenIdByPublicKey[publicKey]) in old(owners) then Failure(Panic(TokenAlreadyMinted))
                   else if old(Balance(claimant)) == U32_MAX then Failure(ArithmeticOverflow)
                   else Success(old(tokenIdByPublicKey[publicKey]))
      ensures r.Failure? ==> Snapshot() == old(Snapshot())
      ensures r.Success? ==> GetNonce(publicKey) == nonce > old(GetNonce(publicKey))
      ensures r.Success? ==> r.value !in old(owners) && OwnerOf(r.value) == Success(claimant)
      ensures r.Success? ==> Balance(claimant) == old(Balance(claimant)) + 1
      ensures r.Success? ==>
                Snapshot() == ClaimStep(old(Snapshot()).(nonces := old(nonces)[publicKey := nonce]), r.value, claimant)
    {
      var tx := Snapshot();
      var verdict := VerifyChipSignature(host, message, signature, recoveryId, publicKey, nonce);
      if verdict.Failure? {
        return Failure(verdict.error);
      }
      r := GiveToClaimant(publicKey, claimant);
      if r.Failure? {
        Rollback(tx);
      }
    }

    /**
     * What `claim` does once the chip gate has passed: finds the token bound
     * to `publicKey`, refuses one already owned, records `claimant` as owner
     * and credits its balance (which may overflow and abort).
     */
    method GiveToClaimant(publicKey: PublicKey, claimant: Address) returns (r: Result<u64, Abort>)
      requires Valid()
      modifies this
      ensures Valid()
      ensures r == if publicKey !in old(tokenIdByPublicKey) then Failure(Panic(NonExistentToken))
                   else if old(tokenIdByPublicKey[publicKey]) in old(owners) then Failure(Panic(TokenAlreadyMinted))
                   else if old(Balance(claimant)) == U32_MAX then Failure(ArithmeticOverflow)
                   else Success(old(tokenIdByPublicKey[publicKey]))
      ensures r.Failure? ==> Snapshot() == old(Snapshot())
      ensures r.Success? ==> r.value in old(publicKeys) && Snapshot() == ClaimStep(old(Snapshot()), r.value, claimant)
    {
      var entry := Snapshot();
      if publicKey !in tokenIdByPublicKey {
        return Failure(Panic(NonExistentToken));
      }
      var tokenId := tokenIdByPublicKey[publicKey];
      if tokenId in owners {
        return Failure(Panic(TokenAlreadyMinted));
      }
      owners := owners[tokenId := claimant];
      var claimantBalance := Balance(claimant);
      if claimantBalance == U32_MAX {
        Rollback(entry);
        return Failure(ArithmeticOverflow);
      }
      ClaimPreservesInvariant(entry, maxTokens, tokenId, claimant);
      balances := balances[claimant := claimantBalance + 1];
      events := events + [ClaimEvent(claimant, tokenId)];
      ghost var claimed := ClaimStep(entry, tokenId, claimant);
      assert owners == claimed.owners && balances == claimed.balances && events == claimed.events;
      return Success(tokenId);
    }

    /**
     * `transfer`: after the chip gate, moves a token from its owner `from`
     * to `to`. The signature must come from the chip bound to the token at
     * mint time; the owner's own address signs nothing.
     */
    method Transfer(host: Host, from: Address, to: Address, tokenId: u64, message: seq<u8>,
                    signature: Signature, recoveryId: u32, publicKey: PublicKey, nonce: u32)
      returns (r: Result<(), Abort>)
      requires Valid()
      modifies this
      ensures Valid()
      ensures var verdict := ChipSignatureVerdict(host, message, signature, recoveryId, publicKey, nonce,
                                                  old(GetNonce(publicKey)));
              r == if verdict.Failure? then Failure(verdict.error)
                   else if tokenId !in old(publicKeys) then Failure(Panic(NonExistentToken))
                   else if old(publicKeys[tokenId]) != publicKey then Failure(Panic(InvalidSignature))
                   else if tokenId !in old(owners) then Failure(Panic(NonExistentToken))
                   else if old(owners[tokenId]) != from then Failure(Panic(IncorrectOwner))
                   else if from != to && old(Balance(to)) == U32_MAX then Failure(ArithmeticOverflow)
                   else Success(())
      ensures r.Failure? ==> Snapshot() == old(Snapshot())
      ensures r.Success? ==> GetNonce(publicKey) == nonce > old(GetNonce(publicKey))
      ensures r.Success? ==> OwnerOf(tokenId) == Success(to) && owners.Keys == old(owners.Keys)
      ensures r.Success? ==> old(Balance(from)) >= 1
      ensures r.Success? ==>
                Snapshot() == TransferStep(old(Snapshot()).(nonces := old(nonces)[publicKey := nonce]), tokenId, from, to)
    {
      var tx := Snapshot();
      var verdict := VerifyChipSignature(host, message, signature, recoveryId, publicKey, nonce);
      if verdict.Failure? {
        return Failure(verdict.error);
      }
      if tokenId !in publicKeys {
        Rollback(tx);
        return Failure(Panic(NonExistentToken));
      }
      var storedPublicKey := publicKeys[tokenId];
      if storedPublicKey != publicKey {
        Rollback(tx);
        return Failure(Panic(InvalidSignature));
      }
      var owner := OwnerOf(tokenId);
      if owner.Failure? {
        Rollback(tx);
        return Failure(owner.error);
      }
      if owner.value != from {
        Rollback(tx);
        return Failure(Panic(IncorrectOwner));
      }
      var moved := MoveToken(tokenId, from, to);
      if moved.Failure? {
        Rollback(tx);
        return moved;
      }
      return Success(());
    }

    /**
     * The writes `transfer` makes once its checks pass: the new owner, the
     * debit of `from` (which the invariant keeps from underflowing), the
     * credit of `to` (which may overflow and abort) and the event.
     */
    method MoveToken(tokenId: u64, from: Address, to: Address) returns (r: Result<(), Abort>)
      requires Valid() && tokenId in owners && owners[tokenId] == from
      modifies this
      ensures Valid()
      ensures r == if from != to && old(Balance(to)) == U32_MAX then Failure(ArithmeticOverflow) else Success(())
      ensures r.Failure? ==> Snapshot() == old(Snapshot())
      ensures old(Balance(from)) >= 1
      ensures r.Success? ==> Snapshot() == TransferStep(old(Snapshot()), tokenId, from, to)
    {
      var beforeWrites := Snapshot();
      OwnerBalancePositive(balances, owners, tokenId);
      owners := owners[tokenId := to];
      var fromBalance := Balance(from);
      balances := balances[from := fromBalance - 1];
      var toBalance := Balance(to);
      if toBalance == U32_MAX {
        Rollback(beforeWrites);
        return Failure(ArithmeticOverflow);
      }
      TransferPreservesInvariant(beforeWrites, maxTokens, tokenId, from, to);
      balances := balances[to := toBalance + 1];
      events := events + [TransferEvent(from, to, tokenId)];
      assert Snapshot() == TransferStep(beforeWrites, tokenId, from, to);
      return Success(());
    }
  }
}
