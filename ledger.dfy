/**
 * The token ledger as a value: the storage the contract's calls change, the
 * invariant every successful call keeps, and the lemmas about it.
 */
module Ledger {
  import opened Types

  /** `events::Mint`, `events::Claim` and `events::Transfer`, in publication order. */
  datatype Event =
    | MintEvent(tokenId: u64)
    | ClaimEvent(claimant: Address, tokenId: u64)
    | TransferEvent(from: Address, to: Address, tokenId: u64)

  /**
   * Everything a call can write: the `NextTokenId` counter, the persistent
   * maps keyed by `ChipNonceByPublicKey`, `TokenIdByPublicKey`, `PublicKey`,
   * `Owner` and `Balance`, and the events published so far.
   */
  datatype Storage = Storage(
    nextTokenId: u64,
    nonces: map<PublicKey, u32>,
    tokenIdByPublicKey: map<PublicKey, u64>,
    publicKeys: map<u64, PublicKey>,
    owners: map<u64, Address>,
    balances: map<Address, u32>,
    events: seq<Event>)

  /** The state right after construction: counter 0 and nothing stored. */
  const EMPTY: Storage := Storage(0, map[], map[], map[], map[], map[], [])

  /** `balance`: the stored balance, 0 for an address never credited. */
  function BalanceIn(balances: map<Address, u32>, a: Address): u32
  {
    if a in balances then balances[a] else 0
  }

  /** The ids whose `Owner` entry is `a`. */
  ghost function OwnedBy(owners: map<u64, Address>, a: Address): set<u64>
  {
    set id | id in owners && owners[id] == a
  }

  /** Token ids are handed out densely: exactly the ids below the counter are minted. */
  ghost predicate DenseIds(publicKeys: map<u64, PublicKey>, next: u64)
  {
    forall id: u64 :: id in publicKeys <==> id < next
  }

  /** `TokenIdByPublicKey` and `PublicKey` are inverse to each other. */
  ghost predicate MutuallyInverse(tokenIds: map<PublicKey, u64>, publicKeys: map<u64, PublicKey>)
  {
    && (forall pk :: pk in tokenIds ==> tokenIds[pk] in publicKeys && publicKeys[tokenIds[pk]] == pk)
    && (forall id :: id in publicKeys ==> publicKeys[id] in tokenIds && tokenIds[publicKeys[id]] == id)
  }

  /** Every address's balance is the number of tokens it owns, and every owner has a balance entry. */
  ghost predicate BalancesCountOwnership(balances: map<Address, u32>, owners: map<u64, Address>)
  {
    && (forall a {:trigger OwnedBy(owners, a)} :: BalanceIn(balances, a) == |OwnedBy(owners, a)|)
    && (forall id :: id in owners ==> owners[id] in balances)
  }

  /** The ledger invariant, for a collection capped at `maxTokens`. */
  ghost predicate Invariant(st: Storage, maxTokens: u64)
  {
    && st.nextTokenId <= maxTokens
    && DenseIds(st.publicKeys, st.nextTokenId)
    && MutuallyInverse(st.tokenIdByPublicKey, st.publicKeys)
    && st.owners.Keys <= st.publicKeys.Keys
    && BalancesCountOwnership(st.balances, st.owners)
  }

  /** Construction establishes the invariant, whatever the cap. */
  lemma EmptyInvariant(maxTokens: u64)
    ensures Invariant(EMPTY, maxTokens)
  {
    forall a ensures BalanceIn(EMPTY.balances, a) == |OwnedBy(EMPTY.owners, a)| {
      assert OwnedBy(EMPTY.owners, a) == {};
    }
  }

  /** The owner of a token holds at least one token, so debiting it cannot underflow. */
  lemma OwnerBalancePositive(balances: map<Address, u32>, owners: map<u64, Address>, id: u64)
    ensures BalancesCountOwnership(balances, owners) && id in owners ==> BalanceIn(balances, owners[id]) >= 1
  {
    if id in owners {
      assert id in OwnedBy(owners, owners[id]);
    }
  }

  /** The writes of a successful `mint`: the next id is bound to `publicKey` both ways. */
  function MintStep(st: Storage, publicKey: PublicKey): (r: Storage)
    requires st.nextTokenId < U64_MAX
    ensures r.nextTokenId == st.nextTokenId + 1
    ensures r.tokenIdByPublicKey.Keys == st.tokenIdByPublicKey.Keys + {publicKey}
    ensures r.publicKeys.Keys == st.publicKeys.Keys + {st.nextTokenId}
    ensures r.tokenIdByPublicKey[publicKey] == st.nextTokenId && r.publicKeys[st.nextTokenId] == publicKey
    ensures forall pk :: pk in st.tokenIdByPublicKey && pk != publicKey ==>
              r.tokenIdByPublicKey[pk] == st.tokenIdByPublicKey[pk]
    ensures forall i :: i in st.publicKeys && i != st.nextTokenId ==> r.publicKeys[i] == st.publicKeys[i]
    ensures r.owners == st.owners && r.balances == st.balances && r.nonces == st.nonces
    ensures r.events == st.events + [MintEvent(st.nextTokenId)]
  {
    var id := st.nextTokenId;
    st.(nextTokenId := id + 1,
        tokenIdByPublicKey := st.tokenIdByPublicKey[publicKey := id],
        publicKeys := st.publicKeys[id := publicKey],
        events := st.events + [MintEvent(id)])
  }

  /** The writes of a successful `claim`: `claimant` owns `id` and its balance goes up by one. */
  function ClaimStep(st: Storage, id: u64, claimant: Address): (r: Storage)
    requires BalanceIn(st.balances, claimant) < U32_MAX
    ensures r.owners.Keys == st.owners.Keys + {id} && r.owners[id] == claimant
    ensures BalanceIn(r.balances, claimant) == BalanceIn(st.balances, claimant) + 1
    ensures forall a :: a != claimant ==> BalanceIn(r.balances, a) == BalanceIn(st.balances, a)
    ensures forall i :: i in st.owners && i != id ==> r.owners[i] == st.owners[i]
    ensures r.nextTokenId == st.nextTokenId && r.publicKeys == st.publicKeys && r.nonces == st.nonces
    ensures r.tokenIdByPublicKey == st.tokenIdByPublicKey
    ensures r.events == st.events + [ClaimEvent(claimant, id)]
  {
    st.(owners := st.owners[id := claimant],
        balances := st.balances[claimant := BalanceIn(st.balances, claimant) + 1],
        events := st.events + [ClaimEvent(claimant, id)])
  }

  /**
   * The writes of a successful `transfer`: the owner entry, then `from`'s
   * balance minus one, then `to`'s balance (read after that write) plus one.
   */
  function TransferStep(st: Storage, id: u64, from: Address, to: Address): (r: Storage)
    requires BalanceIn(st.balances, from) >= 1
    requires from == to || BalanceIn(st.balances, to) < U32_MAX
    ensures r.owners.Keys == st.owners.Keys + {id} && r.owners[id] == to
    ensures from != to ==> BalanceIn(r.balances, from) == BalanceIn(st.balances, from) - 1
    ensures from != to ==> BalanceIn(r.balances, to) == BalanceIn(st.balances, to) + 1
    ensures from == to ==> r.balances == st.balances
    ensures forall a :: a != from && a != to ==> BalanceIn(r.balances, a) == BalanceIn(st.balances, a)
    ensures forall i :: i in st.owners && i != id ==> r.owners[i] == st.owners[i]
    ensures r.nextTokenId == st.nextTokenId && r.publicKeys == st.publicKeys && r.nonces == st.nonces
    ensures r.tokenIdByPublicKey == st.tokenIdByPublicKey
    ensures r.events == st.events + [TransferEvent(from, to, id)]
  {
    var debited := st.balances[from := BalanceIn(st.balances, from) - 1];
    st.(owners := st.owners[id := to],
        balances := debited[to := BalanceIn(debited, to) + 1],
        events := st.events + [TransferEvent(from, to, id)])
  }

  /** A successful `mint` binds a fresh key to an id never used before and keeps the invariant. */
  lemma MintPreservesInvariant(st: Storage, maxTokens: u64, publicKey: PublicKey)
    requires Invariant(st, maxTokens)
    requires publicKey !in st.tokenIdByPublicKey && st.nextTokenId < maxTokens
    ensures st.nextTokenId !in st.publicKeys
    ensures Invariant(MintStep(st, publicKey), maxTokens)
  {
    var id := st.nextTokenId;
    var tokenIds', publicKeys' := st.tokenIdByPublicKey[publicKey := id], st.publicKeys[id := publicKey];
    forall pk | pk in tokenIds'
      ensures tokenIds'[pk] in publicKeys' && publicKeys'[tokenIds'[pk]] == pk
    {
      if pk != publicKey {
        assert st.tokenIdByPublicKey[pk] != id;
      }
    }
  }

  /** The tokens `a` owns after `claimant` is given the unowned token `id`. */
  lemma CreditOwnedBy(owners: map<u64, Address>, id: u64, claimant: Address, a: Address)
    requires id !in owners
    ensures OwnedBy(owners[id := claimant], a) == if a == claimant then OwnedBy(owners, a) + {id} else OwnedBy(owners, a)
  {
  }

  /** Giving an unowned token to `claimant` keeps every balance equal to the tokens owned. */
  lemma CreditKeepsCounting(balances: map<Address, u32>, owners: map<u64, Address>, id: u64, claimant: Address)
    requires BalancesCountOwnership(balances, owners)
    requires id !in owners && BalanceIn(balances, claimant) < U32_MAX
    ensures BalancesCountOwnership(balances[claimant := BalanceIn(balances, claimant) + 1], owners[id := claimant])
  {
    var owners' := owners[id := claimant];
    var balances' := balances[claimant := BalanceIn(balances, claimant) + 1];
    forall a ensures BalanceIn(balances', a) == |OwnedBy(owners', a)| {
      CreditOwnedBy(owners, id, claimant, a);
    }
  }

  /** A successful `claim` gives an unowned minted token to `claimant` and keeps the invariant. */
  lemma ClaimPreservesInvariant(st: Storage, maxTokens: u64, id: u64, claimant: Address)
    requires Invariant(st, maxTokens)
    requires id in st.publicKeys && id !in st.owners
    requires BalanceIn(st.balances, claimant) < U32_MAX
    ensures Invariant(ClaimStep(st, id, claimant), maxTokens)
  {
    CreditKeepsCounting(st.balances, st.owners, id, claimant);
  }

  /** The tokens `a` owns after the token `id` passes from its owner to `to`. */
  lemma MoveOwnedBy(owners: map<u64, Address>, id: u64, to: Address, a: Address)
    requires id in owners
    ensures OwnedBy(owners[id := to], a) ==
              if a == to then OwnedBy(owners, a) + {id}
              else if a == owners[id] then OwnedBy(owners, a) - {id}
              else OwnedBy(owners, a)
  {
  }

  /**
   * Moving an owned token keeps every balance equal to the tokens owned,
   * with the sequential updates of `transfer`, also when `from == to`.
   */
  lemma MoveKeepsCounting(balances: map<Address, u32>, owners: map<u64, Address>, id: u64, from: Address, to: Address)
    requires BalancesCountOwnership(balances, owners)
    requires id in owners && owners[id] == from
    requires BalanceIn(balances, from) >= 1
    requires from == to || BalanceIn(balances, to) < U32_MAX
    ensures var debited := balances[from := BalanceIn(balances, from) - 1];
            BalancesCountOwnership(debited[to := BalanceIn(debited, to) + 1], owners[id := to])
  {
    var debited := balances[from := BalanceIn(balances, from) - 1];
    var owners' := owners[id := to];
    var balances' := debited[to := BalanceIn(debited, to) + 1];
    forall a ensures BalanceIn(balances', a) == |OwnedBy(owners', a)| {
      MoveOwnedBy(owners, id, to, a);
      assert id in OwnedBy(owners, from);
      if a == to && a == from {
        assert OwnedBy(owners, a) + {id} == OwnedBy(owners, a);
      } else if a == to {
        assert id !in OwnedBy(owners, a);
      }
    }
  }

  /**
   * A successful `transfer` of a token `from` owns: `from` holds at least one
   * token, so its decrement cannot underflow, and the writes keep the
   * invariant.
   */
  lemma TransferPreservesInvariant(st: Storage, maxTokens: u64, id: u64, from: Address, to: Address)
    requires Invariant(st, maxTokens)
    requires id in st.owners && st.owners[id] == from
    requires from == to || BalanceIn(st.balances, to) < U32_MAX
    ensures BalanceIn(st.balances, from) >= 1
    ensures Invariant(TransferStep(st, id, from, to), maxTokens)
  {
    OwnerBalancePositive(st.balances, st.owners, id);
    MoveKeepsCounting(st.balances, st.owners, id, from, to);
  }

  /** Exactly `next` ids are minted when the minted ids are those below `next`. */
  lemma {:induction false} DenseIdsCount(publicKeys: map<u64, PublicKey>, next: u64)
    requires DenseIds(publicKeys, next)
    ensures |publicKeys| == next
  {
    if next == 0 {
      assert publicKeys.Keys == {};
    } else {
      var last: u64 := next - 1;
      assert last in publicKeys;
      DenseIdsCount(publicKeys - {last}, last);
      assert (publicKeys - {last}).Keys == publicKeys.Keys - {last};
    }
  }

  /** Two mutually inverse maps have the same number of entries. */
  lemma {:induction false} InverseSameSize(tokenIds: map<PublicKey, u64>, publicKeys: map<u64, PublicKey>)
    requires MutuallyInverse(tokenIds, publicKeys)
    ensures |tokenIds| == |publicKeys|
    decreases |publicKeys|
  {
    if publicKeys == map[] {
      assert tokenIds.Keys == {};
    } else {
      var id :| id in publicKeys;
      var pk := publicKeys[id];
      InverseSameSize(tokenIds - {pk}, publicKeys - {id});
      assert (tokenIds - {pk}).Keys == tokenIds.Keys - {pk};
      assert (publicKeys - {id}).Keys == publicKeys.Keys - {id};
    }
  }

  /**
   * Supply: there are exactly `NextTokenId` minted tokens and as many bound
   * keys, never more than `MaxTokens`.
   */
  lemma MintedCount(st: Storage, maxTokens: u64)
    requires Invariant(st, maxTokens)
    ensures |st.publicKeys| == |st.tokenIdByPublicKey| == st.nextTokenId <= maxTokens
  {
    DenseIdsCount(st.publicKeys, st.nextTokenId);
    InverseSameSize(st.tokenIdByPublicKey, st.publicKeys);
  }

  ghost function PickAddress(balances: map<Address, u32>): Address
    requires balances != map[]
  {
    var a :| a in balances; a
  }

  /** The sum of all stored balances. */
  ghost function TotalBalance(balances: map<Address, u32>): nat
    decreases |balances|
  {
    if balances == map[] then 0
    else
      var a := PickAddress(balances);
      balances[a] + TotalBalance(balances - {a})
  }

  /** The owners that are not `a`. */
  ghost function OwnersOtherThan(owners: map<u64, Address>, a: Address): map<u64, Address>
  {
    map id | id in owners && owners[id] != a :: owners[id]
  }

  /** Balance conservation: the balances sum to the number of owned tokens. */
  lemma {:induction false} TotalBalanceCountsOwnedTokens(balances: map<Address, u32>, owners: map<u64, Address>)
    requires BalancesCountOwnership(balances, owners)
    ensures TotalBalance(balances) == |owners|
    decreases |balances|
  {
    if balances == map[] {
      assert owners.Keys == {};
    } else {
      var a := PickAddress(balances);
      var rest, others := balances - {a}, OwnersOtherThan(owners, a);
      forall b ensures BalanceIn(rest, b) == |OwnedBy(others, b)| {
        if b == a {
          assert OwnedBy(others, b) == {};
        } else {
          assert OwnedBy(others, b) == OwnedBy(owners, b);
        }
      }
      TotalBalanceCountsOwnedTokens(rest, others);
      assert owners.Keys == OwnedBy(owners, a) + others.Keys;
      assert OwnedBy(owners, a) !! others.Keys;
    }
  }
}
