/**
 Which public key each validator gets (src/assets/pos.ts:55-88 and 104): every key that some
 stored block or transaction carries is filed under the address it hashes to.
*/
module ValidatorKeys {
  import opened ByteStrings
  import opened Sequences
  import opened Store
  import opened KeyEncoding
  import opened EventLoop
  import opened PagedScan
  import opened Accounts

  /** The object key a public key (in hex) is filed under. */
  function Slot(addressOf: Bytes -> Bytes, key: Latin1): Latin1 {
    ToHex(addressOf(FromHex(key)))
  }

  predicate IsDelegate(a: Account) {
    a.delegate.username != ""
  }

  function DelegateSet(accounts: seq<Account>): set<Latin1> {
    set a | a in accounts && IsDelegate(a) :: ToHex(a.address)
  }

  /** The first loop: later keys replace earlier ones in the same slot. */
  function BlockKeys(addressOf: Bytes -> Bytes, blocks: seq<Latin1>): map<Latin1, Latin1> {
    if blocks == [] then map[]
    else
      var n := |blocks| - 1;
      BlockKeys(addressOf, blocks[..n])[Slot(addressOf, blocks[n]) := blocks[n]]
  }

  /** The second loop: transaction keys no block carries, and only for delegates. */
  function AllKeys(addressOf: Bytes -> Bytes, delegates: set<Latin1>, blocks: seq<Latin1>, txs: seq<Latin1>)
    : map<Latin1, Latin1>
    decreases |txs|
  {
    if txs == [] then BlockKeys(addressOf, blocks)
    else
      var n := |txs| - 1;
      var before := AllKeys(addressOf, delegates, blocks, txs[..n]);
      if txs[n] in blocks || Slot(addressOf, txs[n]) !in delegates then before
      else before[Slot(addressOf, txs[n]) := txs[n]]
  }

  /** The order of events and jobs while reading, stream by stream and page by page. */
  datatype Schedules = Schedules(accounts: seq<Step>, blocks: nat -> seq<Step>, transactions: nat -> seq<Step>)

  /** `getValidatorKeys`. `None` stands for the error `incrementOne` raises. */
  method GetValidatorKeys(
      accounts: seq<Account>, db: Database, pageSize: nat, generatorPublicKey: Bytes -> Bytes,
      senderPublicKey: Bytes -> Bytes, addressOf: Bytes -> Bytes, schedules: Schedules)
    returns (r: Option<map<Latin1, Latin1>>)
    requires Ascending(db)
    ensures WellKeyed(db, DB_KEY_BLOCKS_ID, ID_LENGTH) && WellKeyed(db, DB_KEY_TRANSACTIONS_ID, ID_LENGTH) ==>
      pageSize >= 1 ==>
      r == Some(StoredValidatorKeys(accounts, db, generatorPublicKey, senderPublicKey, addressOf))
    ensures pageSize == 0 ==> r == Some(map[])
  {
    var delegateSet: set<Latin1> := {};
    for i := 0 to |accounts|
      invariant delegateSet == DelegateSet(accounts[..i])
    {
      assert accounts[..i + 1] == accounts[..i] + [accounts[i]];
      if accounts[i].delegate.username != "" {
        delegateSet := delegateSet + {ToHex(accounts[i].address)};
      }
    }
    assert accounts[..|accounts|] == accounts;
    var blocks := GetBlockPublicKeySet(db, generatorPublicKey, pageSize, schedules.blocks);
    if blocks == None { return None; }
    var txs := GetTransactionPublicKeySet(db, senderPublicKey, pageSize, schedules.transactions);
    if txs == None { return None; }
    var keys := FileKeys(addressOf, delegateSet, blocks.value, txs.value);
    return Some(keys);
  }

  /** The two loops that fill the record. */
  method FileKeys(addressOf: Bytes -> Bytes, delegates: set<Latin1>, blocks: seq<Latin1>, txs: seq<Latin1>)
    returns (keys: map<Latin1, Latin1>)
    ensures keys == AllKeys(addressOf, delegates, blocks, txs)
  {
    keys := map[];
    for i := 0 to |blocks|
      invariant keys == BlockKeys(addressOf, blocks[..i])
    {
      assert blocks[..i + 1][..i] == blocks[..i];
      keys := keys[Slot(addressOf, blocks[i]) := blocks[i]];
    }
    assert blocks[..|blocks|] == blocks;
    for i := 0 to |txs|
      invariant keys == AllKeys(addressOf, delegates, blocks, txs[..i])
    {
      assert txs[..i + 1][..i] == txs[..i];
      if txs[i] in blocks { continue; }
      var slot := Slot(addressOf, txs[i]);
      if slot in delegates {
        keys := keys[slot := txs[i]];
      }
    }
    assert txs[..|txs|] == txs;
  }

  // ----- What the record holds -----

  lemma {:induction false} BlockKeysHold(addressOf: Bytes -> Bytes, blocks: seq<Latin1>, slot: Latin1)
    ensures slot in BlockKeys(addressOf, blocks) <==> exists k :: k in blocks && Slot(addressOf, k) == slot
    ensures slot in BlockKeys(addressOf, blocks) ==>
      var k := BlockKeys(addressOf, blocks)[slot]; k in blocks && Slot(addressOf, k) == slot
  {
    if blocks == [] {
    } else {
      var n := |blocks| - 1;
      BlockKeysHold(addressOf, blocks[..n], slot);
      assert blocks == blocks[..n] + [blocks[n]];
      if k :| k in blocks && Slot(addressOf, k) == slot {
        assert k in blocks[..n] || k == blocks[n];
      }
    }
  }

  /** A slot is filled exactly when a usable key hashes to it, and then with such a key. */
  lemma {:induction false} AllKeysHold(
      addressOf: Bytes -> Bytes, delegates: set<Latin1>, blocks: seq<Latin1>, txs: seq<Latin1>, slot: Latin1)
    ensures slot in AllKeys(addressOf, delegates, blocks, txs) <==>
      || (exists k :: k in blocks && Slot(addressOf, k) == slot)
      || (slot in delegates && exists k :: k in txs && Slot(addressOf, k) == slot)
    ensures slot in AllKeys(addressOf, delegates, blocks, txs) ==>
      var k := AllKeys(addressOf, delegates, blocks, txs)[slot];
      (k in blocks || k in txs) && Slot(addressOf, k) == slot
    decreases |txs|
  {
    if txs == [] {
      BlockKeysHold(addressOf, blocks, slot);
    } else {
      var n := |txs| - 1;
      AllKeysHold(addressOf, delegates, blocks, txs[..n], slot);
      assert txs == txs[..n] + [txs[n]];
      if k :| k in txs && Slot(addressOf, k) == slot {
        assert k in txs[..n] || k == txs[n];
      }
    }
  }

  // ----- Iteration order -----

  /** A transaction key that the second loop files in the slot. */
  ghost predicate FiledTx(
      addressOf: Bytes -> Bytes, delegates: set<Latin1>, blocks: seq<Latin1>, txs: seq<Latin1>, slot: Latin1, k: Latin1)
  {
    k in txs && k !in blocks && slot in delegates && Slot(addressOf, k) == slot
  }

  /** A key that some iteration order leaves in the slot: any such transaction key, else any block key. */
  ghost predicate Competes(
      addressOf: Bytes -> Bytes, delegates: set<Latin1>, blocks: seq<Latin1>, txs: seq<Latin1>, slot: Latin1, k: Latin1)
  {
    || FiledTx(addressOf, delegates, blocks, txs, slot, k)
    || (k in blocks && Slot(addressOf, k) == slot && forall t :: !FiledTx(addressOf, delegates, blocks, txs, slot, t))
  }

  /** Every slot has at most one competing key. */
  ghost predicate NoRivals(addressOf: Bytes -> Bytes, delegates: set<Latin1>, blocks: seq<Latin1>, txs: seq<Latin1>) {
    forall slot, k, l ::
      Competes(addressOf, delegates, blocks, txs, slot, k) && Competes(addressOf, delegates, blocks, txs, slot, l) ==>
      k == l
  }

  /** What the last transaction key does to a slot. */
  lemma LastTx(
      addressOf: Bytes -> Bytes, delegates: set<Latin1>, blocks: seq<Latin1>, txs: seq<Latin1>, last: Latin1,
      slot: Latin1)
    ensures var keys := AllKeys(addressOf, delegates, blocks, txs + [last]);
      var before := AllKeys(addressOf, delegates, blocks, txs);
      if FiledTx(addressOf, delegates, blocks, txs + [last], slot, last)
      then slot in keys && keys[slot] == last
      else (slot in keys <==> slot in before) && (slot in keys ==> keys[slot] == before[slot])
  {
    assert (txs + [last])[..|txs|] == txs;
    assert (txs + [last])[|txs|] == last;
  }

  /** A filed transaction key takes the slot; without one the block loop's entry stays. */
  lemma {:induction false} SlotTaken(
      addressOf: Bytes -> Bytes, delegates: set<Latin1>, blocks: seq<Latin1>, txs: seq<Latin1>, slot: Latin1)
    ensures var keys := AllKeys(addressOf, delegates, blocks, txs);
      && ((exists t :: FiledTx(addressOf, delegates, blocks, txs, slot, t)) ==>
        slot in keys && FiledTx(addressOf, delegates, blocks, txs, slot, keys[slot]))
      && ((forall t :: !FiledTx(addressOf, delegates, blocks, txs, slot, t)) ==>
        && (slot in keys <==> slot in BlockKeys(addressOf, blocks))
        && (slot in keys ==> keys[slot] == BlockKeys(addressOf, blocks)[slot]))
    decreases |txs|
  {
    if txs == [] {
    } else {
      var before, last := txs[..|txs| - 1], txs[|txs| - 1];
      assert txs == before + [last];
      LastTx(addressOf, delegates, blocks, before, last, slot);
      if !FiledTx(addressOf, delegates, blocks, txs, slot, last) {
        SlotTaken(addressOf, delegates, blocks, before, slot);
        forall t
          ensures FiledTx(addressOf, delegates, blocks, txs, slot, t)
            <==> FiledTx(addressOf, delegates, blocks, before, slot, t) {
        }
      }
    }
  }

  /** The slots are filled by competing keys. */
  lemma CompetitorTakesSlot(
      addressOf: Bytes -> Bytes, delegates: set<Latin1>, blocks: seq<Latin1>, txs: seq<Latin1>, slot: Latin1)
    ensures var keys := AllKeys(addressOf, delegates, blocks, txs);
      && (slot in keys <==> exists k :: Competes(addressOf, delegates, blocks, txs, slot, k))
      && (slot in keys ==> Competes(addressOf, delegates, blocks, txs, slot, keys[slot]))
  {
    SlotTaken(addressOf, delegates, blocks, txs, slot);
    BlockKeysHold(addressOf, blocks, slot);
    var keys := AllKeys(addressOf, delegates, blocks, txs);
    if slot in keys {
      assert Competes(addressOf, delegates, blocks, txs, slot, keys[slot]);
    }
    if k :| Competes(addressOf, delegates, blocks, txs, slot, k) {
      assert FiledTx(addressOf, delegates, blocks, txs, slot, k) || slot in BlockKeys(addressOf, blocks);
    }
  }

  // ----- The key filed last -----

  /** The i-th block key is the last one of its slot. */
  ghost predicate LastBlockAt(addressOf: Bytes -> Bytes, blocks: seq<Latin1>, slot: Latin1, i: nat) {
    && i < |blocks| && Slot(addressOf, blocks[i]) == slot
    && forall j :: i < j < |blocks| ==> Slot(addressOf, blocks[j]) != slot
  }

  /** The i-th transaction key is the last one filed in the slot. */
  ghost predicate LastTxAt(
      addressOf: Bytes -> Bytes, delegates: set<Latin1>, blocks: seq<Latin1>, txs: seq<Latin1>, slot: Latin1, i: nat)
  {
    && i < |txs| && FiledTx(addressOf, delegates, blocks, txs, slot, txs[i])
    && forall j :: i < j < |txs| ==> !FiledTx(addressOf, delegates, blocks, txs, slot, txs[j])
  }

  /** The key filed last in the slot: the last transaction key, or else the last block key. */
  ghost predicate FiledLast(
      addressOf: Bytes -> Bytes, delegates: set<Latin1>, blocks: seq<Latin1>, txs: seq<Latin1>, slot: Latin1, k: Latin1)
  {
    || (exists i: nat :: LastTxAt(addressOf, delegates, blocks, txs, slot, i) && txs[i] == k)
    || ((forall t :: !FiledTx(addressOf, delegates, blocks, txs, slot, t))
      && exists i: nat :: LastBlockAt(addressOf, blocks, slot, i) && blocks[i] == k)
  }

  lemma LastBlockBefore(addressOf: Bytes -> Bytes, blocks: seq<Latin1>, slot: Latin1, i: nat)
    requires LastBlockAt(addressOf, blocks, slot, i) && i < |blocks| - 1
    ensures LastBlockAt(addressOf, blocks[..|blocks| - 1], slot, i)
    ensures Slot(addressOf, blocks[|blocks| - 1]) != slot
  {
  }

  lemma {:induction false} LastBlockTakes(addressOf: Bytes -> Bytes, blocks: seq<Latin1>, slot: Latin1, i: nat)
    requires LastBlockAt(addressOf, blocks, slot, i)
    ensures slot in BlockKeys(addressOf, blocks) && BlockKeys(addressOf, blocks)[slot] == blocks[i]
    decreases |blocks|
  {
    var n := |blocks| - 1;
    if i == n {
    } else {
      LastBlockBefore(addressOf, blocks, slot, i);
      LastBlockTakes(addressOf, blocks[..n], slot, i);
    }
  }

  lemma {:induction false} LastTxTakes(
      addressOf: Bytes -> Bytes, delegates: set<Latin1>, blocks: seq<Latin1>, txs: seq<Latin1>, slot: Latin1, i: nat)
    requires LastTxAt(addressOf, delegates, blocks, txs, slot, i)
    ensures slot in AllKeys(addressOf, delegates, blocks, txs)
    ensures AllKeys(addressOf, delegates, blocks, txs)[slot] == txs[i]
    decreases |txs|
  {
    var n := |txs| - 1;
    if i == n {
    } else {
      assert !FiledTx(addressOf, delegates, blocks, txs, slot, txs[n]);
      LastTxTakes(addressOf, delegates, blocks, txs[..n], slot, i);
    }
  }

  lemma {:induction false} FindLastBlock(addressOf: Bytes -> Bytes, blocks: seq<Latin1>, slot: Latin1) returns (i: nat)
    requires exists k :: k in blocks && Slot(addressOf, k) == slot
    ensures LastBlockAt(addressOf, blocks, slot, i)
    decreases |blocks|
  {
    var n := |blocks| - 1;
    if Slot(addressOf, blocks[n]) == slot {
      i := n;
    } else {
      assert blocks == blocks[..n] + [blocks[n]];
      i := FindLastBlock(addressOf, blocks[..n], slot);
    }
  }

  lemma {:induction false} FindLastTx(
      addressOf: Bytes -> Bytes, delegates: set<Latin1>, blocks: seq<Latin1>, txs: seq<Latin1>, slot: Latin1)
    returns (i: nat)
    requires exists t :: FiledTx(addressOf, delegates, blocks, txs, slot, t)
    ensures LastTxAt(addressOf, delegates, blocks, txs, slot, i)
    decreases |txs|
  {
    var n := |txs| - 1;
    if FiledTx(addressOf, delegates, blocks, txs, slot, txs[n]) {
      i := n;
    } else {
      assert txs == txs[..n] + [txs[n]];
      var t :| FiledTx(addressOf, delegates, blocks, txs, slot, t);
      assert FiledTx(addressOf, delegates, blocks, txs[..n], slot, t);
      i := FindLastTx(addressOf, delegates, blocks, txs[..n], slot);
    }
  }

  /** Exactly the key filed last stays in the slot. */
  lemma FiledLastStays(
      addressOf: Bytes -> Bytes, delegates: set<Latin1>, blocks: seq<Latin1>, txs: seq<Latin1>, slot: Latin1, k: Latin1)
    ensures var keys := AllKeys(addressOf, delegates, blocks, txs);
      slot in keys && keys[slot] == k <==> FiledLast(addressOf, delegates, blocks, txs, slot, k)
  {
    SlotTaken(addressOf, delegates, blocks, txs, slot);
    BlockKeysHold(addressOf, blocks, slot);
    if exists t :: FiledTx(addressOf, delegates, blocks, txs, slot, t) {
      var last := FindLastTx(addressOf, delegates, blocks, txs, slot);
      forall i: nat | LastTxAt(addressOf, delegates, blocks, txs, slot, i) ensures i == last {
        if i < last {} else if last < i {}
      }
      LastTxTakes(addressOf, delegates, blocks, txs, slot, last);
    } else if slot in BlockKeys(addressOf, blocks) {
      var last := FindLastBlock(addressOf, blocks, slot);
      forall i: nat | LastBlockAt(addressOf, blocks, slot, i) ensures i == last {
        if i < last {} else if last < i {}
      }
      LastBlockTakes(addressOf, blocks, slot, last);
      forall i: nat ensures !LastTxAt(addressOf, delegates, blocks, txs, slot, i) {}
    } else {
      forall i: nat ensures !LastTxAt(addressOf, delegates, blocks, txs, slot, i) {}
    }
  }

  // ----- Every order -----

  /** Which keys compete does not depend on the order. */
  lemma SameCompetitors(
      addressOf: Bytes -> Bytes, delegates: set<Latin1>,
      blocks: seq<Latin1>, txs: seq<Latin1>, blocks': seq<Latin1>, txs': seq<Latin1>, slot: Latin1, k: Latin1)
    requires (forall x :: x in blocks <==> x in blocks') && (forall x :: x in txs <==> x in txs')
    ensures Competes(addressOf, delegates, blocks, txs, slot, k)
      <==> Competes(addressOf, delegates, blocks', txs', slot, k)
  {
    forall t
      ensures FiledTx(addressOf, delegates, blocks, txs, slot, t)
        <==> FiledTx(addressOf, delegates, blocks', txs', slot, t) {
    }
  }

  /** Whatever the order, a key that competes takes the slot. */
  lemma CompetitorTakesSlotInOrder(
      addressOf: Bytes -> Bytes, delegates: set<Latin1>,
      blocks: seq<Latin1>, txs: seq<Latin1>, blocks': seq<Latin1>, txs': seq<Latin1>, slot: Latin1)
    requires (forall x :: x in blocks <==> x in blocks') && (forall x :: x in txs <==> x in txs')
    ensures var keys := AllKeys(addressOf, delegates, blocks', txs');
      && (slot in keys <==> exists k :: Competes(addressOf, delegates, blocks, txs, slot, k))
      && (slot in keys ==> Competes(addressOf, delegates, blocks, txs, slot, keys[slot]))
  {
    CompetitorTakesSlot(addressOf, delegates, blocks', txs', slot);
    forall k
      ensures Competes(addressOf, delegates, blocks, txs, slot, k)
        <==> Competes(addressOf, delegates, blocks', txs', slot, k) {
      SameCompetitors(addressOf, delegates, blocks, txs, blocks', txs', slot, k);
    }
  }

  /** Slots without rivals read the same in every order. */
  lemma SlotCanonical(
      addressOf: Bytes -> Bytes, delegates: set<Latin1>,
      blocks: seq<Latin1>, txs: seq<Latin1>, blocks': seq<Latin1>, txs': seq<Latin1>, slot: Latin1)
    requires (forall x :: x in blocks <==> x in blocks') && (forall x :: x in txs <==> x in txs')
    requires forall k, l ::
      Competes(addressOf, delegates, blocks, txs, slot, k) && Competes(addressOf, delegates, blocks, txs, slot, l) ==>
      k == l
    ensures var m, m' := AllKeys(addressOf, delegates, blocks, txs), AllKeys(addressOf, delegates, blocks', txs');
      (slot in m <==> slot in m') && (slot in m ==> m[slot] == m'[slot])
  {
    CompetitorTakesSlot(addressOf, delegates, blocks, txs, slot);
    CompetitorTakesSlotInOrder(addressOf, delegates, blocks, txs, blocks', txs', slot);
  }

  /** Without rivals the record does not depend on the order in which the key sets are iterated. */
  lemma AllKeysCanonical(
      addressOf: Bytes -> Bytes, delegates: set<Latin1>,
      blocks: seq<Latin1>, txs: seq<Latin1>, blocks': seq<Latin1>, txs': seq<Latin1>)
    requires (forall x :: x in blocks <==> x in blocks') && (forall x :: x in txs <==> x in txs')
    requires NoRivals(addressOf, delegates, blocks, txs)
    ensures AllKeys(addressOf, delegates, blocks, txs) == AllKeys(addressOf, delegates, blocks', txs')
  {
    var m, m' := AllKeys(addressOf, delegates, blocks, txs), AllKeys(addressOf, delegates, blocks', txs');
    forall slot ensures (slot in m <==> slot in m') && (slot in m ==> m[slot] == m'[slot]) {
      SlotCanonical(addressOf, delegates, blocks, txs, blocks', txs', slot);
    }
    assert m.Keys == m'.Keys;
  }

  /** Keys of different addresses never compete. */
  lemma InjectiveHasNoRivals(
      addressOf: Bytes -> Bytes, delegates: set<Latin1>, blocks: seq<Latin1>, txs: seq<Latin1>)
    requires forall k, l ::
      k in blocks + txs && l in blocks + txs && Slot(addressOf, k) == Slot(addressOf, l) ==> k == l
    ensures NoRivals(addressOf, delegates, blocks, txs)
  {
    forall slot, k, l
      | Competes(addressOf, delegates, blocks, txs, slot, k) && Competes(addressOf, delegates, blocks, txs, slot, l)
      ensures k == l {
      assert k in blocks + txs && l in blocks + txs;
    }
  }

  lemma FiledTxMovedLastWins(
      addressOf: Bytes -> Bytes, delegates: set<Latin1>, blocks: seq<Latin1>, txs: seq<Latin1>, slot: Latin1, k: Latin1)
    returns (txs': seq<Latin1>)
    requires FiledTx(addressOf, delegates, blocks, txs, slot, k)
    ensures multiset(txs') == multiset(txs)
    ensures slot in AllKeys(addressOf, delegates, blocks, txs')
    ensures AllKeys(addressOf, delegates, blocks, txs')[slot] == k
  {
    var l, r := SplitAt(txs, k);
    txs' := (l + r) + [k];
    LastTx(addressOf, delegates, blocks, l + r, k, slot);
  }

  lemma BlockKeyMovedLastWins(
      addressOf: Bytes -> Bytes, delegates: set<Latin1>, blocks: seq<Latin1>, txs: seq<Latin1>, slot: Latin1, k: Latin1)
    returns (blocks': seq<Latin1>)
    requires k in blocks && Slot(addressOf, k) == slot
    requires forall t :: !FiledTx(addressOf, delegates, blocks, txs, slot, t)
    ensures multiset(blocks') == multiset(blocks)
    ensures slot in AllKeys(addressOf, delegates, blocks', txs)
    ensures AllKeys(addressOf, delegates, blocks', txs)[slot] == k
  {
    var l, r := SplitAt(blocks, k);
    blocks' := (l + r) + [k];
    LastBlock(addressOf, l + r, k);
    LastBlockStays(addressOf, delegates, blocks, txs, blocks', slot);
  }

  /** Moving a competing key to the end of its list makes it the one that stays. */
  lemma CompetitorMovedLastWins(
      addressOf: Bytes -> Bytes, delegates: set<Latin1>, blocks: seq<Latin1>, txs: seq<Latin1>, slot: Latin1, k: Latin1)
    returns (blocks': seq<Latin1>, txs': seq<Latin1>)
    requires Competes(addressOf, delegates, blocks, txs, slot, k)
    ensures multiset(blocks') == multiset(blocks) && multiset(txs') == multiset(txs)
    ensures slot in AllKeys(addressOf, delegates, blocks', txs')
    ensures AllKeys(addressOf, delegates, blocks', txs')[slot] == k
  {
    blocks', txs' := blocks, txs;
    if FiledTx(addressOf, delegates, blocks, txs, slot, k) {
      txs' := FiledTxMovedLastWins(addressOf, delegates, blocks, txs, slot, k);
    } else {
      blocks' := BlockKeyMovedLastWins(addressOf, delegates, blocks, txs, slot, k);
    }
  }

  lemma LastBlock(addressOf: Bytes -> Bytes, blocks: seq<Latin1>, last: Latin1)
    ensures Slot(addressOf, last) in BlockKeys(addressOf, blocks + [last])
    ensures BlockKeys(addressOf, blocks + [last])[Slot(addressOf, last)] == last
  {
    assert (blocks + [last])[..|blocks|] == blocks;
  }

  /** Reordering the blocks of a slot that no transaction key takes. */
  lemma LastBlockStays(
      addressOf: Bytes -> Bytes, delegates: set<Latin1>, blocks: seq<Latin1>, txs: seq<Latin1>,
      blocks': seq<Latin1>, slot: Latin1)
    requires multiset(blocks) == multiset(blocks') && slot in BlockKeys(addressOf, blocks')
    requires forall t :: !FiledTx(addressOf, delegates, blocks, txs, slot, t)
    ensures slot in AllKeys(addressOf, delegates, blocks', txs)
    ensures AllKeys(addressOf, delegates, blocks', txs)[slot] == BlockKeys(addressOf, blocks')[slot]
  {
    forall t ensures !FiledTx(addressOf, delegates, blocks', txs, slot, t) {
      assert !FiledTx(addressOf, delegates, blocks, txs, slot, t);
      SameMembers(blocks, blocks', t);
    }
    SlotTaken(addressOf, delegates, blocks', txs, slot);
  }

  /** All iteration orders of the two key sets give the same record. */
  ghost predicate OrderIrrelevant(
      addressOf: Bytes -> Bytes, delegates: set<Latin1>, blocks: seq<Latin1>, txs: seq<Latin1>)
  {
    forall blocks', txs' :: multiset(blocks') == multiset(blocks) && multiset(txs') == multiset(txs) ==>
      AllKeys(addressOf, delegates, blocks', txs') == AllKeys(addressOf, delegates, blocks, txs)
  }

  /**
   Exactly when iteration order does not matter: every slot has at most one competing key,
   that is, one transaction key no block carries, or, if there is none, one block key.
  */
  lemma OrderIrrelevantIffNoRivals(
      addressOf: Bytes -> Bytes, delegates: set<Latin1>, blocks: seq<Latin1>, txs: seq<Latin1>)
    ensures OrderIrrelevant(addressOf, delegates, blocks, txs) <==> NoRivals(addressOf, delegates, blocks, txs)
  {
    if NoRivals(addressOf, delegates, blocks, txs) {
      forall blocks', txs' | multiset(blocks') == multiset(blocks) && multiset(txs') == multiset(txs)
        ensures AllKeys(addressOf, delegates, blocks', txs') == AllKeys(addressOf, delegates, blocks, txs) {
        forall x ensures (x in blocks <==> x in blocks') && (x in txs <==> x in txs') {
          SameMembers(blocks, blocks', x);
          SameMembers(txs, txs', x);
        }
        AllKeysCanonical(addressOf, delegates, blocks, txs, blocks', txs');
      }
    } else {
      var slot, k, l :| Competes(addressOf, delegates, blocks, txs, slot, k)
        && Competes(addressOf, delegates, blocks, txs, slot, l) && k != l;
      CollidingKeysDependOnOrder(addressOf, delegates, blocks, txs, slot, k, l);
    }
  }

  /** Two keys that compete for a slot: two orders of the same sets give different records. */
  lemma CollidingKeysDependOnOrder(
      addressOf: Bytes -> Bytes, delegates: set<Latin1>, blocks: seq<Latin1>, txs: seq<Latin1>,
      slot: Latin1, k: Latin1, l: Latin1)
    requires Competes(addressOf, delegates, blocks, txs, slot, k)
    requires Competes(addressOf, delegates, blocks, txs, slot, l) && k != l
    ensures exists blocks1, txs1, blocks2, txs2 ::
      && multiset(blocks1) == multiset(blocks2) == multiset(blocks) && multiset(txs1) == multiset(txs2) == multiset(txs)
      && AllKeys(addressOf, delegates, blocks1, txs1) != AllKeys(addressOf, delegates, blocks2, txs2)
    ensures !OrderIrrelevant(addressOf, delegates, blocks, txs)
  {
    var blocks1, txs1 := CompetitorMovedLastWins(addressOf, delegates, blocks, txs, slot, k);
    var blocks2, txs2 := CompetitorMovedLastWins(addressOf, delegates, blocks, txs, slot, l);
    assert AllKeys(addressOf, delegates, blocks1, txs1)[slot] != AllKeys(addressOf, delegates, blocks2, txs2)[slot];
    assert AllKeys(addressOf, delegates, blocks1, txs1) != AllKeys(addressOf, delegates, blocks2, txs2);
  }

  // ----- From the database to the generator key -----

  function StoredValidatorKeys(
      accounts: seq<Account>, db: Database, generatorPublicKey: Bytes -> Bytes,
      senderPublicKey: Bytes -> Bytes, addressOf: Bytes -> Bytes): map<Latin1, Latin1>
  {
    AllKeys(addressOf, DelegateSet(accounts),
      StoredKeys(db, DB_KEY_BLOCKS_ID, generatorPublicKey), StoredKeys(db, DB_KEY_TRANSACTIONS_ID, senderPublicKey))
  }

  const INVALID_ED25519_KEY: Latin1 := ToHex(Filled(32, 255))

  /** `validatorKeys[address] || INVALID_ED25519_KEY`: the empty text is falsy too. */
  function GeneratorKey(keys: map<Latin1, Latin1>, address: Bytes): Latin1 {
    if ToHex(address) in keys && keys[ToHex(address)] != "" then keys[ToHex(address)] else INVALID_ED25519_KEY
  }

  /** Some block or transaction in the database carries the public key. */
  ghost predicate Carried(
      db: Database, generatorPublicKey: Bytes -> Bytes, senderPublicKey: Bytes -> Bytes, key: Bytes)
  {
    exists r :: r in db && (
      || (IsKeyOf(DB_KEY_BLOCKS_ID, ID_LENGTH, r.key) && generatorPublicKey(r.value) == key)
      || (IsKeyOf(DB_KEY_TRANSACTIONS_ID, ID_LENGTH, r.key) && senderPublicKey(r.value) == key))
  }

  lemma StoredKeysMember(db: Database, prefix: Latin1, publicKey: Bytes -> Bytes, text: Latin1)
    requires WellKeyed(db, prefix, ID_LENGTH)
    ensures text in StoredKeys(db, prefix, publicKey)
      <==> exists r :: r in db && IsKeyOf(prefix, ID_LENGTH, r.key) && text == ToHex(publicKey(r.value))
  {
    var all := Range(db, FirstKey(prefix, ID_LENGTH), LastKey(prefix, ID_LENGTH));
    PublicKeysMember(publicKey, all, text);
    forall r ensures r in all <==> r in db && IsKeyOf(prefix, ID_LENGTH, r.key) {
      RangeIsPrefix(db, prefix, ID_LENGTH, r);
    }
  }

  /** The texts in the two sets are the carried keys in hex. */
  lemma CarriedTexts(
      db: Database, generatorPublicKey: Bytes -> Bytes, senderPublicKey: Bytes -> Bytes, text: Latin1)
    requires WellKeyed(db, DB_KEY_BLOCKS_ID, ID_LENGTH) && WellKeyed(db, DB_KEY_TRANSACTIONS_ID, ID_LENGTH)
    ensures text in StoredKeys(db, DB_KEY_BLOCKS_ID, generatorPublicKey)
        || text in StoredKeys(db, DB_KEY_TRANSACTIONS_ID, senderPublicKey)
      <==> exists key :: Carried(db, generatorPublicKey, senderPublicKey, key) && text == ToHex(key)
  {
    StoredKeysMember(db, DB_KEY_BLOCKS_ID, generatorPublicKey, text);
    StoredKeysMember(db, DB_KEY_TRANSACTIONS_ID, senderPublicKey, text);
    if r :| r in db && IsKeyOf(DB_KEY_BLOCKS_ID, ID_LENGTH, r.key) && text == ToHex(generatorPublicKey(r.value)) {
      assert Carried(db, generatorPublicKey, senderPublicKey, generatorPublicKey(r.value));
    }
    if r :| r in db && IsKeyOf(DB_KEY_TRANSACTIONS_ID, ID_LENGTH, r.key) && text == ToHex(senderPublicKey(r.value)) {
      assert Carried(db, generatorPublicKey, senderPublicKey, senderPublicKey(r.value));
    }
  }

  lemma SlotOfHex(addressOf: Bytes -> Bytes, key: Bytes, address: Bytes)
    ensures Slot(addressOf, ToHex(key)) == ToHex(address) <==> addressOf(key) == address
  {
    HexRoundTrip(key);
    HexOrder(addressOf(key), address);
  }

  /** A delegate's slot is filled exactly when a carried key hashes to its address. */
  lemma DelegateSlot(
      accounts: seq<Account>, db: Database, generatorPublicKey: Bytes -> Bytes,
      senderPublicKey: Bytes -> Bytes, addressOf: Bytes -> Bytes, account: Account)
    requires WellKeyed(db, DB_KEY_BLOCKS_ID, ID_LENGTH) && WellKeyed(db, DB_KEY_TRANSACTIONS_ID, ID_LENGTH)
    requires account in accounts && IsDelegate(account)
    ensures var keys := StoredValidatorKeys(accounts, db, generatorPublicKey, senderPublicKey, addressOf);
      && (ToHex(account.address) in keys <==>
        exists key :: Carried(db, generatorPublicKey, senderPublicKey, key) && addressOf(key) == account.address)
      && (ToHex(account.address) in keys ==>
        exists key :: Carried(db, generatorPublicKey, senderPublicKey, key) && addressOf(key) == account.address
          && keys[ToHex(account.address)] == ToHex(key))
  {
    var slot := ToHex(account.address);
    var blocks := StoredKeys(db, DB_KEY_BLOCKS_ID, generatorPublicKey);
    var txs := StoredKeys(db, DB_KEY_TRANSACTIONS_ID, senderPublicKey);
    var keys := AllKeys(addressOf, DelegateSet(accounts), blocks, txs);
    assert slot in DelegateSet(accounts);
    AllKeysHold(addressOf, DelegateSet(accounts), blocks, txs, slot);
    if slot in keys {
      CarriedTexts(db, generatorPublicKey, senderPublicKey, keys[slot]);
      var key :| Carried(db, generatorPublicKey, senderPublicKey, key) && keys[slot] == ToHex(key);
      SlotOfHex(addressOf, key, account.address);
    }
    if key :| Carried(db, generatorPublicKey, senderPublicKey, key) && addressOf(key) == account.address {
      CarriedTexts(db, generatorPublicKey, senderPublicKey, ToHex(key));
      SlotOfHex(addressOf, key, account.address);
    }
  }

  /** A key whose text can be told from a missing one. */
  predicate Usable(key: Bytes) {
    key != [] && key != Filled(32, 255)
  }

  /** Texts that `GeneratorKey` passes on. */
  predicate IsRealText(text: Latin1) {
    text != "" && text != INVALID_ED25519_KEY
  }

  lemma UsableText(key: Bytes)
    ensures Usable(key) <==> IsRealText(ToHex(key))
  {
    HexOrder(key, []);
    HexOrder(key, Filled(32, 255));
    assert ToHex([]) == "";
  }

  /** The address has usable and unusable keys in the database. */
  ghost predicate MixedKeys(
      db: Database, generatorPublicKey: Bytes -> Bytes, senderPublicKey: Bytes -> Bytes,
      addressOf: Bytes -> Bytes, address: Bytes)
  {
    exists k, l ::
      && Carried(db, generatorPublicKey, senderPublicKey, k) && addressOf(k) == address && Usable(k)
      && Carried(db, generatorPublicKey, senderPublicKey, l) && addressOf(l) == address && !Usable(l)
  }

  /** The public key filed last for the address, from all stored blocks and transactions. */
  ghost predicate StoredLast(
      accounts: seq<Account>, db: Database, generatorPublicKey: Bytes -> Bytes,
      senderPublicKey: Bytes -> Bytes, addressOf: Bytes -> Bytes, address: Bytes, key: Bytes)
  {
    FiledLast(
      addressOf, DelegateSet(accounts), StoredKeys(db, DB_KEY_BLOCKS_ID, generatorPublicKey),
      StoredKeys(db, DB_KEY_TRANSACTIONS_ID, senderPublicKey), ToHex(address), ToHex(key))
  }

  /**
   End to end: a generator key other than the invalid key is a public key that some stored
   block or transaction carries, and hashes to the validator's address. There is one exactly
   when the key filed last for the address is neither empty nor all 0xFF; if the address does
   not have keys of both kinds, exactly when some carried key of the address is neither.
  */
  lemma GeneratorKeyIsCarried(
      accounts: seq<Account>, db: Database, generatorPublicKey: Bytes -> Bytes,
      senderPublicKey: Bytes -> Bytes, addressOf: Bytes -> Bytes, account: Account)
    requires WellKeyed(db, DB_KEY_BLOCKS_ID, ID_LENGTH) && WellKeyed(db, DB_KEY_TRANSACTIONS_ID, ID_LENGTH)
    requires account in accounts && IsDelegate(account)
    ensures var keys := StoredValidatorKeys(accounts, db, generatorPublicKey, senderPublicKey, addressOf);
      var generatorKey := GeneratorKey(keys, account.address);
      && (generatorKey != INVALID_ED25519_KEY ==>
        exists key :: Carried(db, generatorPublicKey, senderPublicKey, key) && addressOf(key) == account.address
          && Usable(key) && generatorKey == ToHex(key))
      && (generatorKey != INVALID_ED25519_KEY <==>
        exists key :: Usable(key)
          && StoredLast(accounts, db, generatorPublicKey, senderPublicKey, addressOf, account.address, key))
      && (!MixedKeys(db, generatorPublicKey, senderPublicKey, addressOf, account.address) ==>
        (generatorKey != INVALID_ED25519_KEY <==>
          exists key :: Carried(db, generatorPublicKey, senderPublicKey, key) && addressOf(key) == account.address
            && Usable(key)))
  {
    DelegateSlot(accounts, db, generatorPublicKey, senderPublicKey, addressOf, account);
    RealIffStoredLast(accounts, db, generatorPublicKey, senderPublicKey, addressOf, account);
    var keys := StoredValidatorKeys(accounts, db, generatorPublicKey, senderPublicKey, addressOf);
    if ToHex(account.address) in keys {
      var key :| Carried(db, generatorPublicKey, senderPublicKey, key) && addressOf(key) == account.address
        && keys[ToHex(account.address)] == ToHex(key);
      UsableText(key);
    }
  }

  lemma RealIffStoredLast(
      accounts: seq<Account>, db: Database, generatorPublicKey: Bytes -> Bytes,
      senderPublicKey: Bytes -> Bytes, addressOf: Bytes -> Bytes, account: Account)
    requires WellKeyed(db, DB_KEY_BLOCKS_ID, ID_LENGTH) && WellKeyed(db, DB_KEY_TRANSACTIONS_ID, ID_LENGTH)
    requires account in accounts && IsDelegate(account)
    ensures var keys := StoredValidatorKeys(accounts, db, generatorPublicKey, senderPublicKey, addressOf);
      GeneratorKey(keys, account.address) != INVALID_ED25519_KEY <==>
        exists key :: Usable(key)
          && StoredLast(accounts, db, generatorPublicKey, senderPublicKey, addressOf, account.address, key)
  {
    var blocks := StoredKeys(db, DB_KEY_BLOCKS_ID, generatorPublicKey);
    var txs := StoredKeys(db, DB_KEY_TRANSACTIONS_ID, senderPublicKey);
    var keys := AllKeys(addressOf, DelegateSet(accounts), blocks, txs);
    var slot := ToHex(account.address);
    DelegateSlot(accounts, db, generatorPublicKey, senderPublicKey, addressOf, account);
    if GeneratorKey(keys, account.address) != INVALID_ED25519_KEY {
      var key :| keys[slot] == ToHex(key) && addressOf(key) == account.address;
      UsableText(key);
      FiledLastStays(addressOf, DelegateSet(accounts), blocks, txs, slot, ToHex(key));
      assert StoredLast(accounts, db, generatorPublicKey, senderPublicKey, addressOf, account.address, key);
    }
    forall key | Usable(key)
      && StoredLast(accounts, db, generatorPublicKey, senderPublicKey, addressOf, account.address, key)
      ensures GeneratorKey(keys, account.address) != INVALID_ED25519_KEY {
      UsableText(key);
      FiledLastStays(addressOf, DelegateSet(accounts), blocks, txs, slot, ToHex(key));
    }
  }

  lemma RealInOrder(
      addressOf: Bytes -> Bytes, delegates: set<Latin1>, blocks: seq<Latin1>, txs: seq<Latin1>,
      blocks': seq<Latin1>, txs': seq<Latin1>, address: Bytes)
    requires multiset(blocks') == multiset(blocks) && multiset(txs') == multiset(txs)
    requires exists k :: Competes(addressOf, delegates, blocks, txs, ToHex(address), k)
    requires forall k :: Competes(addressOf, delegates, blocks, txs, ToHex(address), k) ==> IsRealText(k)
    ensures GeneratorKey(AllKeys(addressOf, delegates, blocks', txs'), address) != INVALID_ED25519_KEY
  {
    forall x ensures (x in blocks <==> x in blocks') && (x in txs <==> x in txs') {
      SameMembers(blocks, blocks', x);
      SameMembers(txs, txs', x);
    }
    CompetitorTakesSlotInOrder(addressOf, delegates, blocks, txs, blocks', txs', ToHex(address));
  }

  /**
   For keys of both kinds: the generator key is real in every iteration order exactly when
   the address has a competing key and all its competing keys are usable.
  */
  lemma RealInEveryOrderIff(
      addressOf: Bytes -> Bytes, delegates: set<Latin1>, blocks: seq<Latin1>, txs: seq<Latin1>, address: Bytes)
    ensures (forall blocks', txs' :: multiset(blocks') == multiset(blocks) && multiset(txs') == multiset(txs) ==>
        GeneratorKey(AllKeys(addressOf, delegates, blocks', txs'), address) != INVALID_ED25519_KEY)
      <==>
        && (exists k :: Competes(addressOf, delegates, blocks, txs, ToHex(address), k))
        && (forall k :: Competes(addressOf, delegates, blocks, txs, ToHex(address), k) ==> IsRealText(k))
  {
    var slot := ToHex(address);
    CompetitorTakesSlot(addressOf, delegates, blocks, txs, slot);
    if k :| Competes(addressOf, delegates, blocks, txs, slot, k) && !IsRealText(k) {
      var blocks', txs' := CompetitorMovedLastWins(addressOf, delegates, blocks, txs, slot, k);
      assert GeneratorKey(AllKeys(addressOf, delegates, blocks', txs'), address) == INVALID_ED25519_KEY;
    } else if exists k :: Competes(addressOf, delegates, blocks, txs, slot, k) {
      forall blocks', txs' | multiset(blocks') == multiset(blocks) && multiset(txs') == multiset(txs)
        ensures GeneratorKey(AllKeys(addressOf, delegates, blocks', txs'), address) != INVALID_ED25519_KEY {
        RealInOrder(addressOf, delegates, blocks, txs, blocks', txs', address);
      }
    } else {
      assert GeneratorKey(AllKeys(addressOf, delegates, blocks, txs), address) == INVALID_ED25519_KEY;
    }
  }

  /** What the generator key becomes if the text is in the slot. */
  function Emitted(text: Latin1): Latin1 {
    if text == "" then INVALID_ED25519_KEY else text
  }

  /** All keys that compete for the slot are emitted alike. */
  ghost predicate EmittedAlike(
      addressOf: Bytes -> Bytes, delegates: set<Latin1>, blocks: seq<Latin1>, txs: seq<Latin1>, slot: Latin1)
  {
    forall k, l ::
      Competes(addressOf, delegates, blocks, txs, slot, k) && Competes(addressOf, delegates, blocks, txs, slot, l) ==>
      Emitted(k) == Emitted(l)
  }

  /** Then every order gives the same generator key. */
  lemma GeneratorKeyCanonical(
      addressOf: Bytes -> Bytes, delegates: set<Latin1>,
      blocks: seq<Latin1>, txs: seq<Latin1>, blocks': seq<Latin1>, txs': seq<Latin1>, address: Bytes)
    requires (forall x :: x in blocks <==> x in blocks') && (forall x :: x in txs <==> x in txs')
    requires EmittedAlike(addressOf, delegates, blocks, txs, ToHex(address))
    ensures GeneratorKey(AllKeys(addressOf, delegates, blocks, txs), address)
      == GeneratorKey(AllKeys(addressOf, delegates, blocks', txs'), address)
  {
    var slot := ToHex(address);
    CompetitorTakesSlot(addressOf, delegates, blocks, txs, slot);
    CompetitorTakesSlotInOrder(addressOf, delegates, blocks, txs, blocks', txs', slot);
    var keys, keys' := AllKeys(addressOf, delegates, blocks, txs), AllKeys(addressOf, delegates, blocks', txs');
    if slot in keys { assert Emitted(keys[slot]) == Emitted(keys'[slot]); }
  }

  /** A database with one block, which carries the empty public key. */
  function EmptyKeyDatabase(): Database {
    [Record(FirstKey(DB_KEY_BLOCKS_ID, ID_LENGTH), [])]
  }

  /** The empty key is carried and hashes to the delegate's address, yet it reads as missing. */
  lemma EmptyKeyReadsAsMissing(account: Account, senderPublicKey: Bytes -> Bytes)
    requires IsDelegate(account)
    ensures var db := EmptyKeyDatabase();
      var carriesNothing := (value: Bytes) => [];
      var toAccount := (key: Bytes) => account.address;
      && WellKeyed(db, DB_KEY_BLOCKS_ID, ID_LENGTH) && WellKeyed(db, DB_KEY_TRANSACTIONS_ID, ID_LENGTH)
      && Carried(db, carriesNothing, senderPublicKey, []) && toAccount([]) == account.address
      && GeneratorKey(StoredValidatorKeys([account], db, carriesNothing, senderPublicKey, toAccount), account.address)
        == INVALID_ED25519_KEY
  {
    var db := EmptyKeyDatabase();
    var r := db[0];
    var carriesNothing := (value: Bytes) => [];
    var toAccount := (key: Bytes) => account.address;
    EmptyKeyDatabaseIsWellKeyed();
    assert r in db && IsKeyOf(DB_KEY_BLOCKS_ID, ID_LENGTH, r.key);
    assert Carried(db, carriesNothing, senderPublicKey, []);
    forall k | Carried(db, carriesNothing, senderPublicKey, k) ensures k == [] {
      BlockKeyIsNoTransactionKey();
    }
    GeneratorKeyIsCarried([account], db, carriesNothing, senderPublicKey, toAccount, account);
  }

  /** The two prefixes begin with different letters. */
  lemma BlockKeyIsNoTransactionKey()
    ensures !IsKeyOf(DB_KEY_TRANSACTIONS_ID, ID_LENGTH, FirstKey(DB_KEY_BLOCKS_ID, ID_LENGTH))
    ensures Less(FirstKey(DB_KEY_BLOCKS_ID, ID_LENGTH), FirstKey(DB_KEY_TRANSACTIONS_ID, ID_LENGTH))
  {
    DbKeyFirstByte(DB_KEY_BLOCKS_ID, Filled(ID_LENGTH, 0));
    forall payload: Bytes ensures DbKey(DB_KEY_TRANSACTIONS_ID, payload) != FirstKey(DB_KEY_BLOCKS_ID, ID_LENGTH) {
      DbKeyFirstByte(DB_KEY_TRANSACTIONS_ID, payload);
    }
    DbKeyFirstByte(DB_KEY_TRANSACTIONS_ID, Filled(ID_LENGTH, 0));
  }

  lemma EmptyKeyDatabaseIsWellKeyed()
    ensures WellKeyed(EmptyKeyDatabase(), DB_KEY_BLOCKS_ID, ID_LENGTH)
    ensures WellKeyed(EmptyKeyDatabase(), DB_KEY_TRANSACTIONS_ID, ID_LENGTH)
  {
    var db := EmptyKeyDatabase();
    var first, last := FirstKey(DB_KEY_TRANSACTIONS_ID, ID_LENGTH), LastKey(DB_KEY_TRANSACTIONS_ID, ID_LENGTH);
    BlockKeyIsNoTransactionKey();
    NotAtMost(first, db[0].key);
    assert db[1..] == [] && Range(db[1..], first, last) == [];
    assert Range(db, first, last) == [];
    forall r | r in Range(db, FirstKey(DB_KEY_BLOCKS_ID, ID_LENGTH), LastKey(DB_KEY_BLOCKS_ID, ID_LENGTH))
      ensures IsKeyOf(DB_KEY_BLOCKS_ID, ID_LENGTH, r.key) {
      RangeMember(db, FirstKey(DB_KEY_BLOCKS_ID, ID_LENGTH), LastKey(DB_KEY_BLOCKS_ID, ID_LENGTH), r);
      assert r == db[0];
    }
  }
}
