/**
 What the created assets contain, in terms of the database and of the source's own constants:
 keys are read by a UTF-8 decoder, texts by the decimal and hex readers, and every field of
 every entry is compared with the field of the account it comes from.
*/
module GenesisContents {
  import opened ByteStrings
  import opened Sequences
  import opened Store
  import opened KeyEncoding
  import opened Decimal
  import opened Accounts
  import opened ValidatorKeys
  import opened PagedScan
  import opened BlockIndex
  import opened CreateAsset
  import opened GenesisProperties
  import Auth
  import Token
  import Legacy
  import Pos

  // ----- The database -----

  /** A v3 database: blocks and transactions under their ids, accounts under their addresses. */
  ghost predicate IsV3(db: Database, codec: Codec) {
    && Ascending(db)
    && KeyedBy(db, "blocks:id", 32) && KeyedBy(db, "transactions:id", 32)
    && forall r :: r in db && Units("accounts:address") + [0x3A] <= r.key ==>
      Reads(r.key, "accounts:address", codec.account(r.value).address)
  }

  lemma V3AccountsAreKeyed(db: Database, codec: Codec)
    requires IsV3(db, codec)
    ensures AccountKeyed(db, AccountAddress(codec.account))
  {
    HeadStands("accounts:address");
    forall r | r in db && Head(DB_KEY_ACCOUNTS_ADDRESS) <= r.key
      ensures r.key == DbKey(DB_KEY_ACCOUNTS_ADDRESS, codec.account(r.value).address) {
      DbKeyReads(DB_KEY_ACCOUNTS_ADDRESS, codec.account(r.value).address, r.key);
    }
  }

  lemma V3IsWellFormed(db: Database, codec: Codec)
    requires IsV3(db, codec)
    ensures WellFormed(db) && AccountKeyed(db, AccountAddress(codec.account))
  {
    KeyedByIsWellKeyed(db, "blocks:id", 32);
    KeyedByIsWellKeyed(db, "transactions:id", 32);
    V3AccountsAreKeyed(db, codec);
  }

  /** The account is stored, and its address has 20 bytes. */
  ghost predicate IsStored(db: Database, codec: Codec, a: Account) {
    |a.address| == 20 && exists value :: StoredAt(db, "accounts:address", a.address, value) && codec.account(value) == a
  }

  lemma SnapshotIsStored(db: Database, codec: Codec, a: Account)
    requires IsV3(db, codec)
    ensures a in SnapshotAccounts(db, codec.account) <==> IsStored(db, codec, a)
  {
    V3IsWellFormed(db, codec);
    SnapshotMember(db, codec.account, a);
    if r :| HoldsAccount(db, codec.account, r, a) {
      DbKeyReads(DB_KEY_ACCOUNTS_ADDRESS, a.address, r.key);
      assert StoredAt(db, "accounts:address", a.address, r.value);
    }
    if IsStored(db, codec, a) {
      var value :| StoredAt(db, "accounts:address", a.address, value) && codec.account(value) == a;
      var r :| r in db && Reads(r.key, "accounts:address", a.address) && r.value == value;
      DbKeyReads(DB_KEY_ACCOUNTS_ADDRESS, a.address, r.key);
      DbKeyShape(DB_KEY_ACCOUNTS_ADDRESS, a.address);
      assert HoldsAccount(db, codec.account, r, a);
    }
  }

  // ----- When `init` succeeds -----

  const CHAIN: Latin1 := "chain"
  const UNREGISTERED: Latin1 := "unregisteredAddresses"
  const VOTE_WEIGHTS: Latin1 := "dpos:delegateVoteWeights"

  /** Both chain-state records are there, the second with this value. */
  ghost predicate HasChainState(db: Database, voteWeights: Bytes) {
    && (exists unregistered :: StoredAt(db, CHAIN, Units(UNREGISTERED), unregistered))
    && StoredAt(db, CHAIN, Units(VOTE_WEIGHTS), voteWeights)
  }

  /** The first entry of the round two before the snapshot's, if it has delegates. */
  ghost predicate DecidingRound(rounds: seq<VoteRound>, snapshotHeight: int, i: nat) {
    Pos.FirstOfRound(rounds, Pos.GenesisRound(snapshotHeight), i) && rounds[i].delegates != []
  }

  lemma FreshGenesisOutcome(rounds: seq<VoteRound>, snapshotHeight: int)
    ensures match FreshGenesis(rounds, snapshotHeight)
      case NoVoteWeights(round) =>
        round == Pos.GenesisRound(snapshotHeight) && forall i: nat :: !DecidingRound(rounds, snapshotHeight, i)
      case Genesis(data) =>
        && data.initRounds == 587
        && exists i: nat ::
          && DecidingRound(rounds, snapshotHeight, i)
          && IsFirst101(data.initValidators, rounds[i].delegates)
  {
    var round := Pos.GenesisRound(snapshotHeight);
    Pos.FindRoundIs(rounds, round);
    forall i: nat, j: nat | Pos.FirstOfRound(rounds, round, i) && Pos.FirstOfRound(rounds, round, j) ensures i == j {
      if i < j {} else if j < i {}
    }
    if w :| Pos.FindRound(rounds, round) == Some(w) { First101Sorted(w.delegates); }
  }

  /** The first 101 of the delegates, or all, in ascending order. */
  ghost predicate IsFirst101(validators: seq<Bytes>, delegates: seq<Bytes>) {
    && (forall i, j :: 0 <= i < j < |validators| ==> AtMost(validators[i], validators[j]))
    && multiset(validators) == multiset(if |delegates| <= 101 then delegates else delegates[..101])
  }

  lemma First101Sorted(delegates: seq<Bytes>)
    ensures IsFirst101(Sort(BytesAtMost, Take(delegates, 101)), delegates)
  {
    BytesOrder();
    var r := Sort(BytesAtMost, Take(delegates, 101));
    SortSorts(BytesAtMost, Take(delegates, 101));
    assert forall i, j :: 0 <= i < j < |r| ==> BytesAtMost(r[i], r[j]);
  }

  lemma ChainStateReads(db: Database, name: Latin1)
    requires Ascending(db)
    ensures match Get(db, ChainStateKey(name))
      case None => forall value :: !StoredAt(db, CHAIN, Units(name), value)
      case Some(v) => forall value :: StoredAt(db, CHAIN, Units(name), value) <==> value == v
  {
    assert KeyString(Units(name)) == name;
    GetReads(db, CHAIN, Units(name));
  }

  lemma ChainStateIs(db: Database)
    requires Ascending(db)
    ensures forall v ::
      HasChainState(db, v) <==> Get(db, UNREGISTERED_KEY).Some? && Get(db, VOTE_WEIGHTS_KEY) == Some(v)
  {
    ChainStateReads(db, UNREGISTERED);
    ChainStateReads(db, VOTE_WEIGHTS);
    assert UNREGISTERED_KEY == ChainStateKey(UNREGISTERED) && VOTE_WEIGHTS_KEY == ChainStateKey(VOTE_WEIGHTS);
    if u :| Get(db, UNREGISTERED_KEY) == Some(u) { assert StoredAt(db, CHAIN, Units(UNREGISTERED), u); }
  }

  /** The vote weights of the database decide, at index i. */
  ghost predicate Decides(db: Database, codec: Codec, snapshotHeight: int, voteWeights: Bytes, i: nat) {
    HasChainState(db, voteWeights) && DecidingRound(codec.voteWeights(voteWeights), snapshotHeight, i)
  }

  lemma FreshGenesisDecides(db: Database, codec: Codec, snapshotHeight: int, voteWeights: Bytes)
    requires Ascending(db) && HasChainState(db, voteWeights)
    ensures match FreshGenesis(codec.voteWeights(voteWeights), snapshotHeight)
      case NoVoteWeights(round) =>
        && round == Pos.GenesisRound(snapshotHeight)
        && forall v, i: nat :: !Decides(db, codec, snapshotHeight, v, i)
      case Genesis(data) =>
        && data.initRounds == 587
        && exists i: nat ::
          && Decides(db, codec, snapshotHeight, voteWeights, i)
          && IsFirst101(data.initValidators, codec.voteWeights(voteWeights)[i].delegates)
  {
    FreshGenesisOutcome(codec.voteWeights(voteWeights), snapshotHeight);
    ChainStateIs(db);
    forall v | HasChainState(db, v) ensures v == voteWeights {}
  }

  /**
   Exactly when `init` creates the assets, and with which error it fails otherwise: both
   chain-state records must exist, and the first vote weights of the round two before the
   snapshot's must exist and name a delegate.
  */
  lemma InitOutcome(db: Database, codec: Codec, supplyOnEntry: nat, snapshotHeight: nat, tokenID: Latin1)
    requires Ascending(db)
    ensures match InitSpec(db, codec, supplyOnEntry, snapshotHeight, tokenID)
      case Failed(MissingRecord) => forall v :: !HasChainState(db, v)
      case Failed(KeyOverflow) => false
      case Failed(NoVoteWeights(round)) =>
        && round == Pos.GenesisRound(snapshotHeight)
        && (exists v :: HasChainState(db, v)) && forall v, i: nat :: !Decides(db, codec, snapshotHeight, v, i)
      case Created(assets) =>
        && assets.genesis.initRounds == 587
        && exists v, i: nat ::
          && Decides(db, codec, snapshotHeight, v, i)
          && IsFirst101(assets.genesis.initValidators, codec.voteWeights(v)[i].delegates)
  {
    ChainStateIs(db);
    if v :| HasChainState(db, v) { FreshGenesisDecides(db, codec, snapshotHeight, v); }
  }

  /** So it succeeds if and only if the vote weights decide. */
  lemma InitSucceedsIff(db: Database, codec: Codec, supplyOnEntry: nat, snapshotHeight: nat, tokenID: Latin1)
    requires Ascending(db)
    ensures InitSpec(db, codec, supplyOnEntry, snapshotHeight, tokenID).Created?
      <==> exists v, i: nat :: Decides(db, codec, snapshotHeight, v, i)
  {
    InitOutcome(db, codec, supplyOnEntry, snapshotHeight, tokenID);
    if v, i: nat :| Decides(db, codec, snapshotHeight, v, i) { assert HasChainState(db, v); }
  }

  // ----- What an entry says about its account -----

  /** The text is the numeral of the amount. */
  predicate IsAmount(text: Decimal, amount: int) {
    Parse(text) == amount && IsNumeral(text)
  }

  lemma PrintIsAmount(n: nat)
    ensures IsAmount(Print(n), n)
  {
    PrintIs(n, Print(n));
  }

  predicate IsRepeated(s: string, c: char, n: nat) {
    |s| == n && forall i :: 0 <= i < |s| ==> s[i] == c
  }

  lemma Doubled(digit: int)
    requires 0 <= digit < 16
    ensures (17 * digit) / 16 == digit && (17 * digit) % 16 == digit
  {
  }

  lemma HexOfFilled(n: nat, digit: int)
    requires 0 <= digit < 16
    ensures IsRepeated(ToHex(Filled(n, 17 * digit)), HEX_LETTERS[digit], 2 * n)
  {
    var b := Filled(n, 17 * digit);
    HexLetters(b);
    Doubled(digit);
    forall i | 0 <= i < 2 * n ensures ToHex(b)[i] == HEX_LETTERS[digit] {
      assert i == 2 * (i / 2) || i == 2 * (i / 2) + 1;
      assert b[i / 2] == 17 * digit;
    }
  }

  /** The entry has the account's fields and the constants; its generator key is a matter of the key record. */
  ghost predicate DescribesValidator(v: Pos.ValidatorEntry, a: Account, snapshotHeight: nat, tokenID: Latin1) {
    && v.address == a.address
    && v.name == a.delegate.username
    && IsRepeated(v.blsKey, '0', 96)
    && IsRepeated(v.proofOfPossession, '0', 192)
    && v.lastGeneratedHeight == a.delegate.lastForgedHeight
    && v.isBanned
    && v.reportMisbehaviorHeights == a.delegate.pomHeights
    && v.consecutiveMissedBlocks == a.delegate.consecutiveMissedBlocks
    && v.lastCommissionIncreaseHeight == snapshotHeight
    && v.commission == 10000
    && v.sharingCoefficients == [Pos.SharingCoefficient(tokenID, [])]
  }

  lemma ValidatorIs(keys: map<Latin1, Latin1>, snapshotHeight: nat, tokenID: Latin1, a: Account)
    ensures match Pos.ValidatorFor(keys, snapshotHeight, tokenID)(a)
      case None => a.delegate.username == ""
      case Some(v) =>
        a.delegate.username != "" && DescribesValidator(v, a, snapshotHeight, tokenID)
        && v.generatorKey == GeneratorKey(keys, a.address)
  {
    HexOfFilled(48, 0);
    HexOfFilled(96, 0);
  }

  lemma InvalidKeyText()
    ensures IsRepeated(INVALID_ED25519_KEY, 'f', 64)
  {
    HexOfFilled(32, 15);
  }

  /** Lower-case hex texts of the keys, in ascending order. */
  ghost predicate DescribesKeys(texts: seq<Latin1>, keys: seq<Bytes>) {
    && multiset(Auth.Decoded(texts)) == multiset(keys)
    && (forall i, j :: 0 <= i < j < |texts| ==> AtMost(Units(texts[i]), Units(texts[j])))
    && (forall t :: t in texts ==> t == ToHex(FromHex(t)))
  }

  ghost predicate DescribesAuth(e: Auth.AuthEntry, a: Account) {
    && e.address == a.address
    && e.numberOfSignatures == a.numberOfSignatures
    && DescribesKeys(e.mandatoryKeys, a.mandatoryKeys)
    && DescribesKeys(e.optionalKeys, a.optionalKeys)
    && IsAmount(e.nonce, a.nonce)
  }

  lemma KeysAre(keys: seq<Bytes>)
    ensures DescribesKeys(Auth.HexTexts(Sort(BytesAtMost, keys)), keys)
  {
    Auth.KeyTexts(keys);
    forall t | t in Auth.HexTexts(Sort(BytesAtMost, keys)) ensures t == ToHex(FromHex(t)) {
      var k :| k in Sort(BytesAtMost, keys) && t == ToHex(k);
      HexRoundTrip(k);
    }
  }

  lemma AuthIs(a: Account)
    ensures Auth.EntryOf(a).Some? && DescribesAuth(Auth.EntryOf(a).value, a)
  {
    KeysAre(a.mandatoryKeys);
    KeysAre(a.optionalKeys);
    PrintIsAmount(a.nonce);
  }

  /** All the account has voted with, or is still unlocking. */
  function LockedTotal(a: Account): int {
    Sum((v: Vote) => v.amount, a.sentVotes) + Sum((u: Unlock) => u.amount, a.unlocking)
  }

  lemma LockedTotalIs(a: Account)
    ensures LockedTotal(a) == Token.Locked(a)
  {
    SumCongruent((v: Vote) => v.amount, Token.VoteAmount, a.sentVotes);
    SumCongruent((u: Unlock) => u.amount, Token.UnlockAmount, a.unlocking);
  }

  /** One lock by the pos module, if there is anything to lock. */
  predicate DescribesLocks(locked: seq<Token.LockedBalance>, a: Account) {
    if LockedTotal(a) == 0 then locked == []
    else |locked| == 1 && locked[0].lockedBy == Token.Pos && IsAmount(locked[0].amount, LockedTotal(a))
  }

  lemma LocksAre(a: Account)
    ensures DescribesLocks(Token.LockedBalances(a), a)
  {
    LockedTotalIs(a);
    PrintIsAmount(Token.Locked(a));
  }

  ghost predicate DescribesUser(e: Token.UserEntry, a: Account, tokenID: Latin1) {
    && e.address == a.address
    && HexReads(tokenID, e.tokenID)
    && IsAmount(e.availableBalance, a.balance)
    && DescribesLocks(e.lockedBalances, a)
  }

  lemma UserIs(tokenID: Latin1, a: Account)
    ensures match Token.UserEntryFor(tokenID)(a)
      case None => a.address == ADDRESS_LEGACY_RESERVE
      case Some(e) => a.address != ADDRESS_LEGACY_RESERVE && DescribesUser(e, a, tokenID)
  {
    FromHexReads(tokenID);
    PrintIsAmount(a.balance);
    LocksAre(a);
  }

  /** The reserve's entry: the legacy lock comes first, then what the account itself has locked. */
  ghost predicate DescribesReserve(
      e: Token.UserEntry, reserve: Option<Account>, reserveAmount: int, tokenID: Latin1)
  {
    && e.address == ADDRESS_LEGACY_RESERVE
    && HexReads(tokenID, e.tokenID)
    && e.lockedBalances != []
    && e.lockedBalances[0].lockedBy == Token.Legacy && IsAmount(e.lockedBalances[0].amount, reserveAmount)
    && match reserve
      case None => IsAmount(e.availableBalance, 0) && e.lockedBalances[1..] == []
      case Some(a) => IsAmount(e.availableBalance, a.balance) && DescribesLocks(e.lockedBalances[1..], a)
  }

  lemma ReserveIs(reserve: Option<Account>, reserveAmount: nat, tokenID: Latin1)
    ensures DescribesReserve(Token.ReserveEntry(reserve, reserveAmount, tokenID), reserve, reserveAmount, tokenID)
  {
    FromHexReads(tokenID);
    Token.ReserveLocks(reserve, reserveAmount, tokenID);
    PrintIsAmount(reserveAmount);
    PrintIsAmount(Token.ReserveBalance(reserve));
    var locked := Token.ReserveEntry(reserve, reserveAmount, tokenID).lockedBalances;
    match reserve
    case None => assert locked[1..] == [];
    case Some(a) =>
      LocksAre(a);
      assert locked[1..] == Token.LockedBalances(a);
  }

  /** Stakes are the votes, ascending by validator; pending unlocks are the unlocks in their order. */
  ghost predicate DescribesStaker(s: Pos.Staker, a: Account, tokenID: Latin1) {
    && s.address == a.address
    && (forall i, j :: 0 <= i < j < |s.stakes| ==> AtMost(s.stakes[i].validatorAddress, s.stakes[j].validatorAddress))
    && multiset(Pos.ReadStakes(s.stakes)) == multiset(a.sentVotes)
    && (forall delegate :: Pos.VotesFor(delegate, Pos.ReadStakes(s.stakes)) == Pos.VotesFor(delegate, a.sentVotes))
    && (forall x :: x in s.stakes ==> x.sharingCoefficients == [Pos.SharingCoefficient(tokenID, [])])
    && |s.pendingUnlocks| == |a.unlocking|
    && forall i :: 0 <= i < |a.unlocking| ==>
      && s.pendingUnlocks[i].validatorAddress == a.unlocking[i].delegateAddress
      && s.pendingUnlocks[i].amount == a.unlocking[i].amount
      && s.pendingUnlocks[i].unstakeHeight == a.unlocking[i].unvoteHeight
  }

  lemma StakerIs(tokenID: Latin1, a: Account)
    ensures match Pos.StakerFor(tokenID)(a)
      case None => a.sentVotes == [] && a.unlocking == []
      case Some(s) => (a.sentVotes != [] || a.unlocking != []) && DescribesStaker(s, a, tokenID)
  {
    Pos.StakesAreVotes(a, tokenID);
    CollectTotal(Pos.UnlockOf, a.unlocking);
  }

  // ----- Which public keys the database carries, and which is filed last -----

  /** The sets the two scans return, for every v3 database. */
  lemma ScannedKeys(db: Database, codec: Codec)
    requires IsV3(db, codec)
    ensures IsKeySet(
      Some(StoredKeys(db, DB_KEY_BLOCKS_ID, codec.generatorPublicKey)), db, "blocks:id", codec.generatorPublicKey)
    ensures IsKeySet(
      Some(StoredKeys(db, DB_KEY_TRANSACTIONS_ID, codec.senderPublicKey)), db, "transactions:id", codec.senderPublicKey)
  {
    V3IsWellFormed(db, codec);
    StoredKeysAreSet(db, DB_KEY_BLOCKS_ID, codec.generatorPublicKey);
    StoredKeysAreSet(db, DB_KEY_TRANSACTIONS_ID, codec.senderPublicKey);
  }

  /** A transaction key of the address that no block carries. */
  ghost predicate FilesTx(db: Database, codec: Codec, address: Bytes, key: Bytes) {
    && CarriedUnder(db, "transactions:id", codec.senderPublicKey, key) && codec.addressOf(key) == address
    && !CarriedUnder(db, "blocks:id", codec.generatorPublicKey, key)
  }

  ghost predicate FilesBlock(db: Database, codec: Codec, address: Bytes, key: Bytes) {
    CarriedUnder(db, "blocks:id", codec.generatorPublicKey, key) && codec.addressOf(key) == address
  }

  /**
   The public key that ends up with a delegate's address: of the transaction keys no block
   carries the one that first occurs last, or else of the block keys the one that does.
  */
  ghost predicate EndsUp(db: Database, codec: Codec, address: Bytes, key: Bytes) {
    if exists t :: FilesTx(db, codec, address, t) then
      && FilesTx(db, codec, address, key)
      && forall l :: FilesTx(db, codec, address, l) && l != key ==>
        OccursFirst(db, "transactions:id", codec.senderPublicKey, l, key)
    else
      && FilesBlock(db, codec, address, key)
      && forall l :: FilesBlock(db, codec, address, l) && l != key ==>
        OccursFirst(db, "blocks:id", codec.generatorPublicKey, l, key)
  }

  function BlockTexts(db: Database, codec: Codec): seq<Latin1> {
    StoredKeys(db, DB_KEY_BLOCKS_ID, codec.generatorPublicKey)
  }

  function TxTexts(db: Database, codec: Codec): seq<Latin1> {
    StoredKeys(db, DB_KEY_TRANSACTIONS_ID, codec.senderPublicKey)
  }

  lemma TextOfKey(db: Database, codec: Codec, key: Bytes)
    requires IsV3(db, codec)
    ensures ToHex(key) in BlockTexts(db, codec) <==> CarriedUnder(db, "blocks:id", codec.generatorPublicKey, key)
    ensures ToHex(key) in TxTexts(db, codec) <==> CarriedUnder(db, "transactions:id", codec.senderPublicKey, key)
  {
    ScannedKeys(db, codec);
    forall k: Bytes | ToHex(k) == ToHex(key) ensures k == key { HexOrder(k, key); }
  }

  lemma FilesTxIs(db: Database, codec: Codec, delegates: set<Latin1>, address: Bytes, key: Bytes)
    requires IsV3(db, codec) && ToHex(address) in delegates
    ensures FilesTx(db, codec, address, key)
      <==> FiledTx(codec.addressOf, delegates, BlockTexts(db, codec), TxTexts(db, codec), ToHex(address), ToHex(key))
  {
    TextOfKey(db, codec, key);
    SlotOfHex(codec.addressOf, key, address);
  }

  /** Every listed text is that of a key. */
  lemma KeyOfText(db: Database, codec: Codec, text: Latin1) returns (key: Bytes)
    requires IsV3(db, codec) && (text in BlockTexts(db, codec) || text in TxTexts(db, codec))
    ensures text == ToHex(key)
  {
    ScannedKeys(db, codec);
    key :| text == ToHex(key);
  }

  lemma SomeTxFiled(db: Database, codec: Codec, delegates: set<Latin1>, address: Bytes)
    requires IsV3(db, codec) && ToHex(address) in delegates
    ensures (exists t :: FilesTx(db, codec, address, t)) <==> exists t ::
      FiledTx(codec.addressOf, delegates, BlockTexts(db, codec), TxTexts(db, codec), ToHex(address), t)
  {
    var blocks, txs := BlockTexts(db, codec), TxTexts(db, codec);
    if t :| FilesTx(db, codec, address, t) { FilesTxIs(db, codec, delegates, address, t); }
    if t :| FiledTx(codec.addressOf, delegates, blocks, txs, ToHex(address), t) {
      var key := KeyOfText(db, codec, t);
      FilesTxIs(db, codec, delegates, address, key);
    }
  }

  lemma LastTxEndsUp(db: Database, codec: Codec, delegates: set<Latin1>, address: Bytes, key: Bytes)
    requires IsV3(db, codec) && ToHex(address) in delegates
    ensures var blocks, txs := BlockTexts(db, codec), TxTexts(db, codec);
      (exists i: nat :: LastTxAt(codec.addressOf, delegates, blocks, txs, ToHex(address), i) && txs[i] == ToHex(key))
        <==> FilesTx(db, codec, address, key) && forall l :: FilesTx(db, codec, address, l) && l != key ==>
          OccursFirst(db, "transactions:id", codec.senderPublicKey, l, key)
  {
    var blocks, txs, slot := BlockTexts(db, codec), TxTexts(db, codec), ToHex(address);
    var all := Range(db, FirstKey(DB_KEY_TRANSACTIONS_ID, ID_LENGTH), LastKey(DB_KEY_TRANSACTIONS_ID, ID_LENGTH));
    var p := (t: Latin1) => FiledTx(codec.addressOf, delegates, blocks, txs, slot, t);
    V3IsWellFormed(db, codec);
    RangeAscending(db, FirstKey(DB_KEY_TRANSACTIONS_ID, ID_LENGTH), LastKey(DB_KEY_TRANSACTIONS_ID, ID_LENGTH));
    LastListedOccursLast(codec.senderPublicKey, all, p, ToHex(key));
    forall i: nat ensures LastTxAt(codec.addressOf, delegates, blocks, txs, slot, i) <==> IsLastWith(txs, p, i) {}
    forall l: Bytes ensures FilesTx(db, codec, address, l) <==> p(ToHex(l)) {
      FilesTxIs(db, codec, delegates, address, l);
    }
    forall l: Bytes
      ensures OccursBefore(codec.senderPublicKey, all, ToHex(l), ToHex(key))
        <==> OccursFirst(db, "transactions:id", codec.senderPublicKey, l, key)
      ensures ToHex(l) == ToHex(key) <==> l == key {
      OccursBeforeIs(db, DB_KEY_TRANSACTIONS_ID, codec.senderPublicKey, l, key);
      HexOrder(l, key);
    }
    forall t | t in txs ensures exists l :: t == ToHex(l) { var l := KeyOfText(db, codec, t); }
  }

  lemma LastBlockEndsUp(db: Database, codec: Codec, address: Bytes, key: Bytes)
    requires IsV3(db, codec)
    ensures var blocks := BlockTexts(db, codec);
      (exists i: nat :: LastBlockAt(codec.addressOf, blocks, ToHex(address), i) && blocks[i] == ToHex(key))
        <==> FilesBlock(db, codec, address, key) && forall l :: FilesBlock(db, codec, address, l) && l != key ==>
          OccursFirst(db, "blocks:id", codec.generatorPublicKey, l, key)
  {
    var blocks, slot := BlockTexts(db, codec), ToHex(address);
    var all := Range(db, FirstKey(DB_KEY_BLOCKS_ID, ID_LENGTH), LastKey(DB_KEY_BLOCKS_ID, ID_LENGTH));
    var p := (t: Latin1) => Slot(codec.addressOf, t) == slot;
    V3IsWellFormed(db, codec);
    RangeAscending(db, FirstKey(DB_KEY_BLOCKS_ID, ID_LENGTH), LastKey(DB_KEY_BLOCKS_ID, ID_LENGTH));
    LastListedOccursLast(codec.generatorPublicKey, all, p, ToHex(key));
    forall i: nat ensures LastBlockAt(codec.addressOf, blocks, slot, i) <==> IsLastWith(blocks, p, i) {}
    forall l: Bytes ensures FilesBlock(db, codec, address, l) <==> ToHex(l) in blocks && p(ToHex(l)) {
      TextOfKey(db, codec, l);
      SlotOfHex(codec.addressOf, l, address);
    }
    forall l: Bytes
      ensures OccursBefore(codec.generatorPublicKey, all, ToHex(l), ToHex(key))
        <==> OccursFirst(db, "blocks:id", codec.generatorPublicKey, l, key)
      ensures ToHex(l) == ToHex(key) <==> l == key {
      OccursBeforeIs(db, DB_KEY_BLOCKS_ID, codec.generatorPublicKey, l, key);
      HexOrder(l, key);
    }
    forall t | t in blocks ensures exists l :: t == ToHex(l) { var l := KeyOfText(db, codec, t); }
  }

  lemma NoLastTx(
      addressOf: Bytes -> Bytes, delegates: set<Latin1>, blocks: seq<Latin1>, txs: seq<Latin1>, slot: Latin1)
    requires forall t :: !FiledTx(addressOf, delegates, blocks, txs, slot, t)
    ensures forall i: nat :: !LastTxAt(addressOf, delegates, blocks, txs, slot, i)
  {
  }

  /** What is filed last, by what is filed at all. */
  lemma FiledLastCases(
      addressOf: Bytes -> Bytes, delegates: set<Latin1>, blocks: seq<Latin1>, txs: seq<Latin1>, slot: Latin1, k: Latin1)
    ensures FiledLast(addressOf, delegates, blocks, txs, slot, k) <==>
      if exists t :: FiledTx(addressOf, delegates, blocks, txs, slot, t)
      then exists i: nat :: LastTxAt(addressOf, delegates, blocks, txs, slot, i) && txs[i] == k
      else exists i: nat :: LastBlockAt(addressOf, blocks, slot, i) && blocks[i] == k
  {
    if forall t :: !FiledTx(addressOf, delegates, blocks, txs, slot, t) {
      NoLastTx(addressOf, delegates, blocks, txs, slot);
    }
  }

  /** The key filed last for a delegate is the one that ends up with it. */
  lemma FiledLastEndsUp(accounts: seq<Account>, db: Database, codec: Codec, a: Account, key: Bytes)
    requires IsV3(db, codec) && a in accounts && IsDelegate(a)
    ensures StoredLast(
        accounts, db, codec.generatorPublicKey, codec.senderPublicKey, codec.addressOf, a.address, key)
      <==> EndsUp(db, codec, a.address, key)
  {
    var delegates := DelegateSet(accounts);
    assert ToHex(a.address) in delegates;
    SomeTxFiled(db, codec, delegates, a.address);
    FiledLastCases(
      codec.addressOf, delegates, BlockTexts(db, codec), TxTexts(db, codec), ToHex(a.address), ToHex(key));
    if exists t :: FilesTx(db, codec, a.address, t) {
      LastTxEndsUp(db, codec, delegates, a.address, key);
    } else {
      LastBlockEndsUp(db, codec, a.address, key);
    }
  }

  function KeyRecord(accounts: seq<Account>, db: Database, codec: Codec): map<Latin1, Latin1> {
    StoredValidatorKeys(accounts, db, codec.generatorPublicKey, codec.senderPublicKey, codec.addressOf)
  }

  /** The generator key: the key that ends up with the address, or 64 letters 'f' if that is unusable. */
  ghost predicate IsGeneratorKey(text: Latin1, db: Database, codec: Codec, address: Bytes) {
    || (exists key :: EndsUp(db, codec, address, key) && Usable(key) && text == ToHex(key))
    || ((forall key :: EndsUp(db, codec, address, key) ==> !Usable(key)) && IsRepeated(text, 'f', 64))
  }

  lemma GeneratorKeyIs(accounts: seq<Account>, db: Database, codec: Codec, a: Account)
    requires IsV3(db, codec) && a in accounts && IsDelegate(a)
    ensures var keys := KeyRecord(accounts, db, codec);
      IsGeneratorKey(GeneratorKey(keys, a.address), db, codec, a.address)
  {
    var keys := KeyRecord(accounts, db, codec);
    V3IsWellFormed(db, codec);
    RealIffStoredLast(accounts, db, codec.generatorPublicKey, codec.senderPublicKey, codec.addressOf, a);
    InvalidKeyText();
    forall key ensures StoredLast(
        accounts, db, codec.generatorPublicKey, codec.senderPublicKey, codec.addressOf, a.address, key)
      <==> EndsUp(db, codec, a.address, key) {
      FiledLastEndsUp(accounts, db, codec, a, key);
    }
    forall key | EndsUp(db, codec, a.address, key) && Usable(key)
      ensures GeneratorKey(keys, a.address) == ToHex(key) {
      UsableText(key);
      FiledLastStays(
        codec.addressOf, DelegateSet(accounts), BlockTexts(db, codec), TxTexts(db, codec), ToHex(a.address),
        ToHex(key));
    }
  }

  // ----- The stores -----

  ghost predicate IsValidatorOf(
      v: Pos.ValidatorEntry, a: Account, db: Database, codec: Codec, snapshotHeight: nat, tokenID: Latin1)
  {
    && a.delegate.username != ""
    && DescribesValidator(v, a, snapshotHeight, tokenID)
    && IsGeneratorKey(v.generatorKey, db, codec, a.address)
  }

  /** Ascending by address: one validator for every stored account with a delegate name, and no others. */
  ghost predicate IsValidatorStore(
      store: seq<Pos.ValidatorEntry>, db: Database, codec: Codec, snapshotHeight: nat, tokenID: Latin1)
  {
    && (forall i, j :: 0 <= i < j < |store| ==> Less(store[i].address, store[j].address))
    && (forall v :: v in store ==>
      exists a :: IsStored(db, codec, a) && IsValidatorOf(v, a, db, codec, snapshotHeight, tokenID))
    && (forall a :: IsStored(db, codec, a) && a.delegate.username != "" ==>
      exists v :: v in store && IsValidatorOf(v, a, db, codec, snapshotHeight, tokenID))
  }

  /** Ascending by address: one entry for every stored account. */
  ghost predicate IsAuthStore(store: seq<Auth.AuthEntry>, db: Database, codec: Codec) {
    && (forall i, j :: 0 <= i < j < |store| ==> Less(store[i].address, store[j].address))
    && (forall e :: e in store ==> exists a :: IsStored(db, codec, a) && DescribesAuth(e, a))
    && (forall a :: IsStored(db, codec, a) ==> exists e :: e in store && DescribesAuth(e, a))
  }

  /** Ascending by address: one entry for every stored account that has voted or is unlocking. */
  ghost predicate IsStakerStore(store: seq<Pos.Staker>, db: Database, codec: Codec, tokenID: Latin1) {
    && (forall i, j :: 0 <= i < j < |store| ==> Less(store[i].address, store[j].address))
    && (forall s :: s in store ==> exists a ::
      IsStored(db, codec, a) && (a.sentVotes != [] || a.unlocking != []) && DescribesStaker(s, a, tokenID))
    && (forall a :: IsStored(db, codec, a) && (a.sentVotes != [] || a.unlocking != []) ==>
      exists s :: s in store && DescribesStaker(s, a, tokenID))
  }

  /** The stored reserve account, if there is one. */
  ghost predicate IsReserveAccount(reserve: Option<Account>, db: Database, codec: Codec) {
    match reserve
    case None => forall a :: IsStored(db, codec, a) ==> a.address != ADDRESS_LEGACY_RESERVE
    case Some(a) => IsStored(db, codec, a) && a.address == ADDRESS_LEGACY_RESERVE
  }

  /** The balance of the reserve account, if it exists, and all unregistered balances. */
  function ReserveTotal(reserve: Option<Account>, unregistered: seq<Legacy.Unregistered>): int {
    (match reserve case None => 0 case Some(a) => a.balance) + Sum((u: Legacy.Unregistered) => u.balance, unregistered)
  }

  ghost predicate IsReserveEntry(
      e: Token.UserEntry, db: Database, codec: Codec, unregistered: seq<Legacy.Unregistered>, tokenID: Latin1)
  {
    exists reserve :: IsReserveAccount(reserve, db, codec)
      && DescribesReserve(e, reserve, ReserveTotal(reserve, unregistered), tokenID)
  }

  /** Ascending by address: one entry for every stored account but the reserve, and one for the reserve. */
  ghost predicate IsUserStore(
      store: seq<Token.UserEntry>, db: Database, codec: Codec, unregistered: seq<Legacy.Unregistered>, tokenID: Latin1)
  {
    && (forall i, j :: 0 <= i < j < |store| ==> Less(store[i].address, store[j].address))
    && (forall e :: e in store ==>
      || IsReserveEntry(e, db, codec, unregistered, tokenID)
      || exists a :: IsStored(db, codec, a) && a.address != ADDRESS_LEGACY_RESERVE && DescribesUser(e, a, tokenID))
    && (forall a :: IsStored(db, codec, a) && a.address != ADDRESS_LEGACY_RESERVE ==>
      exists e :: e in store && DescribesUser(e, a, tokenID))
    && exists e :: e in store && IsReserveEntry(e, db, codec, unregistered, tokenID)
  }

  lemma ValidatorStoreIs(
      store: seq<Pos.ValidatorEntry>, accounts: seq<Account>, db: Database, codec: Codec, snapshotHeight: nat,
      tokenID: Latin1)
    requires IsV3(db, codec) && forall a :: a in accounts <==> IsStored(db, codec, a)
    requires var keys := KeyRecord(accounts, db, codec);
      AscendingStore(store, Pos.ValidatorFor(keys, snapshotHeight, tokenID), ValidatorAddress, accounts)
    ensures IsValidatorStore(store, db, codec, snapshotHeight, tokenID)
  {
    var keys := KeyRecord(accounts, db, codec);
    var f := Pos.ValidatorFor(keys, snapshotHeight, tokenID);
    forall i, j | 0 <= i < j < |store| ensures Less(store[i].address, store[j].address) {
      assert Less(ValidatorAddress(store[i]), ValidatorAddress(store[j]));
    }
    forall a | a in accounts && a.delegate.username != ""
      ensures f(a).Some? && IsValidatorOf(f(a).value, a, db, codec, snapshotHeight, tokenID) {
      ValidatorIs(keys, snapshotHeight, tokenID, a);
      GeneratorKeyIs(accounts, db, codec, a);
    }
    forall a | a in accounts && a.delegate.username == "" ensures f(a) == None {
      ValidatorIs(keys, snapshotHeight, tokenID, a);
    }
  }

  lemma AuthStoreIs(store: seq<Auth.AuthEntry>, accounts: seq<Account>, db: Database, codec: Codec)
    requires forall a :: a in accounts <==> IsStored(db, codec, a)
    requires AscendingStore(store, Auth.EntryOf, AuthAddress, accounts)
    ensures IsAuthStore(store, db, codec)
  {
    forall i, j | 0 <= i < j < |store| ensures Less(store[i].address, store[j].address) {
      assert Less(AuthAddress(store[i]), AuthAddress(store[j]));
    }
    forall a | a in accounts ensures Auth.EntryOf(a).Some? && DescribesAuth(Auth.EntryOf(a).value, a) { AuthIs(a); }
  }

  lemma StakerStoreIs(
      store: seq<Pos.Staker>, accounts: seq<Account>, db: Database, codec: Codec, tokenID: Latin1)
    requires forall a :: a in accounts <==> IsStored(db, codec, a)
    requires AscendingStore(store, Pos.StakerFor(tokenID), StakerAddress, accounts)
    ensures IsStakerStore(store, db, codec, tokenID)
  {
    var f := Pos.StakerFor(tokenID);
    forall i, j | 0 <= i < j < |store| ensures Less(store[i].address, store[j].address) {
      assert Less(StakerAddress(store[i]), StakerAddress(store[j]));
    }
    forall a | a in accounts
      ensures f(a).Some? <==> a.sentVotes != [] || a.unlocking != []
      ensures f(a).Some? ==> DescribesStaker(f(a).value, a, tokenID) {
      StakerIs(tokenID, a);
    }
  }

  lemma UserStoreIs(
      store: seq<Token.UserEntry>, accounts: seq<Account>, db: Database, codec: Codec,
      unregistered: seq<Legacy.Unregistered>, tokenID: Latin1)
    requires forall a :: a in accounts <==> IsStored(db, codec, a)
    requires ExactSubstore(store, accounts, Legacy.ReserveAmount(FindReserve(accounts), unregistered), tokenID)
    ensures IsUserStore(store, db, codec, unregistered, tokenID)
  {
    var f := Token.UserEntryFor(tokenID);
    var reserve := FindReserve(accounts);
    var reserveAmount := Legacy.ReserveAmount(reserve, unregistered);
    var reserveEntry := Token.ReserveEntry(reserve, reserveAmount, tokenID);
    FindReserveMember(accounts);
    ReserveIs(reserve, reserveAmount, tokenID);
    SumCongruent((u: Legacy.Unregistered) => u.balance, Legacy.UnregisteredBalance, unregistered);
    assert IsReserveAccount(reserve, db, codec);
    assert IsReserveEntry(reserveEntry, db, codec, unregistered, tokenID);
    forall a | a in accounts
      ensures f(a).Some? <==> a.address != ADDRESS_LEGACY_RESERVE
      ensures f(a).Some? ==> DescribesUser(f(a).value, a, tokenID) {
      UserIs(tokenID, a);
    }
    assert reserveEntry in store;
  }

  lemma SnapshotIs(db: Database, codec: Codec)
    requires IsV3(db, codec)
    ensures DistinctAddresses(SnapshotAccounts(db, codec.account))
    ensures forall a :: a in SnapshotAccounts(db, codec.account) <==> IsStored(db, codec, a)
  {
    V3IsWellFormed(db, codec);
    SnapshotDistinct(db, codec.account);
    forall a ensures a in SnapshotAccounts(db, codec.account) <==> IsStored(db, codec, a) {
      SnapshotIsStored(db, codec, a);
    }
  }

  lemma CreatedIsBuild(
      db: Database, codec: Codec, supplyOnEntry: nat, snapshotHeight: nat, tokenID: Latin1, encoded: Bytes)
    requires Ascending(db) && StoredAt(db, CHAIN, Units(UNREGISTERED), encoded)
    requires InitSpec(db, codec, supplyOnEntry, snapshotHeight, tokenID).Created?
    ensures var assets := InitSpec(db, codec, supplyOnEntry, snapshotHeight, tokenID).assets;
      var accounts := SnapshotAccounts(db, codec.account);
      assets == Build(
        accounts, codec.unregistered(encoded),
        KeyRecord(accounts, db, codec),
        assets.genesis, snapshotHeight, tokenID, supplyOnEntry)
  {
    ChainStateReads(db, UNREGISTERED);
    assert UNREGISTERED_KEY == ChainStateKey(UNREGISTERED);
  }

  lemma ContentsOfBuild(
      accounts: seq<Account>, unregistered: seq<Legacy.Unregistered>, db: Database, codec: Codec,
      genesis: Pos.GenesisData, supplyOnEntry: nat, snapshotHeight: nat, tokenID: Latin1)
    requires IsV3(db, codec) && DistinctAddresses(accounts) && forall a :: a in accounts <==> IsStored(db, codec, a)
    ensures var keys := KeyRecord(accounts, db, codec);
      var assets := Build(accounts, unregistered, keys, genesis, snapshotHeight, tokenID, supplyOnEntry);
      && Legacy.IsStoreOf(assets.legacy, unregistered)
      && IsAuthStore(assets.auth, db, codec)
      && IsUserStore(assets.userSubstore, db, codec, unregistered, tokenID)
      && IsValidatorStore(assets.validators, db, codec, snapshotHeight, tokenID)
      && IsStakerStore(assets.stakers, db, codec, tokenID)
      && IsAmount(assets.totalSupply, supplyOnEntry + SubstoreTotal(assets.userSubstore))
  {
    var keys := KeyRecord(accounts, db, codec);
    var assets := Build(accounts, unregistered, keys, genesis, snapshotHeight, tokenID, supplyOnEntry);
    Legacy.EntriesAre(unregistered);
    BuildStoresExact(accounts, unregistered, keys, genesis, snapshotHeight, tokenID, supplyOnEntry);
    AuthStoreIs(assets.auth, accounts, db, codec);
    UserStoreIs(assets.userSubstore, accounts, db, codec, unregistered, tokenID);
    ValidatorStoreIs(assets.validators, accounts, db, codec, snapshotHeight, tokenID);
    StakerStoreIs(assets.stakers, accounts, db, codec, tokenID);
    SupplyConserved(accounts, unregistered, keys, genesis, snapshotHeight, tokenID, supplyOnEntry);
    HoldingsNotNegative(accounts);
    PrintIsNumeral(supplyOnEntry + Sum(Holdings, accounts) + Legacy.ReserveAmount(FindReserve(accounts), unregistered));
  }

  /**
   All stores of the created assets, from the database: what is in them, field by field, in
   which order, and that nothing else is. The supply is printed as a numeral.
  */
  lemma CreatedContents(
      db: Database, codec: Codec, supplyOnEntry: nat, snapshotHeight: nat, tokenID: Latin1, encoded: Bytes)
    requires IsV3(db, codec) && StoredAt(db, CHAIN, Units(UNREGISTERED), encoded)
    ensures match InitSpec(db, codec, supplyOnEntry, snapshotHeight, tokenID)
      case Failed(_) => forall v, i: nat :: !Decides(db, codec, snapshotHeight, v, i)
      case Created(assets) =>
        && Legacy.IsStoreOf(assets.legacy, codec.unregistered(encoded))
        && IsAuthStore(assets.auth, db, codec)
        && IsUserStore(assets.userSubstore, db, codec, codec.unregistered(encoded), tokenID)
        && IsValidatorStore(assets.validators, db, codec, snapshotHeight, tokenID)
        && IsStakerStore(assets.stakers, db, codec, tokenID)
        && IsAmount(assets.totalSupply, supplyOnEntry + SubstoreTotal(assets.userSubstore))
  {
    InitSucceedsIff(db, codec, supplyOnEntry, snapshotHeight, tokenID);
    match InitSpec(db, codec, supplyOnEntry, snapshotHeight, tokenID)
    case Failed(_) =>
    case Created(assets) =>
      CreatedIsBuild(db, codec, supplyOnEntry, snapshotHeight, tokenID, encoded);
      SnapshotIs(db, codec);
      ContentsOfBuild(
        SnapshotAccounts(db, codec.account), codec.unregistered(encoded), db, codec, assets.genesis, supplyOnEntry,
        snapshotHeight, tokenID);
  }
}
