/** `CreateAsset.init`: from the database to the genesis assets (src/createAsset.ts). */
module CreateAsset {
  import opened ByteStrings
  import opened Sequences
  import opened Store
  import opened KeyEncoding
  import opened EventLoop
  import opened Decimal
  import opened Accounts
  import opened ValidatorKeys
  import opened PagedScan
  import opened BlockIndex
  import Auth
  import Token
  import Legacy
  import Pos

  datatype Assets = Assets(
    legacy: seq<Legacy.LegacyEntry>, auth: seq<Auth.AuthEntry>, userSubstore: seq<Token.UserEntry>,
    totalSupply: Decimal, validators: seq<Pos.ValidatorEntry>, stakers: seq<Pos.Staker>, genesis: Pos.GenesisData)

  // ----- What is built -----

  /** What one account adds to the supply. */
  function Holdings(a: Account): int {
    a.balance + Token.Locked(a)
  }

  lemma {:induction false} HoldingsNotNegative(accounts: seq<Account>)
    ensures Sum(Holdings, accounts) >= 0
  {
    if accounts == [] {
    } else {
      HoldingsNotNegative(accounts[1..]);
    }
  }

  function UserEntries(accounts: seq<Account>, reserveAmount: nat, tokenID: Latin1): seq<Token.UserEntry> {
    Collect(Token.UserEntryFor(tokenID), accounts) + [Token.ReserveEntry(FindReserve(accounts), reserveAmount, tokenID)]
  }

  predicate AuthAtMost(a: Auth.AuthEntry, b: Auth.AuthEntry) {
    AtMost(a.address, b.address)
  }

  predicate ValidatorAtMost(a: Pos.ValidatorEntry, b: Pos.ValidatorEntry) {
    AtMost(a.address, b.address)
  }

  predicate StakerAtMost(a: Pos.Staker, b: Pos.Staker) {
    AtMost(a.address, b.address)
  }

  /** Sort the filled stores and add the reserve to the substore and to the supply. */
  function Assemble(
      legacy: seq<Legacy.LegacyEntry>, auth: seq<Auth.AuthEntry>, users: seq<Token.UserEntry>,
      reserveEntry: Token.UserEntry, supply: nat, reserveAmount: nat,
      validators: seq<Pos.ValidatorEntry>, stakers: seq<Pos.Staker>, genesis: Pos.GenesisData): Assets
  {
    Assets(
      legacy, Sort(AuthAtMost, auth), Sort(Token.UserAtMost, users + [reserveEntry]), Print(supply + reserveAmount),
      Sort(ValidatorAtMost, validators), Sort(StakerAtMost, stakers), genesis)
  }

  /** The assets as a function of the decoded state; `supplyOnEntry` is `totalLSKSupply` at the call. */
  function Build(
      accounts: seq<Account>, unregistered: seq<Legacy.Unregistered>, keys: map<Latin1, Latin1>,
      genesis: Pos.GenesisData, snapshotHeight: nat, tokenID: Latin1, supplyOnEntry: nat): Assets
  {
    var reserveAmount := Legacy.ReserveAmount(FindReserve(accounts), unregistered);
    HoldingsNotNegative(accounts);
    Assemble(
      Legacy.Entries(unregistered),
      Collect(Auth.EntryOf, accounts),
      Collect(Token.UserEntryFor(tokenID), accounts),
      Token.ReserveEntry(FindReserve(accounts), reserveAmount, tokenID),
      supplyOnEntry + Sum(Holdings, accounts),
      reserveAmount,
      Collect(Pos.ValidatorFor(keys, snapshotHeight, tokenID), accounts),
      Collect(Pos.StakerFor(tokenID), accounts),
      genesis)
  }

  // ----- Reading the database -----

  /** Vote weights as decoded. */
  type VoteRound = Pos.VoteWeight<Bytes>

  /** The decoders and hash functions of the libraries, which are not modelled. */
  datatype Codec = Codec(
    account: Bytes -> Account,
    unregistered: Bytes -> seq<Legacy.Unregistered>,
    voteWeights: Bytes -> seq<VoteRound>,
    generatorPublicKey: Bytes -> Bytes,
    senderPublicKey: Bytes -> Bytes,
    addressOf: Bytes -> Bytes)

  const DB_KEY_CHAIN_STATE: Latin1 := "chain"
  const CHAIN_STATE_UNREGISTERED_ADDRESSES: Latin1 := "unregisteredAddresses"
  const CHAIN_STATE_DELEGATE_VOTE_WEIGHTS: Latin1 := "dpos:delegateVoteWeights"

  function ChainStateKey(name: Latin1): Bytes {
    BufferFrom(DB_KEY_CHAIN_STATE + ":" + name)
  }

  const UNREGISTERED_KEY: Bytes := ChainStateKey(CHAIN_STATE_UNREGISTERED_ADDRESSES)
  const VOTE_WEIGHTS_KEY: Bytes := ChainStateKey(CHAIN_STATE_DELEGATE_VOTE_WEIGHTS)

  function PushDecoded(decode: Bytes -> Account): (seq<Account>, Record) -> seq<Account> {
    (s: seq<Account>, r: Record) => s + [decode(r.value)]
  }

  function FullAddress(a: Account): Option<Account> {
    if |a.address| == BINARY_ADDRESS_LENGTH then Some(a) else None
  }

  /** The accounts of the snapshot: the account range, without addresses of other lengths. */
  function SnapshotAccounts(db: Database, decode: Bytes -> Account): seq<Account> {
    Collect(FullAddress, Fold(PushDecoded(decode), [], AccountRange(db)))
  }

  // ----- Buffers: each decoded address is an object of its own -----

  function BanRecords(accounts: seq<Account>): seq<Pos.BanRecord> {
    seq(|accounts|, i requires 0 <= i < |accounts| =>
      Pos.BanRecord(Pos.Buffer(i, accounts[i].address), accounts[i].delegate.isBanned))
  }

  function FreshBuffers(base: nat, addresses: seq<Bytes>): seq<Pos.Buffer> {
    seq(|addresses|, i requires 0 <= i < |addresses| => Pos.Buffer(base + i, addresses[i]))
  }

  function FreshRounds(base: nat, rounds: seq<VoteRound>): seq<Pos.VoteWeight<Pos.Buffer>>
    decreases |rounds|
  {
    if rounds == [] then []
    else
      var first := Pos.VoteWeight(rounds[0].round, FreshBuffers(base, rounds[0].delegates));
      [first] + FreshRounds(base + |rounds[0].delegates|, rounds[1..])
  }

  /** The genesis data of the PoS module; no account enters into it. */
  function FreshGenesis(rounds: seq<VoteRound>, snapshotHeight: int): Pos.GenesisResult {
    var round := Pos.Ceiling(snapshotHeight, Pos.ROUND_LENGTH) - 2;
    match Pos.FindRound(rounds, round)
    case None => Pos.NoVoteWeights(round)
    case Some(w) =>
      if w.delegates == [] then Pos.NoVoteWeights(round)
      else Pos.Genesis(Pos.GenesisData(Pos.POS_INIT_ROUNDS,
        Sort(BytesAtMost, Take(w.delegates, Pos.NUMBER_ACTIVE_VALIDATORS))))
  }

  lemma {:induction false} FreshRoundFound(base: nat, rounds: seq<VoteRound>, round: int) returns (b: nat)
    ensures b >= base
    ensures Pos.FindRound(FreshRounds(base, rounds), round) == match Pos.FindRound(rounds, round)
      case None => None
      case Some(w) => Some(Pos.VoteWeight(round, FreshBuffers(b, w.delegates)))
    decreases |rounds|
  {
    b := base;
    if rounds == [] {
    } else {
      var next := base + |rounds[0].delegates|;
      assert FreshRounds(base, rounds)[1..] == FreshRounds(next, rounds[1..]);
      if rounds[0].round != round {
        b := FreshRoundFound(next, rounds[1..], round);
      }
    }
  }

  /** The ban lookup compares objects decoded from different records, so it never finds any. */
  lemma GenesisIgnoresAccounts(accounts: seq<Account>, rounds: seq<VoteRound>, snapshotHeight: int)
    ensures Pos.GenesisOf(Pos.ByIdentity, BanRecords(accounts), FreshRounds(|accounts|, rounds), snapshotHeight)
      == FreshGenesis(rounds, snapshotHeight)
  {
    var round := Pos.Ceiling(snapshotHeight, Pos.ROUND_LENGTH) - 2;
    var b := FreshRoundFound(|accounts|, rounds, round);
    match Pos.FindRound(rounds, round)
    case None =>
    case Some(w) =>
      var delegates := FreshBuffers(b, w.delegates);
      assert delegates == [] <==> w.delegates == [];
      Pos.IdentitySelectsAll(BanRecords(accounts), delegates);
      assert Collect(Pos.BytesOf, delegates) == w.delegates;
  }

  // ----- The whole of `init` -----

  datatype InitError = MissingRecord | KeyOverflow | NoVoteWeights(round: int)

  datatype InitResult = Created(assets: Assets) | Failed(error: InitError)

  /** What `init` returns when it has filed these validator keys. */
  function InitWith(
      db: Database, codec: Codec, keys: map<Latin1, Latin1>, supplyOnEntry: nat, snapshotHeight: nat,
      tokenID: Latin1): InitResult
  {
    match Get(db, UNREGISTERED_KEY)
    case None => Failed(MissingRecord)
    case Some(unregistered) =>
      match Get(db, VOTE_WEIGHTS_KEY)
      case None => Failed(MissingRecord)
      case Some(voteWeights) =>
        match FreshGenesis(codec.voteWeights(voteWeights), snapshotHeight)
        case NoVoteWeights(round) => Failed(NoVoteWeights(round))
        case Genesis(genesis) =>
          Created(Build(
            SnapshotAccounts(db, codec.account), codec.unregistered(unregistered), keys, genesis, snapshotHeight,
            tokenID, supplyOnEntry))
  }

  /** What `init` returns, for every page size and schedule. */
  function InitSpec(db: Database, codec: Codec, supplyOnEntry: nat, snapshotHeight: nat, tokenID: Latin1): InitResult {
    var accounts := SnapshotAccounts(db, codec.account);
    var keys := StoredValidatorKeys(accounts, db, codec.generatorPublicKey, codec.senderPublicKey, codec.addressOf);
    InitWith(db, codec, keys, supplyOnEntry, snapshotHeight, tokenID)
  }

  /** The module variables: they outlive a call of `init`. */
  class ModuleState {
    var totalLSKSupply: nat
    const legacy: Legacy.LegacyModule

    constructor ()
      ensures totalLSKSupply == 0 && fresh(legacy)
    {
      totalLSKSupply := 0;
      legacy := new Legacy.LegacyModule();
    }
  }

  /** The stores that the loop over the accounts fills. */
  class Stores {
    var auth: seq<Auth.AuthEntry>
    var users: seq<Token.UserEntry>
    var validators: seq<Pos.ValidatorEntry>
    var stakers: seq<Pos.Staker>

    constructor ()
      ensures auth == [] && users == [] && validators == [] && stakers == []
    {
      auth, users, validators, stakers := [], [], [], [];
    }

    /** The stores hold the entries of these accounts. */
    ghost predicate Holds(accounts: seq<Account>, keys: map<Latin1, Latin1>, snapshotHeight: nat, tokenID: Latin1)
      reads this
    {
      && auth == Collect(Auth.EntryOf, accounts)
      && users == Collect(Token.UserEntryFor(tokenID), accounts)
      && validators == Collect(Pos.ValidatorFor(keys, snapshotHeight, tokenID), accounts)
      && stakers == Collect(Pos.StakerFor(tokenID), accounts)
    }

    /** The loop body but for the supply. */
    method AddAccount(
        ghost before: seq<Account>, account: Account, keys: map<Latin1, Latin1>, snapshotHeight: nat, tokenID: Latin1)
      requires Holds(before, keys, snapshotHeight, tokenID)
      modifies this
      ensures Holds(before + [account], keys, snapshotHeight, tokenID)
    {
      CollectPush(Auth.EntryOf, before, account);
      CollectPush(Token.UserEntryFor(tokenID), before, account);
      CollectPush(Pos.ValidatorFor(keys, snapshotHeight, tokenID), before, account);
      CollectPush(Pos.StakerFor(tokenID), before, account);
      var accountKeys := new Auth.AccountKeys(account);
      var authEntry := Auth.GetAuthModuleEntryBuffer(account, accountKeys);
      var userEntry := Token.CreateUserSubstoreArrayEntry(account, tokenID);
      auth := Push(auth, Some(authEntry));
      users := Push(users, userEntry);
      validators := Push(validators, Pos.ValidatorFor(keys, snapshotHeight, tokenID)(account));
      stakers := Push(stakers, Pos.StakerFor(tokenID)(account));
    }
  }

  ghost predicate WellFormed(db: Database) {
    WellKeyed(db, DB_KEY_BLOCKS_ID, ID_LENGTH) && WellKeyed(db, DB_KEY_TRANSACTIONS_ID, ID_LENGTH)
  }

  lemma HoldingsOfNext(before: seq<Account>, a: Account)
    ensures Sum(Token.LockedValue, Token.LockedBalances(a)) >= 0
    ensures Sum(Holdings, before + [a])
      == Sum(Holdings, before) + a.balance + Sum(Token.LockedValue, Token.LockedBalances(a))
  {
    SumAppend(Holdings, before, [a]);
    SumOne(Holdings, a);
    Token.LockedBalancesValue(a);
  }

  /** Fill the stores and count up the supply, account by account. */
  method AddAccounts(
      state: ModuleState, accounts: seq<Account>, keys: map<Latin1, Latin1>, snapshotHeight: nat, tokenID: Latin1)
    returns (stores: Stores)
    modifies state`totalLSKSupply
    ensures fresh(stores) && stores.Holds(accounts, keys, snapshotHeight, tokenID)
    ensures state.totalLSKSupply == old(state.totalLSKSupply) + Sum(Holdings, accounts)
  {
    stores := new Stores();
    for i := 0 to |accounts|
      invariant fresh(stores) && stores.Holds(accounts[..i], keys, snapshotHeight, tokenID)
      invariant state.totalLSKSupply == old(state.totalLSKSupply) + Sum(Holdings, accounts[..i])
    {
      var account := accounts[i];
      assert accounts[..i + 1] == accounts[..i] + [account];
      HoldingsOfNext(accounts[..i], account);
      stores.AddAccount(accounts[..i], account, keys, snapshotHeight, tokenID);
      var lockedBalances := Token.GetLockedBalances(account);
      state.totalLSKSupply := state.totalLSKSupply + account.balance + Sum(Token.LockedValue, lockedBalances);
    }
    assert accounts[..|accounts|] == accounts;
  }

  /** Read the account stream and drop addresses of other lengths. */
  method ReadAccounts(db: Database, decode: Bytes -> Account, schedule: seq<Step>) returns (accounts: seq<Account>)
    ensures accounts == SnapshotAccounts(db, decode)
  {
    var collector := new PageCollector(PushDecoded(decode), AccountRange(db), [], []);
    collector.Await(schedule);
    accounts := Collect(FullAddress, collector.output);
  }

  /** The genesis data, from freshly decoded vote weights. */
  method ReadGenesis(db: Database, codec: Codec, accounts: seq<Account>, snapshotHeight: nat)
    returns (r: Option<Pos.GenesisResult>)
    ensures r == match Get(db, VOTE_WEIGHTS_KEY)
      case None => None
      case Some(voteWeights) => Some(FreshGenesis(codec.voteWeights(voteWeights), snapshotHeight))
  {
    var encodedVoteWeights := Get(db, VOTE_WEIGHTS_KEY);
    if encodedVoteWeights == None { return None; }
    var rounds := codec.voteWeights(encodedVoteWeights.value);
    var genesis := Pos.CreateGenesisDataObj(
      Pos.ByIdentity, BanRecords(accounts), FreshRounds(|accounts|, rounds), snapshotHeight);
    GenesisIgnoresAccounts(accounts, rounds, snapshotHeight);
    return Some(genesis);
  }

  /** Everything but the genesis data, which is filled in last. */
  method BuildStores(
      state: ModuleState, accounts: seq<Account>, ghost unregistered: seq<Legacy.Unregistered>,
      legacyEntries: seq<Legacy.LegacyEntry>, reserveEntry: Token.UserEntry,
      keys: map<Latin1, Latin1>, snapshotHeight: nat, tokenID: Latin1)
    returns (assets: Assets)
    requires legacyEntries == Legacy.Entries(unregistered)
    requires state.legacy.legacyReserveAmount == Legacy.ReserveAmount(FindReserve(accounts), unregistered)
    requires reserveEntry == Token.ReserveEntry(FindReserve(accounts), state.legacy.legacyReserveAmount, tokenID)
    modifies state`totalLSKSupply
    ensures assets == Build(
      accounts, unregistered, keys, assets.genesis, snapshotHeight, tokenID, old(state.totalLSKSupply))
    ensures state.totalLSKSupply == old(state.totalLSKSupply) + Sum(Holdings, accounts)
  {
    var stores := AddAccounts(state, accounts, keys, snapshotHeight, tokenID);
    assets := Assemble(
      legacyEntries, stores.auth, stores.users, reserveEntry, state.totalLSKSupply, state.legacy.legacyReserveAmount,
      stores.validators, stores.stakers, Pos.GenesisData(Pos.POS_INIT_ROUNDS, []));
  }

  /**
   `init`. The result is a function of the database, the entry value of `totalLSKSupply` and
   the arguments: neither the page size nor the order of events and jobs shows in it. The
   supply counter keeps what this call added, also when the call fails afterwards.
  */
  method Init(
      db: Database, codec: Codec, state: ModuleState, snapshotHeight: nat, tokenID: Latin1,
      pageSize: nat, schedules: Schedules)
    returns (r: InitResult)
    requires Ascending(db)
    modifies state`totalLSKSupply, state.legacy
    ensures WellFormed(db) && pageSize >= 1 ==>
      r == InitSpec(db, codec, old(state.totalLSKSupply), snapshotHeight, tokenID)
    ensures pageSize == 0 ==>
      r == InitWith(db, codec, map[], old(state.totalLSKSupply), snapshotHeight, tokenID)
    ensures r != Failed(KeyOverflow) ==>
      state.totalLSKSupply == old(state.totalLSKSupply)
        + if Get(db, UNREGISTERED_KEY) == None then 0 else Sum(Holdings, SnapshotAccounts(db, codec.account))
  {
    var encodedUnregistered := Get(db, UNREGISTERED_KEY);
    if encodedUnregistered == None { return Failed(MissingRecord); }
    var unregistered := codec.unregistered(encodedUnregistered.value);
    var accounts := ReadAccounts(db, codec.account, schedules.accounts);
    var reserve := FindReserve(accounts);
    var legacyEntries := state.legacy.GetLegacyModuleEntry(unregistered, reserve);
    var reserveEntry := Token.CreateLegacyReserveAccount(reserve, state.legacy.legacyReserveAmount, tokenID);
    var keys := GetValidatorKeys(
      accounts, db, pageSize, codec.generatorPublicKey, codec.senderPublicKey, codec.addressOf, schedules);
    if keys == None { return Failed(KeyOverflow); }
    var assets := BuildStores(
      state, accounts, unregistered, legacyEntries, reserveEntry, keys.value, snapshotHeight, tokenID);
    var genesis := ReadGenesis(db, codec, accounts, snapshotHeight);
    match genesis
    case None => return Failed(MissingRecord);
    case Some(NoVoteWeights(round)) => return Failed(NoVoteWeights(round));
    case Some(Genesis(data)) => return Created(assets.(genesis := data));
  }
}
