/**
 What holds of the assets as a whole: conservation of supply, agreement between the token
 and PoS stores, the shape of the user substore, and independence of enumeration order.
*/
module GenesisProperties {
  import opened ByteStrings
  import opened Sequences
  import opened Store
  import opened KeyEncoding
  import opened EventLoop
  import opened Decimal
  import opened Accounts
  import opened ValidatorKeys
  import opened PagedScan
  import opened BlockIndex
  import opened CreateAsset
  import Auth
  import Token
  import Legacy
  import Pos

  // ----- Reserve and other accounts -----

  function ReserveHoldings(a: Account): int {
    if IsReserve(a) then Holdings(a) else 0
  }

  function OtherHoldings(a: Account): int {
    if IsReserve(a) then 0 else Holdings(a)
  }

  lemma {:induction false} SplitHoldings(accounts: seq<Account>)
    ensures Sum(Holdings, accounts) == Sum(OtherHoldings, accounts) + Sum(ReserveHoldings, accounts)
  {
    if accounts == [] {
    } else {
      SplitHoldings(accounts[1..]);
    }
  }

  /** At most one account is the reserve. */
  lemma {:induction false} SumOverReserve(f: Account -> int, accounts: seq<Account>)
    requires DistinctAddresses(accounts) && forall a :: a in accounts && !IsReserve(a) ==> f(a) == 0
    ensures Sum(f, accounts) == match FindReserve(accounts) case None => 0 case Some(a) => f(a)
  {
    if accounts == [] {
    } else {
      SumOverReserve(f, accounts[1..]);
      FindReserveMember(accounts[1..]);
    }
  }

  /** A sum over the user substore: the other accounts' entries and the reserve entry. */
  lemma SumOverSubstore(g: Token.UserEntry -> int, accounts: seq<Account>, reserveAmount: nat, tokenID: Latin1)
    ensures Sum(g, Sort(Token.UserAtMost, UserEntries(accounts, reserveAmount, tokenID)))
      == Sum(g, Collect(Token.UserEntryFor(tokenID), accounts))
        + g(Token.ReserveEntry(FindReserve(accounts), reserveAmount, tokenID))
  {
    var entries := UserEntries(accounts, reserveAmount, tokenID);
    var reserve := Token.ReserveEntry(FindReserve(accounts), reserveAmount, tokenID);
    Token.UserOrder();
    SortSorts(Token.UserAtMost, entries);
    SumPermutation(g, Sort(Token.UserAtMost, entries), entries);
    SumAppend(g, Collect(Token.UserEntryFor(tokenID), accounts), [reserve]);
    SumOne(g, reserve);
  }

  // ----- Supply -----

  /** Everything the user substore holds, read back from its decimal texts. */
  function SubstoreTotal(substore: seq<Token.UserEntry>): int {
    Sum(Token.EntryTotal, substore)
  }

  lemma OthersTotal(accounts: seq<Account>, tokenID: Latin1)
    ensures Sum(Token.EntryTotal, Collect(Token.UserEntryFor(tokenID), accounts)) == Sum(OtherHoldings, accounts)
  {
    forall a | a in accounts && !IsReserve(a)
      ensures Token.EntryTotal(Token.UserEntryFor(tokenID)(a).value) == OtherHoldings(a) {
      Token.UserEntryTotal(a, tokenID);
    }
    SumCollect(Token.UserEntryFor(tokenID), Token.EntryTotal, OtherHoldings, accounts);
  }

  lemma SubstoreHoldsEverything(accounts: seq<Account>, reserveAmount: nat, tokenID: Latin1)
    requires DistinctAddresses(accounts)
    ensures SubstoreTotal(Sort(Token.UserAtMost, UserEntries(accounts, reserveAmount, tokenID)))
      == Sum(Holdings, accounts) + reserveAmount
  {
    SumOverSubstore(Token.EntryTotal, accounts, reserveAmount, tokenID);
    OthersTotal(accounts, tokenID);
    Token.ReserveEntryTotal(FindReserve(accounts), reserveAmount, tokenID);
    SplitHoldings(accounts);
    SumOverReserve(ReserveHoldings, accounts);
    FindReserveMember(accounts);
  }

  /** Everything that exists in the v3 state. */
  function V3Total(accounts: seq<Account>, unregistered: seq<Legacy.Unregistered>): int {
    Sum(Holdings, accounts) + Sum(Legacy.UnregisteredBalance, unregistered)
  }

  /**
   Supply against the substore and against the v3 state. The emitted supply equals what the
   user substore holds exactly when the counter entered the call at 0. It then exceeds the v3
   total by the reserve account's balance, which counts both as a balance and as reserve.
  */
  lemma SupplyConserved(
      accounts: seq<Account>, unregistered: seq<Legacy.Unregistered>, keys: map<Latin1, Latin1>,
      genesis: Pos.GenesisData, snapshotHeight: nat, tokenID: Latin1, supplyOnEntry: nat)
    requires DistinctAddresses(accounts)
    ensures var assets := Build(accounts, unregistered, keys, genesis, snapshotHeight, tokenID, supplyOnEntry);
      && (Parse(assets.totalSupply) == SubstoreTotal(assets.userSubstore) <==> supplyOnEntry == 0)
      && Parse(assets.totalSupply) == supplyOnEntry + SubstoreTotal(assets.userSubstore)
      && SubstoreTotal(assets.userSubstore)
        == V3Total(accounts, unregistered) + Token.ReserveBalance(FindReserve(accounts))
  {
    var reserveAmount := Legacy.ReserveAmount(FindReserve(accounts), unregistered);
    HoldingsNotNegative(accounts);
    PrintParse(supplyOnEntry + Sum(Holdings, accounts) + reserveAmount);
    SubstoreHoldsEverything(accounts, reserveAmount, tokenID);
  }

  // ----- Token and PoS agree -----

  /** The staker entry of an address. */
  function FindStaker(stakers: seq<Pos.Staker>, address: Bytes): Option<Pos.Staker> {
    if stakers == [] then None
    else if stakers[0].address == address then Some(stakers[0])
    else FindStaker(stakers[1..], address)
  }

  lemma {:induction false} FindStakerMember(stakers: seq<Pos.Staker>, address: Bytes)
    ensures match FindStaker(stakers, address)
      case None => forall s :: s in stakers ==> s.address != address
      case Some(s) => s in stakers && s.address == address
  {
    if stakers == [] {
    } else {
      FindStakerMember(stakers[1..], address);
      assert stakers == [stakers[0]] + stakers[1..];
    }
  }

  function SortedStakers(accounts: seq<Account>, tokenID: Latin1): seq<Pos.Staker> {
    Sort(StakerAtMost, Collect(Pos.StakerFor(tokenID), accounts))
  }

  /** Looking up an account's address finds that account's staker entry, if it has one. */
  lemma StakerOfAccount(accounts: seq<Account>, tokenID: Latin1, a: Account)
    requires DistinctAddresses(accounts) && a in accounts
    ensures FindStaker(SortedStakers(accounts, tokenID), a.address) == Pos.StakerFor(tokenID)(a)
  {
    var f := Pos.StakerFor(tokenID);
    var stakers := SortedStakers(accounts, tokenID);
    FindStakerMember(stakers, a.address);
    match FindStaker(stakers, a.address)
    case Some(s) =>
      SortMember(StakerAtMost, Collect(f, accounts), s);
      CollectMember(f, accounts, s);
      var b :| b in accounts && f(b) == Some(s);
      SameAddressSameAccount(accounts, a, b);
    case None =>
      if f(a).Some? {
        CollectMember(f, accounts, f(a).value);
        SortMember(StakerAtMost, Collect(f, accounts), f(a).value);
      }
  }

  /** No account, no staker. */
  lemma NoStakerOfReserve(accounts: seq<Account>, tokenID: Latin1)
    requires FindReserve(accounts) == None
    ensures FindStaker(SortedStakers(accounts, tokenID), ADDRESS_LEGACY_RESERVE) == None
  {
    var f := Pos.StakerFor(tokenID);
    FindReserveMember(accounts);
    FindStakerMember(SortedStakers(accounts, tokenID), ADDRESS_LEGACY_RESERVE);
    if s :| FindStaker(SortedStakers(accounts, tokenID), ADDRESS_LEGACY_RESERVE) == Some(s) {
      SortMember(StakerAtMost, Collect(f, accounts), s);
      CollectMember(f, accounts, s);
    }
  }

  /** Per account: what the token store has locked for PoS is what the staker entry holds. */
  lemma LockedIsStaked(accounts: seq<Account>, reserveAmount: nat, tokenID: Latin1, e: Token.UserEntry)
    requires DistinctAddresses(accounts)
    requires e in Sort(Token.UserAtMost, UserEntries(accounts, reserveAmount, tokenID))
    ensures Token.LockedFor(Token.Pos, e.lockedBalances)
      == Pos.StakerTotal(FindStaker(SortedStakers(accounts, tokenID), e.address))
  {
    var others := Collect(Token.UserEntryFor(tokenID), accounts);
    SortMember(Token.UserAtMost, UserEntries(accounts, reserveAmount, tokenID), e);
    if e in others {
      CollectMember(Token.UserEntryFor(tokenID), accounts, e);
      var a :| a in accounts && Token.UserEntryFor(tokenID)(a) == Some(e);
      StakerOfAccount(accounts, tokenID, a);
      Pos.StakerTotalIsLocked(a, tokenID);
    } else {
      Token.ReserveEntryTotal(FindReserve(accounts), reserveAmount, tokenID);
      FindReserveMember(accounts);
      match FindReserve(accounts)
      case None => NoStakerOfReserve(accounts, tokenID);
      case Some(a) =>
        StakerOfAccount(accounts, tokenID, a);
        Pos.StakerTotalIsLocked(a, tokenID);
    }
  }

  function PosLocked(e: Token.UserEntry): int {
    Token.LockedFor(Token.Pos, e.lockedBalances)
  }

  function Staked(s: Pos.Staker): int {
    Pos.StakerTotal(Some(s))
  }

  function OtherLocked(a: Account): int {
    if IsReserve(a) then 0 else Token.Locked(a)
  }

  function ReserveLocked(a: Account): int {
    if IsReserve(a) then Token.Locked(a) else 0
  }

  function AccountLocked(a: Account): int {
    Token.Locked(a)
  }

  lemma {:induction false} SplitLocked(accounts: seq<Account>)
    ensures Sum(AccountLocked, accounts) == Sum(OtherLocked, accounts) + Sum(ReserveLocked, accounts)
  {
    if accounts == [] {
    } else {
      SplitLocked(accounts[1..]);
    }
  }

  lemma StakerSort()
    ensures TotalPreorder(StakerAtMost)
  {
    forall a: Pos.Staker, b: Pos.Staker ensures StakerAtMost(a, b) || StakerAtMost(b, a) {
      LessTotal(a.address, b.address);
    }
    forall a: Pos.Staker, b: Pos.Staker, c: Pos.Staker | StakerAtMost(a, b) && StakerAtMost(b, c)
      ensures StakerAtMost(a, c) {
      AtMostTransitive(a.address, b.address, c.address);
    }
  }

  lemma SubstoreLocked(accounts: seq<Account>, reserveAmount: nat, tokenID: Latin1)
    requires DistinctAddresses(accounts)
    ensures Sum(PosLocked, Sort(Token.UserAtMost, UserEntries(accounts, reserveAmount, tokenID)))
      == Sum(AccountLocked, accounts)
  {
    SumOverSubstore(PosLocked, accounts, reserveAmount, tokenID);
    forall a: Account ensures Token.LockedFor(Token.Pos, Token.LockedBalances(a)) == Token.Locked(a) {
      Token.LockedBalancesValue(a);
    }
    SumCollect(Token.UserEntryFor(tokenID), PosLocked, OtherLocked, accounts);
    Token.ReserveEntryTotal(FindReserve(accounts), reserveAmount, tokenID);
    SumOverReserve(ReserveLocked, accounts);
    FindReserveMember(accounts);
    SplitLocked(accounts);
  }

  lemma StakersHold(accounts: seq<Account>, tokenID: Latin1)
    ensures Sum(Staked, SortedStakers(accounts, tokenID)) == Sum(AccountLocked, accounts)
  {
    var stakers := Collect(Pos.StakerFor(tokenID), accounts);
    StakerSort();
    SortSorts(StakerAtMost, stakers);
    SumPermutation(Staked, SortedStakers(accounts, tokenID), stakers);
    forall a: Account ensures Pos.StakerTotal(Pos.StakerFor(tokenID)(a)) == Token.Locked(a) {
      Pos.StakerTotalIsLocked(a, tokenID);
    }
    SumCollect(Pos.StakerFor(tokenID), Staked, AccountLocked, accounts);
  }

  /** Over all accounts the two stores agree on the total locked stake. */
  lemma TotalLockedIsStaked(accounts: seq<Account>, reserveAmount: nat, tokenID: Latin1)
    requires DistinctAddresses(accounts)
    ensures Sum(PosLocked, Sort(Token.UserAtMost, UserEntries(accounts, reserveAmount, tokenID)))
      == Sum(Staked, SortedStakers(accounts, tokenID))
  {
    SubstoreLocked(accounts, reserveAmount, tokenID);
    StakersHold(accounts, tokenID);
  }

  // ----- Shape of the user substore -----

  predicate AddressesDiffer(a: Account, b: Account) {
    a.address != b.address
  }

  lemma UserEntriesApart(accounts: seq<Account>, reserveAmount: nat, tokenID: Latin1)
    requires DistinctAddresses(accounts)
    ensures Apart(Token.UserAtMost, UserEntries(accounts, reserveAmount, tokenID))
  {
    var f := Token.UserEntryFor(tokenID);
    var others := Collect(f, accounts);
    var all := UserEntries(accounts, reserveAmount, tokenID);
    forall x, y | x in accounts && y in accounts && AddressesDiffer(x, y) && f(x).Some? && f(y).Some?
      ensures !(Token.UserAtMost(f(x).value, f(y).value) && Token.UserAtMost(f(y).value, f(x).value)) {
      if AtMost(x.address, y.address) && AtMost(y.address, x.address) { AtMostAntisymmetric(x.address, y.address); }
    }
    CollectApart(f, AddressesDiffer, Token.UserAtMost, accounts);
    forall i | 0 <= i < |others|
      ensures !(Token.UserAtMost(others[i], all[|others|]) && Token.UserAtMost(all[|others|], others[i])) {
      CollectMember(f, accounts, others[i]);
      if AtMost(others[i].address, ADDRESS_LEGACY_RESERVE) && AtMost(ADDRESS_LEGACY_RESERVE, others[i].address) {
        AtMostAntisymmetric(others[i].address, ADDRESS_LEGACY_RESERVE);
      }
    }
  }

  /**
   The user substore ascends strictly by address. Its entries are one per non-reserve account
   and one for the reserve, whether or not the reserve account exists.
  */
  lemma UserSubstoreShape(accounts: seq<Account>, reserveAmount: nat, tokenID: Latin1)
    requires DistinctAddresses(accounts)
    ensures var substore := Sort(Token.UserAtMost, UserEntries(accounts, reserveAmount, tokenID));
      && (forall i, j :: 0 <= i < j < |substore| ==> Less(substore[i].address, substore[j].address))
      && (forall e :: e in substore <==>
        || (exists a :: a in accounts && Token.UserEntryFor(tokenID)(a) == Some(e))
        || e == Token.ReserveEntry(FindReserve(accounts), reserveAmount, tokenID))
      && (forall e :: e in substore && e.address == ADDRESS_LEGACY_RESERVE ==>
        e == Token.ReserveEntry(FindReserve(accounts), reserveAmount, tokenID))
  {
    var substore := Sort(Token.UserAtMost, UserEntries(accounts, reserveAmount, tokenID));
    forall e ensures e in substore <==>
      || (exists a :: a in accounts && Token.UserEntryFor(tokenID)(a) == Some(e))
      || e == Token.ReserveEntry(FindReserve(accounts), reserveAmount, tokenID) {
      SubstoreMember(accounts, reserveAmount, tokenID, e);
    }
    SubstoreAscends(accounts, reserveAmount, tokenID);
  }

  lemma SubstoreMember(accounts: seq<Account>, reserveAmount: nat, tokenID: Latin1, e: Token.UserEntry)
    ensures e in Sort(Token.UserAtMost, UserEntries(accounts, reserveAmount, tokenID)) <==>
      || (exists a :: a in accounts && Token.UserEntryFor(tokenID)(a) == Some(e))
      || e == Token.ReserveEntry(FindReserve(accounts), reserveAmount, tokenID)
  {
    SortMember(Token.UserAtMost, UserEntries(accounts, reserveAmount, tokenID), e);
    CollectMember(Token.UserEntryFor(tokenID), accounts, e);
  }

  lemma SubstoreAscends(accounts: seq<Account>, reserveAmount: nat, tokenID: Latin1)
    requires DistinctAddresses(accounts)
    ensures var substore := Sort(Token.UserAtMost, UserEntries(accounts, reserveAmount, tokenID));
      forall i, j :: 0 <= i < j < |substore| ==> Less(substore[i].address, substore[j].address)
  {
    var substore := Sort(Token.UserAtMost, UserEntries(accounts, reserveAmount, tokenID));
    Token.UserOrder();
    UserEntriesApart(accounts, reserveAmount, tokenID);
    SortStrict(Token.UserAtMost, UserEntries(accounts, reserveAmount, tokenID));
    forall i | 0 <= i < |substore| ensures substore[i].tokenID == FromHex(tokenID) {
      SubstoreMember(accounts, reserveAmount, tokenID, substore[i]);
    }
    forall i, j | 0 <= i < j < |substore| ensures Less(substore[i].address, substore[j].address) {
      assert !Token.UserAtMost(substore[j], substore[i]);
      LessTotal(substore[i].address, substore[j].address);
    }
  }

  /** A store of entries that carry their account's address ascends strictly by address. */
  lemma StoreAscends<T(!new)>(
      f: Account -> Option<T>, address: T -> Bytes, atMost: (T, T) -> bool, accounts: seq<Account>)
    requires DistinctAddresses(accounts) && TotalPreorder(atMost)
    requires forall a :: a in accounts && f(a).Some? ==> address(f(a).value) == a.address
    requires forall x, y :: atMost(x, y) <==> AtMost(address(x), address(y))
    ensures AscendingStore(Sort(atMost, Collect(f, accounts)), f, address, accounts)
  {
    var entries := Collect(f, accounts);
    var s := Sort(atMost, entries);
    forall x, y | x in accounts && y in accounts && AddressesDiffer(x, y) && f(x).Some? && f(y).Some?
      ensures !(atMost(f(x).value, f(y).value) && atMost(f(y).value, f(x).value)) {
      if AtMost(x.address, y.address) && AtMost(y.address, x.address) { AtMostAntisymmetric(x.address, y.address); }
    }
    CollectApart(f, AddressesDiffer, atMost, accounts);
    SortStrict(atMost, entries);
    forall i, j | 0 <= i < j < |s| ensures Less(address(s[i]), address(s[j])) {
      assert !atMost(s[j], s[i]);
      LessTotal(address(s[i]), address(s[j]));
    }
    forall e ensures e in s <==> exists a :: a in accounts && f(a) == Some(e) {
      SortMember(atMost, entries, e);
      CollectMember(f, accounts, e);
    }
  }

  /** Strictly ascending by address, and exactly the accounts' entries. */
  ghost predicate AscendingStore<T(!new)>(
      store: seq<T>, f: Account -> Option<T>, address: T -> Bytes, accounts: seq<Account>)
  {
    && (forall i, j :: 0 <= i < j < |store| ==> Less(address(store[i]), address(store[j])))
    && (forall e :: e in store <==> exists a :: a in accounts && f(a) == Some(e))
  }

  function AuthAddress(e: Auth.AuthEntry): Bytes {
    e.address
  }

  function ValidatorAddress(v: Pos.ValidatorEntry): Bytes {
    v.address
  }

  function StakerAddress(s: Pos.Staker): Bytes {
    s.address
  }

  /**
   The auth, validator and staker stores ascend strictly by address and hold the entries of
   exactly the accounts that have one.
  */
  lemma StoresAscend(accounts: seq<Account>, keys: map<Latin1, Latin1>, snapshotHeight: nat, tokenID: Latin1)
    requires DistinctAddresses(accounts)
    ensures AscendingStore(Sort(AuthAtMost, Collect(Auth.EntryOf, accounts)), Auth.EntryOf, AuthAddress, accounts)
    ensures AscendingStore(SortedStakers(accounts, tokenID), Pos.StakerFor(tokenID), StakerAddress, accounts)
    ensures var f := Pos.ValidatorFor(keys, snapshotHeight, tokenID);
      AscendingStore(Sort(ValidatorAtMost, Collect(f, accounts)), f, ValidatorAddress, accounts)
  {
    AuthSort();
    StoreAscends(Auth.EntryOf, AuthAddress, AuthAtMost, accounts);
    StakerSort();
    StoreAscends(Pos.StakerFor(tokenID), StakerAddress, StakerAtMost, accounts);
    ValidatorSort();
    StoreAscends(Pos.ValidatorFor(keys, snapshotHeight, tokenID), ValidatorAddress, ValidatorAtMost, accounts);
  }

  // ----- Independence of enumeration order -----

  lemma AuthSort()
    ensures TotalPreorder(AuthAtMost)
  {
    forall a: Auth.AuthEntry, b: Auth.AuthEntry ensures AuthAtMost(a, b) || AuthAtMost(b, a) {
      LessTotal(a.address, b.address);
    }
    forall a: Auth.AuthEntry, b: Auth.AuthEntry, c: Auth.AuthEntry | AuthAtMost(a, b) && AuthAtMost(b, c)
      ensures AuthAtMost(a, c) {
      AtMostTransitive(a.address, b.address, c.address);
    }
  }

  lemma ValidatorSort()
    ensures TotalPreorder(ValidatorAtMost)
  {
    forall a: Pos.ValidatorEntry, b: Pos.ValidatorEntry ensures ValidatorAtMost(a, b) || ValidatorAtMost(b, a) {
      LessTotal(a.address, b.address);
    }
    forall a: Pos.ValidatorEntry, b: Pos.ValidatorEntry, c: Pos.ValidatorEntry
      | ValidatorAtMost(a, b) && ValidatorAtMost(b, c) ensures ValidatorAtMost(a, c) {
      AtMostTransitive(a.address, b.address, c.address);
    }
  }

  /** Entries that carry their account's address are told apart by it. */
  lemma CollectedDistinguished<T(!new)>(
      f: Account -> Option<T>, address: T -> Bytes, atMost: (T, T) -> bool, accounts: seq<Account>)
    requires DistinctAddresses(accounts)
    requires forall a :: a in accounts && f(a).Some? ==> address(f(a).value) == a.address
    requires forall x, y :: atMost(x, y) ==> AtMost(address(x), address(y))
    ensures Distinguishes(atMost, Collect(f, accounts))
  {
    var s := Collect(f, accounts);
    forall x, y | x in s && y in s && atMost(x, y) && atMost(y, x) ensures x == y {
      CollectMember(f, accounts, x);
      CollectMember(f, accounts, y);
      var a :| a in accounts && f(a) == Some(x);
      var b :| b in accounts && f(b) == Some(y);
      AtMostAntisymmetric(address(x), address(y));
      SameAddressSameAccount(accounts, a, b);
    }
  }

  /** A store collected from the accounts and sorted by address does not depend on their order. */
  lemma StoreCanonical<T(!new)>(
      f: Account -> Option<T>, address: T -> Bytes, atMost: (T, T) -> bool, accounts: seq<Account>, other: seq<Account>)
    requires DistinctAddresses(accounts) && multiset(accounts) == multiset(other) && TotalPreorder(atMost)
    requires forall a :: a in accounts && f(a).Some? ==> address(f(a).value) == a.address
    requires forall x, y :: atMost(x, y) ==> AtMost(address(x), address(y))
    ensures Sort(atMost, Collect(f, accounts)) == Sort(atMost, Collect(f, other))
  {
    CollectPermutation(f, accounts, other);
    CollectedDistinguished(f, address, atMost, accounts);
    SortIsCanonical(atMost, Collect(f, accounts), Collect(f, other));
  }

  lemma UserSubstoreCanonical(accounts: seq<Account>, other: seq<Account>, reserveAmount: nat, tokenID: Latin1)
    requires DistinctAddresses(accounts) && multiset(accounts) == multiset(other)
    ensures Sort(Token.UserAtMost, UserEntries(accounts, reserveAmount, tokenID))
      == Sort(Token.UserAtMost, UserEntries(other, reserveAmount, tokenID))
  {
    FindReservePermutation(accounts, other);
    CollectPermutation(Token.UserEntryFor(tokenID), accounts, other);
    var s := UserEntries(accounts, reserveAmount, tokenID);
    UserEntriesApart(accounts, reserveAmount, tokenID);
    Token.UserOrder();
    forall x, y | x in s && y in s && Token.UserAtMost(x, y) && Token.UserAtMost(y, x) ensures x == y {
      var i :| 0 <= i < |s| && s[i] == x;
      var j :| 0 <= j < |s| && s[j] == y;
      assert i == j;
    }
    SortIsCanonical(Token.UserAtMost, s, UserEntries(other, reserveAmount, tokenID));
  }

  lemma StoresCanonical(
      accounts: seq<Account>, other: seq<Account>, keys: map<Latin1, Latin1>, snapshotHeight: nat, tokenID: Latin1)
    requires DistinctAddresses(accounts) && multiset(accounts) == multiset(other)
    ensures Sort(AuthAtMost, Collect(Auth.EntryOf, accounts)) == Sort(AuthAtMost, Collect(Auth.EntryOf, other))
    ensures SortedStakers(accounts, tokenID) == SortedStakers(other, tokenID)
    ensures Sort(ValidatorAtMost, Collect(Pos.ValidatorFor(keys, snapshotHeight, tokenID), accounts))
      == Sort(ValidatorAtMost, Collect(Pos.ValidatorFor(keys, snapshotHeight, tokenID), other))
  {
    AuthSort();
    StoreCanonical(Auth.EntryOf, AuthAddress, AuthAtMost, accounts, other);
    ValidatorSort();
    StoreCanonical(Pos.ValidatorFor(keys, snapshotHeight, tokenID), ValidatorAddress,
      ValidatorAtMost, accounts, other);
    StakerSort();
    StoreCanonical(Pos.StakerFor(tokenID), StakerAddress, StakerAtMost, accounts, other);
  }

  lemma AmountsCanonical(
      accounts: seq<Account>, other: seq<Account>,
      unregistered: seq<Legacy.Unregistered>, otherUnregistered: seq<Legacy.Unregistered>)
    requires DistinctAddresses(accounts) && multiset(accounts) == multiset(other)
    requires multiset(unregistered) == multiset(otherUnregistered)
    ensures Legacy.ReserveAmount(FindReserve(accounts), unregistered)
      == Legacy.ReserveAmount(FindReserve(other), otherUnregistered)
    ensures Sum(Holdings, accounts) == Sum(Holdings, other)
  {
    FindReservePermutation(accounts, other);
    SumPermutation(Legacy.UnregisteredBalance, unregistered, otherUnregistered);
    SumPermutation(Holdings, accounts, other);
  }

  /**
   The assets are canonical: any order of the accounts and of the unregistered addresses gives
   the same assets, if addresses are distinct.
  */
  lemma BuildIsCanonical(
      accounts: seq<Account>, other: seq<Account>,
      unregistered: seq<Legacy.Unregistered>, otherUnregistered: seq<Legacy.Unregistered>,
      keys: map<Latin1, Latin1>, genesis: Pos.GenesisData, snapshotHeight: nat, tokenID: Latin1, supplyOnEntry: nat)
    requires DistinctAddresses(accounts) && multiset(accounts) == multiset(other)
    requires multiset(unregistered) == multiset(otherUnregistered) && Legacy.BalancesAgree(unregistered)
    ensures Build(accounts, unregistered, keys, genesis, snapshotHeight, tokenID, supplyOnEntry)
      == Build(other, otherUnregistered, keys, genesis, snapshotHeight, tokenID, supplyOnEntry)
  {
    Legacy.EntriesPermutation(unregistered, otherUnregistered);
    AmountsCanonical(accounts, other, unregistered, otherUnregistered);
    var reserveAmount := Legacy.ReserveAmount(FindReserve(accounts), unregistered);
    UserSubstoreCanonical(accounts, other, reserveAmount, tokenID);
    StoresCanonical(accounts, other, keys, snapshotHeight, tokenID);
  }

  /** The set of delegates does not depend on the order of the accounts either. */
  lemma DelegateSetCanonical(accounts: seq<Account>, other: seq<Account>)
    requires multiset(accounts) == multiset(other)
    ensures DelegateSet(accounts) == DelegateSet(other)
  {
    forall a ensures a in accounts <==> a in other { SameMembers(accounts, other, a); }
  }

  /** Of the key record, only the delegates' generator keys enter into the assets. */
  lemma BuildReadsDelegateSlots(
      accounts: seq<Account>, unregistered: seq<Legacy.Unregistered>, keys: map<Latin1, Latin1>,
      keys': map<Latin1, Latin1>, genesis: Pos.GenesisData, snapshotHeight: nat, tokenID: Latin1, supplyOnEntry: nat)
    requires forall a :: a in accounts && IsDelegate(a) ==>
      GeneratorKey(keys, a.address) == GeneratorKey(keys', a.address)
    ensures Build(accounts, unregistered, keys, genesis, snapshotHeight, tokenID, supplyOnEntry)
      == Build(accounts, unregistered, keys', genesis, snapshotHeight, tokenID, supplyOnEntry)
  {
    CollectCongruent(
      Pos.ValidatorFor(keys, snapshotHeight, tokenID), Pos.ValidatorFor(keys', snapshotHeight, tokenID), accounts);
  }

  /** The competing public keys of every delegate of the snapshot are emitted alike. */
  ghost predicate DelegateKeysAgree(
      accounts: seq<Account>, addressOf: Bytes -> Bytes, blocks: seq<Latin1>, txs: seq<Latin1>)
  {
    forall a :: a in accounts && IsDelegate(a) ==>
      EmittedAlike(addressOf, DelegateSet(accounts), blocks, txs, ToHex(a.address))
  }

  /** All that `init` enumerates in some order. */
  datatype Enumerated = Enumerated(
    accounts: seq<Account>, unregistered: seq<Legacy.Unregistered>, blocks: seq<Latin1>, txs: seq<Latin1>)

  ghost predicate Reordered(x: Enumerated, y: Enumerated) {
    && multiset(x.accounts) == multiset(y.accounts) && multiset(x.unregistered) == multiset(y.unregistered)
    && multiset(x.blocks) == multiset(y.blocks) && multiset(x.txs) == multiset(y.txs)
  }

  /** The assets made of it. */
  function BuildFrom(
      x: Enumerated, addressOf: Bytes -> Bytes, genesis: Pos.GenesisData, snapshotHeight: nat, tokenID: Latin1,
      supplyOnEntry: nat): Assets
  {
    Build(x.accounts, x.unregistered, AllKeys(addressOf, DelegateSet(x.accounts), x.blocks, x.txs),
      genesis, snapshotHeight, tokenID, supplyOnEntry)
  }

  /**
   The assets are canonical: any order of the accounts, the unregistered addresses and the two
   key sets gives the same assets, if no unregistered address has two balances and no delegate
   has competing keys that are emitted differently.
  */
  lemma AssetsAreCanonical(
      x: Enumerated, y: Enumerated, addressOf: Bytes -> Bytes, genesis: Pos.GenesisData, snapshotHeight: nat,
      tokenID: Latin1, supplyOnEntry: nat)
    requires DistinctAddresses(x.accounts) && Reordered(x, y)
    requires Legacy.BalancesAgree(x.unregistered) && DelegateKeysAgree(x.accounts, addressOf, x.blocks, x.txs)
    ensures BuildFrom(x, addressOf, genesis, snapshotHeight, tokenID, supplyOnEntry)
      == BuildFrom(y, addressOf, genesis, snapshotHeight, tokenID, supplyOnEntry)
  {
    var delegates := DelegateSet(x.accounts);
    DelegateSetCanonical(x.accounts, y.accounts);
    var keys, keys' := AllKeys(addressOf, delegates, x.blocks, x.txs), AllKeys(addressOf, delegates, y.blocks, y.txs);
    forall k ensures (k in x.blocks <==> k in y.blocks) && (k in x.txs <==> k in y.txs) {
      SameMembers(x.blocks, y.blocks, k);
      SameMembers(x.txs, y.txs, k);
    }
    forall a | a in x.accounts && IsDelegate(a)
      ensures GeneratorKey(keys, a.address) == GeneratorKey(keys', a.address) {
      GeneratorKeyCanonical(addressOf, delegates, x.blocks, x.txs, y.blocks, y.txs, a.address);
    }
    BuildReadsDelegateSlots(
      x.accounts, x.unregistered, keys, keys', genesis, snapshotHeight, tokenID, supplyOnEntry);
    BuildIsCanonical(
      x.accounts, y.accounts, x.unregistered, y.unregistered, keys', genesis, snapshotHeight, tokenID, supplyOnEntry);
  }

  /** Different generator keys of a delegate give different validator stores. */
  lemma GeneratorKeyShows(
      accounts: seq<Account>, keys: map<Latin1, Latin1>, keys': map<Latin1, Latin1>, a: Account,
      snapshotHeight: nat, tokenID: Latin1)
    requires a in accounts && IsDelegate(a) && GeneratorKey(keys, a.address) != GeneratorKey(keys', a.address)
    ensures Sort(ValidatorAtMost, Collect(Pos.ValidatorFor(keys, snapshotHeight, tokenID), accounts))
      != Sort(ValidatorAtMost, Collect(Pos.ValidatorFor(keys', snapshotHeight, tokenID), accounts))
  {
    var f, f' := Pos.ValidatorFor(keys, snapshotHeight, tokenID), Pos.ValidatorFor(keys', snapshotHeight, tokenID);
    var v := f(a).value;
    CollectMember(f, accounts, v);
    SortMember(ValidatorAtMost, Collect(f, accounts), v);
    CollectMember(f', accounts, v);
    SortMember(ValidatorAtMost, Collect(f', accounts), v);
  }

  /** Two competing keys of a delegate that are emitted differently: two orders, two results. */
  lemma EmittedKeysShow(
      x: Enumerated, a: Account, addressOf: Bytes -> Bytes, genesis: Pos.GenesisData, snapshotHeight: nat,
      tokenID: Latin1, supplyOnEntry: nat)
    returns (y: Enumerated, z: Enumerated)
    requires a in x.accounts && IsDelegate(a)
    requires !EmittedAlike(addressOf, DelegateSet(x.accounts), x.blocks, x.txs, ToHex(a.address))
    ensures Reordered(x, y) && Reordered(x, z)
    ensures BuildFrom(y, addressOf, genesis, snapshotHeight, tokenID, supplyOnEntry)
      != BuildFrom(z, addressOf, genesis, snapshotHeight, tokenID, supplyOnEntry)
  {
    var delegates, slot := DelegateSet(x.accounts), ToHex(a.address);
    var k, l :| Competes(addressOf, delegates, x.blocks, x.txs, slot, k)
      && Competes(addressOf, delegates, x.blocks, x.txs, slot, l) && Emitted(k) != Emitted(l);
    var blocks1, txs1 := CompetitorMovedLastWins(addressOf, delegates, x.blocks, x.txs, slot, k);
    var blocks2, txs2 := CompetitorMovedLastWins(addressOf, delegates, x.blocks, x.txs, slot, l);
    y, z := x.(blocks := blocks1, txs := txs1), x.(blocks := blocks2, txs := txs2);
    GeneratorKeyShows(
      x.accounts, AllKeys(addressOf, delegates, blocks1, txs1), AllKeys(addressOf, delegates, blocks2, txs2), a,
      snapshotHeight, tokenID);
  }

  /** Every order gives the same assets. */
  ghost predicate AnyOrder(
      x: Enumerated, addressOf: Bytes -> Bytes, genesis: Pos.GenesisData, snapshotHeight: nat, tokenID: Latin1,
      supplyOnEntry: nat)
  {
    forall y :: Reordered(x, y) ==>
      BuildFrom(y, addressOf, genesis, snapshotHeight, tokenID, supplyOnEntry)
        == BuildFrom(x, addressOf, genesis, snapshotHeight, tokenID, supplyOnEntry)
  }

  /**
   Exactly when the assets do not depend on any order of enumeration: no unregistered address
   has two balances, and no delegate has competing keys that are emitted differently.
  */
  lemma AssetsCanonicalIff(
      x: Enumerated, addressOf: Bytes -> Bytes, genesis: Pos.GenesisData, snapshotHeight: nat, tokenID: Latin1,
      supplyOnEntry: nat)
    requires DistinctAddresses(x.accounts)
    ensures AnyOrder(x, addressOf, genesis, snapshotHeight, tokenID, supplyOnEntry)
      <==> Legacy.BalancesAgree(x.unregistered) && DelegateKeysAgree(x.accounts, addressOf, x.blocks, x.txs)
  {
    if !Legacy.BalancesAgree(x.unregistered) {
      Legacy.EntriesCanonicalIff(x.unregistered);
      var other :| multiset(other) == multiset(x.unregistered)
        && Legacy.Entries(other) != Legacy.Entries(x.unregistered);
      var y := x.(unregistered := other);
      assert Reordered(x, y);
      assert BuildFrom(y, addressOf, genesis, snapshotHeight, tokenID, supplyOnEntry).legacy == Legacy.Entries(other);
    } else if !DelegateKeysAgree(x.accounts, addressOf, x.blocks, x.txs) {
      var a :| a in x.accounts && IsDelegate(a)
        && !EmittedAlike(addressOf, DelegateSet(x.accounts), x.blocks, x.txs, ToHex(a.address));
      var y, z := EmittedKeysShow(x, a, addressOf, genesis, snapshotHeight, tokenID, supplyOnEntry);
    } else {
      forall y | Reordered(x, y)
        ensures BuildFrom(y, addressOf, genesis, snapshotHeight, tokenID, supplyOnEntry)
          == BuildFrom(x, addressOf, genesis, snapshotHeight, tokenID, supplyOnEntry) {
        AssetsAreCanonical(x, y, addressOf, genesis, snapshotHeight, tokenID, supplyOnEntry);
      }
    }
  }

  // ----- From the database -----

  function AccountAddress(decode: Bytes -> Account): Bytes -> Bytes {
    (value: Bytes) => decode(value).address
  }

  lemma {:induction false} FoldPushDecoded(decode: Bytes -> Account, output: seq<Account>, records: Database)
    ensures |Fold(PushDecoded(decode), output, records)| == |output| + |records|
    ensures forall i :: 0 <= i < |output| ==> Fold(PushDecoded(decode), output, records)[i] == output[i]
    ensures forall i :: 0 <= i < |records| ==>
      Fold(PushDecoded(decode), output, records)[|output| + i] == decode(records[i].value)
    decreases |records|
  {
    if records == [] {
    } else {
      FoldPushDecoded(decode, output + [decode(records[0].value)], records[1..]);
      var r := Fold(PushDecoded(decode), output, records);
      forall i | 0 <= i < |records| ensures r[|output| + i] == decode(records[i].value) {
        if i > 0 { assert records[1..][i - 1] == records[i]; }
      }
    }
  }

  lemma {:induction false} FilterKeepsDistinct(accounts: seq<Account>)
    requires DistinctAddresses(accounts)
    ensures DistinctAddresses(Collect(FullAddress, accounts))
  {
    if accounts == [] {
    } else {
      FilterKeepsDistinct(accounts[1..]);
      var rest := Collect(FullAddress, accounts[1..]);
      forall j | 0 <= j < |rest| ensures rest[j].address != accounts[0].address {
        CollectMember(FullAddress, accounts[1..], rest[j]);
        var a :| a in accounts[1..] && FullAddress(a) == Some(rest[j]);
        var k :| 0 <= k < |accounts[1..]| && accounts[1..][k] == a;
        assert accounts[k + 1] == a;
      }
    }
  }

  /** A record that holds an account with a 20-byte address. */
  ghost predicate HoldsAccount(db: Database, decode: Bytes -> Account, r: Record, a: Account) {
    && r in db && Head(DB_KEY_ACCOUNTS_ADDRESS) <= r.key
    && decode(r.value) == a && |a.address| == BINARY_ADDRESS_LENGTH
  }

  lemma SnapshotMember(db: Database, decode: Bytes -> Account, a: Account)
    requires AccountKeyed(db, AccountAddress(decode))
    ensures a in SnapshotAccounts(db, decode) <==> exists r :: HoldsAccount(db, decode, r, a)
  {
    var all := AccountRange(db);
    var decoded := Fold(PushDecoded(decode), [], all);
    FoldPushDecoded(decode, [], all);
    CollectMember(FullAddress, decoded, a);
    if a in SnapshotAccounts(db, decode) {
      var x :| x in decoded && FullAddress(x) == Some(a);
      var i :| 0 <= i < |decoded| && decoded[i] == x;
      AccountScanIsExact(db, AccountAddress(decode), all[i]);
      assert HoldsAccount(db, decode, all[i], a);
    }
    if r :| HoldsAccount(db, decode, r, a) {
      AccountScanIsExact(db, AccountAddress(decode), r);
      var i :| 0 <= i < |all| && all[i] == r;
      assert decoded[i] == a && FullAddress(a) == Some(a);
    }
  }

  lemma SnapshotDistinct(db: Database, decode: Bytes -> Account)
    requires AccountKeyed(db, AccountAddress(decode))
    ensures DistinctAddresses(SnapshotAccounts(db, decode))
  {
    var all := AccountRange(db);
    var decoded := Fold(PushDecoded(decode), [], all);
    FoldPushDecoded(decode, [], all);
    forall i, j | 0 <= i < j < |decoded| ensures decoded[i].address != decoded[j].address {
      AccountAddressesDiffer(db, AccountAddress(decode), i, j);
    }
    FilterKeepsDistinct(decoded);
  }

  /** The snapshot accounts are the stored accounts with a 20-byte address, each address once. */
  lemma SnapshotAccountsExact(db: Database, decode: Bytes -> Account)
    requires AccountKeyed(db, AccountAddress(decode))
    ensures DistinctAddresses(SnapshotAccounts(db, decode))
    ensures forall a :: a in SnapshotAccounts(db, decode) <==> exists r :: HoldsAccount(db, decode, r, a)
  {
    SnapshotDistinct(db, decode);
    forall a ensures a in SnapshotAccounts(db, decode) <==> exists r :: HoldsAccount(db, decode, r, a) {
      SnapshotMember(db, decode, a);
    }
  }

  /**
   End to end: whatever assets `init` creates conserve supply when the counter entered at 0
   and hold the v3 total and the reserve balance once more; the user substore ascends
   strictly; and token and PoS stores agree, entry by entry and in total.
  */
  lemma CreatedAssetsAreSound(
      db: Database, codec: Codec, supplyOnEntry: nat, snapshotHeight: nat, tokenID: Latin1)
    requires AccountKeyed(db, AccountAddress(codec.account))
    ensures match InitSpec(db, codec, supplyOnEntry, snapshotHeight, tokenID)
      case Failed(_) => true
      case Created(assets) =>
        var accounts := SnapshotAccounts(db, codec.account);
        && Parse(assets.totalSupply) == supplyOnEntry + SubstoreTotal(assets.userSubstore)
        && SubstoreTotal(assets.userSubstore)
          == V3Total(accounts, codec.unregistered(Get(db, UNREGISTERED_KEY).value))
            + Token.ReserveBalance(FindReserve(accounts))
        && (forall i, j :: 0 <= i < j < |assets.userSubstore| ==>
          Less(assets.userSubstore[i].address, assets.userSubstore[j].address))
        && Sum(PosLocked, assets.userSubstore) == Sum(Staked, assets.stakers)
        && (forall e :: e in assets.userSubstore ==>
          PosLocked(e) == Pos.StakerTotal(FindStaker(assets.stakers, e.address)))
  {
    match InitSpec(db, codec, supplyOnEntry, snapshotHeight, tokenID)
    case Failed(_) =>
    case Created(assets) =>
      SnapshotAccountsExact(db, codec.account);
      var accounts := SnapshotAccounts(db, codec.account);
      var unregistered := codec.unregistered(Get(db, UNREGISTERED_KEY).value);
      var keys := StoredValidatorKeys(accounts, db, codec.generatorPublicKey, codec.senderPublicKey, codec.addressOf);
      BuildIsSound(accounts, unregistered, keys, assets.genesis, snapshotHeight, tokenID, supplyOnEntry);
  }

  lemma BuildIsSound(
      accounts: seq<Account>, unregistered: seq<Legacy.Unregistered>, keys: map<Latin1, Latin1>,
      genesis: Pos.GenesisData, snapshotHeight: nat, tokenID: Latin1, supplyOnEntry: nat)
    requires DistinctAddresses(accounts)
    ensures var assets := Build(accounts, unregistered, keys, genesis, snapshotHeight, tokenID, supplyOnEntry);
      && Parse(assets.totalSupply) == supplyOnEntry + SubstoreTotal(assets.userSubstore)
      && SubstoreTotal(assets.userSubstore)
        == V3Total(accounts, unregistered) + Token.ReserveBalance(FindReserve(accounts))
      && (forall i, j :: 0 <= i < j < |assets.userSubstore| ==>
        Less(assets.userSubstore[i].address, assets.userSubstore[j].address))
      && Sum(PosLocked, assets.userSubstore) == Sum(Staked, assets.stakers)
      && (forall e :: e in assets.userSubstore ==>
        PosLocked(e) == Pos.StakerTotal(FindStaker(assets.stakers, e.address)))
  {
    var assets := Build(accounts, unregistered, keys, genesis, snapshotHeight, tokenID, supplyOnEntry);
    var reserveAmount := Legacy.ReserveAmount(FindReserve(accounts), unregistered);
    SupplyConserved(accounts, unregistered, keys, genesis, snapshotHeight, tokenID, supplyOnEntry);
    SubstoreAscends(accounts, reserveAmount, tokenID);
    TotalLockedIsStaked(accounts, reserveAmount, tokenID);
    forall e | e in assets.userSubstore
      ensures PosLocked(e) == Pos.StakerTotal(FindStaker(assets.stakers, e.address)) {
      LockedIsStaked(accounts, reserveAmount, tokenID, e);
    }
  }

  /** A stored block or transaction carries a usable public key of the address. */
  ghost predicate HasKey(db: Database, codec: Codec, address: Bytes, key: Bytes) {
    Carried(db, codec.generatorPublicKey, codec.senderPublicKey, key) && codec.addressOf(key) == address && Usable(key)
  }

  /** The public key filed last for the address. */
  ghost predicate FiledLastFor(db: Database, codec: Codec, address: Bytes, key: Bytes) {
    StoredLast(
      SnapshotAccounts(db, codec.account), db, codec.generatorPublicKey, codec.senderPublicKey, codec.addressOf,
      address, key)
  }

  /**
   End to end for validators: each is a delegate of the snapshot; a real generator key is a
   usable public key that some stored block or transaction carries for its address; and it has
   one exactly when the key filed last for its address is usable, which is exactly when it has
   a usable key at all, unless the address has usable and unusable keys.
  */
  lemma CreatedValidatorKeys(
      db: Database, codec: Codec, supplyOnEntry: nat, snapshotHeight: nat, tokenID: Latin1, v: Pos.ValidatorEntry)
    requires WellFormed(db)
    ensures match InitSpec(db, codec, supplyOnEntry, snapshotHeight, tokenID)
      case Failed(_) => true
      case Created(assets) =>
        v in assets.validators ==>
          && (exists a :: a in SnapshotAccounts(db, codec.account) && IsDelegate(a) && a.address == v.address)
          && (v.generatorKey != INVALID_ED25519_KEY ==>
            exists key :: HasKey(db, codec, v.address, key) && v.generatorKey == ToHex(key))
          && (v.generatorKey != INVALID_ED25519_KEY <==>
            exists key :: FiledLastFor(db, codec, v.address, key) && Usable(key))
          && (!MixedKeys(db, codec.generatorPublicKey, codec.senderPublicKey, codec.addressOf, v.address) ==>
            (v.generatorKey != INVALID_ED25519_KEY <==> exists key :: HasKey(db, codec, v.address, key)))
  {
    match InitSpec(db, codec, supplyOnEntry, snapshotHeight, tokenID)
    case Failed(_) =>
    case Created(assets) =>
      if v in assets.validators { ValidatorOfSnapshot(db, codec, snapshotHeight, tokenID, v); }
  }

  lemma ValidatorOfSnapshot(db: Database, codec: Codec, snapshotHeight: nat, tokenID: Latin1, v: Pos.ValidatorEntry)
    requires WellFormed(db)
    requires var accounts := SnapshotAccounts(db, codec.account);
      var keys := StoredValidatorKeys(accounts, db, codec.generatorPublicKey, codec.senderPublicKey, codec.addressOf);
      v in Sort(ValidatorAtMost, Collect(Pos.ValidatorFor(keys, snapshotHeight, tokenID), accounts))
    ensures exists a :: a in SnapshotAccounts(db, codec.account) && IsDelegate(a) && a.address == v.address
    ensures v.generatorKey != INVALID_ED25519_KEY ==>
      exists key :: HasKey(db, codec, v.address, key) && v.generatorKey == ToHex(key)
    ensures v.generatorKey != INVALID_ED25519_KEY <==>
      exists key :: FiledLastFor(db, codec, v.address, key) && Usable(key)
    ensures !MixedKeys(db, codec.generatorPublicKey, codec.senderPublicKey, codec.addressOf, v.address) ==>
      (v.generatorKey != INVALID_ED25519_KEY <==> exists key :: HasKey(db, codec, v.address, key))
  {
    var accounts := SnapshotAccounts(db, codec.account);
    var keys := StoredValidatorKeys(accounts, db, codec.generatorPublicKey, codec.senderPublicKey, codec.addressOf);
    var f := Pos.ValidatorFor(keys, snapshotHeight, tokenID);
    SortMember(ValidatorAtMost, Collect(f, accounts), v);
    CollectMember(f, accounts, v);
    var a :| a in accounts && f(a) == Some(v);
    GeneratorKeyIsCarried(accounts, db, codec.generatorPublicKey, codec.senderPublicKey, codec.addressOf, a);
    if v.generatorKey != INVALID_ED25519_KEY {
      var key :| Carried(db, codec.generatorPublicKey, codec.senderPublicKey, key)
        && codec.addressOf(key) == a.address && Usable(key) && v.generatorKey == ToHex(key);
      assert HasKey(db, codec, v.address, key);
    }
  }

  /** One entry for every account but the reserve, one for the reserve, strictly ascending. */
  ghost predicate ExactSubstore(
      substore: seq<Token.UserEntry>, accounts: seq<Account>, reserveAmount: nat, tokenID: Latin1)
  {
    && (forall e :: e in substore <==>
      || (exists a :: a in accounts && Token.UserEntryFor(tokenID)(a) == Some(e))
      || e == Token.ReserveEntry(FindReserve(accounts), reserveAmount, tokenID))
    && (forall i, j :: 0 <= i < j < |substore| ==> Less(substore[i].address, substore[j].address))
  }

  /** All four stores are exactly what the accounts give. */
  ghost predicate ExactStores(
      assets: Assets, accounts: seq<Account>, keys: map<Latin1, Latin1>, reserveAmount: nat, snapshotHeight: nat,
      tokenID: Latin1)
  {
    && ExactSubstore(assets.userSubstore, accounts, reserveAmount, tokenID)
    && AscendingStore(assets.auth, Auth.EntryOf, AuthAddress, accounts)
    && AscendingStore(assets.stakers, Pos.StakerFor(tokenID), StakerAddress, accounts)
    && AscendingStore(assets.validators, Pos.ValidatorFor(keys, snapshotHeight, tokenID), ValidatorAddress, accounts)
  }

  lemma BuildStoresExact(
      accounts: seq<Account>, unregistered: seq<Legacy.Unregistered>, keys: map<Latin1, Latin1>,
      genesis: Pos.GenesisData, snapshotHeight: nat, tokenID: Latin1, supplyOnEntry: nat)
    requires DistinctAddresses(accounts)
    ensures ExactStores(
      Build(accounts, unregistered, keys, genesis, snapshotHeight, tokenID, supplyOnEntry), accounts, keys,
      Legacy.ReserveAmount(FindReserve(accounts), unregistered), snapshotHeight, tokenID)
  {
    SubstoreExact(accounts, Legacy.ReserveAmount(FindReserve(accounts), unregistered), tokenID);
    StoresAscend(accounts, keys, snapshotHeight, tokenID);
  }

  lemma SubstoreExact(accounts: seq<Account>, reserveAmount: nat, tokenID: Latin1)
    requires DistinctAddresses(accounts)
    ensures ExactSubstore(
      Sort(Token.UserAtMost, UserEntries(accounts, reserveAmount, tokenID)), accounts, reserveAmount, tokenID)
  {
    UserSubstoreShape(accounts, reserveAmount, tokenID);
  }

  /** The database holds the account, under a 20-byte address. */
  ghost predicate Holds(db: Database, codec: Codec, a: Account) {
    exists r :: HoldsAccount(db, codec.account, r, a)
  }

  /**
   End to end for the stores: the user substore has one entry for every stored account with a
   20-byte address but the reserve, and one for the reserve, stored or not; the auth,
   validator and staker stores have the entries of exactly the stored accounts that have one;
   all four ascend strictly by address.
  */
  lemma CreatedStoresAreExact(
      db: Database, codec: Codec, supplyOnEntry: nat, snapshotHeight: nat, tokenID: Latin1)
    requires AccountKeyed(db, AccountAddress(codec.account))
    ensures match InitSpec(db, codec, supplyOnEntry, snapshotHeight, tokenID)
      case Failed(_) => true
      case Created(assets) =>
        var accounts := SnapshotAccounts(db, codec.account);
        var keys := StoredValidatorKeys(accounts, db, codec.generatorPublicKey, codec.senderPublicKey, codec.addressOf);
        var unregistered := codec.unregistered(Get(db, UNREGISTERED_KEY).value);
        var reserveAmount := Legacy.ReserveAmount(FindReserve(accounts), unregistered);
        && (forall a :: a in accounts <==> Holds(db, codec, a))
        && ExactStores(assets, accounts, keys, reserveAmount, snapshotHeight, tokenID)
  {
    match InitSpec(db, codec, supplyOnEntry, snapshotHeight, tokenID)
    case Failed(_) =>
    case Created(assets) =>
      var accounts := SnapshotAccounts(db, codec.account);
      var keys := StoredValidatorKeys(accounts, db, codec.generatorPublicKey, codec.senderPublicKey, codec.addressOf);
      var unregistered := codec.unregistered(Get(db, UNREGISTERED_KEY).value);
      SnapshotAccountsExact(db, codec.account);
      BuildStoresExact(accounts, unregistered, keys, assets.genesis, snapshotHeight, tokenID, supplyOnEntry);
  }

  /** The delegates of the round two before the one the snapshot height belongs to. */
  function RoundDelegates(rounds: seq<VoteRound>, snapshotHeight: nat): seq<Bytes> {
    match Pos.FindRound(rounds, Pos.Ceiling(snapshotHeight, 103) - 2) case None => [] case Some(w) => w.delegates
  }

  /** The validators that were meant: banned accounts left out by address. */
  function IntendedValidators(accounts: seq<Account>, delegates: seq<Bytes>): seq<Bytes> {
    Pos.InitValidators(Pos.ByValue, BanRecords(accounts), FreshBuffers(|accounts|, delegates))
  }

  /**
   The initial validators `init` emits: the byte-sorted first 101 delegates of the round two
   before the snapshot's. They are the intended ones exactly when none of those 101 is banned.
  */
  lemma CreatedInitValidators(
      db: Database, codec: Codec, supplyOnEntry: nat, snapshotHeight: nat, tokenID: Latin1)
    requires AccountKeyed(db, AccountAddress(codec.account))
    ensures match InitSpec(db, codec, supplyOnEntry, snapshotHeight, tokenID)
      case Failed(_) => true
      case Created(assets) =>
        var accounts := SnapshotAccounts(db, codec.account);
        var delegates := RoundDelegates(codec.voteWeights(Get(db, VOTE_WEIGHTS_KEY).value), snapshotHeight);
        var r := assets.genesis.initValidators;
        && Sorted(BytesAtMost, r)
        && multiset(r) == multiset(Take(delegates, 101))
        && (r == IntendedValidators(accounts, delegates)
          <==> forall v :: v in Take(delegates, 101) ==> !Pos.BannedAddress(BanRecords(accounts), v))
  {
    match InitSpec(db, codec, supplyOnEntry, snapshotHeight, tokenID)
    case Failed(_) =>
    case Created(assets) =>
      var accounts := SnapshotAccounts(db, codec.account);
      var delegates := RoundDelegates(codec.voteWeights(Get(db, VOTE_WEIGHTS_KEY).value), snapshotHeight);
      BytesOrder();
      SortSorts(BytesAtMost, Take(delegates, 101));
      assert assets.genesis.initValidators == Sort(BytesAtMost, Take(delegates, 101));
      SnapshotDistinct(db, codec.account);
      IntendedIff(accounts, delegates);
  }

  lemma IntendedIff(accounts: seq<Account>, delegates: seq<Bytes>)
    requires DistinctAddresses(accounts)
    ensures Sort(BytesAtMost, Take(delegates, 101)) == IntendedValidators(accounts, delegates)
      <==> forall v :: v in Take(delegates, 101) ==> !Pos.BannedAddress(BanRecords(accounts), v)
  {
    var records, buffers := BanRecords(accounts), FreshBuffers(|accounts|, delegates);
    Pos.IdentityLookupIgnoresBans(records, buffers);
    Pos.IdentitySelectsAll(records, buffers);
    assert Collect(Pos.BytesOf, buffers) == delegates;
    Pos.IdentityMeetsIntentIff(records, buffers);
    var first := Take(buffers, 101);
    assert |first| == |Take(delegates, 101)|;
    assert forall i :: 0 <= i < |first| ==> first[i].bytes == Take(delegates, 101)[i];
    forall v | v in Take(delegates, 101) ensures exists d :: d in first && d.bytes == v {
      var i :| 0 <= i < |first| && Take(delegates, 101)[i] == v;
      assert first[i] in first;
    }
  }

  // ----- Failing inputs -----

  /** An account that holds nothing but a balance. */
  function PlainAccount(address: Bytes, balance: nat): Account {
    Account(address, balance, 0, [], [], 0, Delegate("", [], 0, 0, false, 0), [], [])
  }

  lemma PlainHoldings(address: Bytes, balance: nat)
    ensures Sum(Holdings, [PlainAccount(address, balance)]) == balance
    ensures DistinctAddresses([PlainAccount(address, balance)])
  {
    var a := PlainAccount(address, balance);
    SumOne(Holdings, a);
    assert Sum(Token.VoteAmount, a.sentVotes) == 0 && Sum(Token.UnlockAmount, a.unlocking) == 0;
  }

  /** A reserve account with balance 5 and nothing else: a supply of 10 out of a v3 total of 5. */
  lemma ReserveCountedTwice(genesis: Pos.GenesisData)
    ensures var accounts := [PlainAccount(ADDRESS_LEGACY_RESERVE, 5)];
      Parse(Build(accounts, [], map[], genesis, 0, "", 0).totalSupply) == 10 && V3Total(accounts, []) == 5
  {
    var accounts := [PlainAccount(ADDRESS_LEGACY_RESERVE, 5)];
    PlainHoldings(ADDRESS_LEGACY_RESERVE, 5);
    assert FindReserve(accounts) == Some(accounts[0]);
    SupplyConserved(accounts, [], map[], genesis, 0, "", 0);
  }

  /** The same single account twice in one process: the second supply counts it twice. */
  lemma SecondCallInflates(genesis: Pos.GenesisData)
    ensures var accounts := [PlainAccount([1], 5)];
      var first := Build(accounts, [], map[], genesis, 0, "", 0);
      var second := Build(accounts, [], map[], genesis, 0, "", 0 + 5);
      && Sum(Holdings, accounts) == 5
      && Parse(first.totalSupply) == SubstoreTotal(first.userSubstore) == 5
      && Parse(second.totalSupply) == 10 && SubstoreTotal(second.userSubstore) == 5
  {
    var accounts := [PlainAccount([1], 5)];
    PlainHoldings([1], 5);
    assert !IsReserve(accounts[0]) && accounts[1..] == [] && FindReserve(accounts[1..]) == None;
    SupplyConserved(accounts, [], map[], genesis, 0, "", 0);
    SupplyConserved(accounts, [], map[], genesis, 0, "", 5);
  }

  /** Two calls of `init`: the second enters with what the first one added. */
  method InitTwice(
      db: Database, codec: Codec, snapshotHeight: nat, tokenID: Latin1, pageSize: nat, schedules: Schedules)
    returns (first: InitResult, second: InitResult)
    requires WellFormed(db) && AccountKeyed(db, AccountAddress(codec.account)) && pageSize >= 1
    ensures first.Created? && second.Created? ==>
      && first.assets.userSubstore == second.assets.userSubstore
      && Parse(first.assets.totalSupply) == SubstoreTotal(first.assets.userSubstore)
      && Parse(second.assets.totalSupply)
        == SubstoreTotal(second.assets.userSubstore) + Sum(Holdings, SnapshotAccounts(db, codec.account))
  {
    var state := new ModuleState();
    first := Init(db, codec, state, snapshotHeight, tokenID, pageSize, schedules);
    ghost var between := state.totalLSKSupply;
    second := Init(db, codec, state, snapshotHeight, tokenID, pageSize, schedules);
    CreatedAssetsAreSound(db, codec, 0, snapshotHeight, tokenID);
    CreatedAssetsAreSound(db, codec, between, snapshotHeight, tokenID);
  }
}
