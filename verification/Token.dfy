/** The token store's user entries (src/assets/token.ts). */
module Token {
  import opened ByteStrings
  import opened Sequences
  import opened KeyEncoding
  import opened Decimal
  import opened Accounts

  /** The modules that lock balances, in the order in which `localeCompare` sorts their names. */
  datatype Module = Legacy | Pos

  datatype LockedBalance = LockedBalance(lockedBy: Module, amount: Decimal)

  datatype UserEntry = UserEntry(
    address: Bytes, tokenID: Bytes, availableBalance: Decimal, lockedBalances: seq<LockedBalance>)

  function Rank(m: Module): nat {
    match m case Legacy => 0 case Pos => 1
  }

  predicate ModuleAtMost(a: LockedBalance, b: LockedBalance) {
    Rank(a.lockedBy) <= Rank(b.lockedBy)
  }

  function VoteAmount(v: Vote): int {
    v.amount
  }

  function UnlockAmount(u: Unlock): int {
    u.amount
  }

  lemma {:induction false} VotesNotNegative(votes: seq<Vote>)
    ensures Sum(VoteAmount, votes) >= 0
  {
    if votes == [] {
    } else {
      VotesNotNegative(votes[1..]);
    }
  }

  lemma {:induction false} UnlocksNotNegative(unlocks: seq<Unlock>)
    ensures Sum(UnlockAmount, unlocks) >= 0
  {
    if unlocks == [] {
    } else {
      UnlocksNotNegative(unlocks[1..]);
    }
  }

  /** What an account has locked in the v3 state: votes plus pending unlocks. */
  function Locked(a: Account): (n: nat) {
    VotesNotNegative(a.sentVotes);
    UnlocksNotNegative(a.unlocking);
    Sum(VoteAmount, a.sentVotes) + Sum(UnlockAmount, a.unlocking)
  }

  function LockedBalances(a: Account): seq<LockedBalance> {
    if Locked(a) > 0 then [LockedBalance(Pos, Print(Locked(a)))] else []
  }

  /** `getLockedBalances`: two accumulating loops. */
  method GetLockedBalances(account: Account) returns (r: seq<LockedBalance>)
    ensures r == LockedBalances(account)
  {
    var amount := 0;
    for i := 0 to |account.sentVotes|
      invariant amount == Sum(VoteAmount, account.sentVotes[..i])
    {
      SumAppend(VoteAmount, account.sentVotes[..i], [account.sentVotes[i]]);
      SumOne(VoteAmount, account.sentVotes[i]);
      assert account.sentVotes[..i + 1] == account.sentVotes[..i] + [account.sentVotes[i]];
      amount := amount + account.sentVotes[i].amount;
    }
    assert account.sentVotes[..|account.sentVotes|] == account.sentVotes;
    for i := 0 to |account.unlocking|
      invariant amount == Sum(VoteAmount, account.sentVotes) + Sum(UnlockAmount, account.unlocking[..i])
    {
      SumAppend(UnlockAmount, account.unlocking[..i], [account.unlocking[i]]);
      SumOne(UnlockAmount, account.unlocking[i]);
      assert account.unlocking[..i + 1] == account.unlocking[..i] + [account.unlocking[i]];
      amount := amount + account.unlocking[i].amount;
    }
    assert account.unlocking[..|account.unlocking|] == account.unlocking;
    assert amount == Locked(account);
    if amount > 0 {
      return [LockedBalance(Pos, Print(amount))];
    }
    return [];
  }

  function ReserveBalance(reserve: Option<Account>): nat {
    match reserve case None => 0 case Some(a) => a.balance
  }

  function ReserveEntry(reserve: Option<Account>, reserveAmount: nat, tokenID: Latin1): UserEntry {
    var locked := match reserve case None => [] case Some(a) => LockedBalances(a);
    UserEntry(
      ADDRESS_LEGACY_RESERVE, FromHex(tokenID), Print(ReserveBalance(reserve)),
      Sort(ModuleAtMost, locked + [LockedBalance(Legacy, Print(reserveAmount))]))
  }

  /** `createLegacyReserveAccount` */
  method CreateLegacyReserveAccount(reserve: Option<Account>, reserveAmount: nat, tokenID: Latin1)
    returns (r: UserEntry)
    ensures r == ReserveEntry(reserve, reserveAmount, tokenID)
  {
    var lockedBalances: seq<LockedBalance> := [];
    if reserve.Some? {
      lockedBalances := GetLockedBalances(reserve.value);
    }
    lockedBalances := lockedBalances + [LockedBalance(Legacy, Print(reserveAmount))];
    lockedBalances := Sort(ModuleAtMost, lockedBalances);
    r := UserEntry(
      ADDRESS_LEGACY_RESERVE, FromHex(tokenID), Print(if reserve.Some? then reserve.value.balance else 0),
      lockedBalances);
  }

  /** The locked balances of the reserve are listed in module order, `legacy` first. */
  lemma ReserveLocks(reserve: Option<Account>, reserveAmount: nat, tokenID: Latin1)
    ensures ReserveEntry(reserve, reserveAmount, tokenID).lockedBalances
      == [LockedBalance(Legacy, Print(reserveAmount))]
        + (match reserve case None => [] case Some(a) => LockedBalances(a))
  {
    var legacy := LockedBalance(Legacy, Print(reserveAmount));
    assert [legacy][1..] == [];
    assert Sort(ModuleAtMost, [legacy]) == [legacy] by { assert Sort(ModuleAtMost, [legacy][1..]) == []; }
    if reserve.Some? && LockedBalances(reserve.value) != [] {
      var pos := LockedBalances(reserve.value)[0];
      assert ([pos] + [legacy])[1..] == [legacy];
      assert Insert(ModuleAtMost, pos, [legacy][1..]) == [pos];
      assert Insert(ModuleAtMost, pos, [legacy]) == [legacy] + [pos];
    } else {
      assert [] + [legacy] == [legacy];
    }
  }

  function UserEntryFor(tokenID: Latin1): Account -> Option<UserEntry> {
    (a: Account) =>
      if IsReserve(a) then None
      else Some(UserEntry(a.address, FromHex(tokenID), Print(a.balance), LockedBalances(a)))
  }

  /** `createUserSubstoreArrayEntry`: the reserve account is left to `createLegacyReserveAccount`. */
  method CreateUserSubstoreArrayEntry(account: Account, tokenID: Latin1) returns (r: Option<UserEntry>)
    ensures r == UserEntryFor(tokenID)(account)
  {
    if ADDRESS_LEGACY_RESERVE != account.address {
      var lockedBalances := GetLockedBalances(account);
      return Some(UserEntry(account.address, FromHex(tokenID), Print(account.balance), lockedBalances));
    }
    return None;
  }

  // ----- Reading amounts back from the store -----

  function LockedValue(b: LockedBalance): int {
    Parse(b.amount)
  }

  /** Everything a user entry holds. */
  function EntryTotal(e: UserEntry): int {
    Parse(e.availableBalance) + Sum(LockedValue, e.lockedBalances)
  }

  /** The amount an entry has locked for one module; absent means 0. */
  function LockedFor(m: Module, locked: seq<LockedBalance>): int {
    if locked == [] then 0
    else (if locked[0].lockedBy == m then Parse(locked[0].amount) else 0) + LockedFor(m, locked[1..])
  }

  lemma LockedBalancesValue(a: Account)
    ensures Sum(LockedValue, LockedBalances(a)) == Locked(a)
    ensures LockedFor(Pos, LockedBalances(a)) == Locked(a)
  {
    if Locked(a) > 0 {
      var b := LockedBalance(Pos, Print(Locked(a)));
      PrintParse(Locked(a));
      SumOne(LockedValue, b);
      assert [b][1..] == [];
      assert LockedFor(Pos, [b][1..]) == 0;
    }
  }

  lemma UserEntryTotal(a: Account, tokenID: Latin1)
    requires !IsReserve(a)
    ensures EntryTotal(UserEntryFor(tokenID)(a).value) == a.balance + Locked(a)
  {
    PrintParse(a.balance);
    LockedBalancesValue(a);
  }

  lemma ReserveEntryTotal(reserve: Option<Account>, reserveAmount: nat, tokenID: Latin1)
    ensures EntryTotal(ReserveEntry(reserve, reserveAmount, tokenID))
      == ReserveBalance(reserve) + (match reserve case None => 0 case Some(a) => Locked(a)) + reserveAmount
    ensures LockedFor(Pos, ReserveEntry(reserve, reserveAmount, tokenID).lockedBalances)
      == match reserve case None => 0 case Some(a) => Locked(a)
    ensures LockedFor(Legacy, ReserveEntry(reserve, reserveAmount, tokenID).lockedBalances) == reserveAmount
  {
    ReserveLocks(reserve, reserveAmount, tokenID);
    var legacy := LockedBalance(Legacy, Print(reserveAmount));
    var rest := match reserve case None => [] case Some(a) => LockedBalances(a);
    PrintParse(ReserveBalance(reserve));
    PrintParse(reserveAmount);
    SumAppend(LockedValue, [legacy], rest);
    SumOne(LockedValue, legacy);
    assert ([legacy] + rest)[1..] == rest;
    if reserve.Some? { LockedBalancesValue(reserve.value); }
    assert LockedFor(Legacy, rest) == 0 by {
      if rest != [] {
        assert rest[1..] == [];
        assert LockedFor(Legacy, rest[1..]) == 0;
      }
    }
  }

  // ----- The order of the user substore -----

  predicate UserAtMost(a: UserEntry, b: UserEntry) {
    if a.address == b.address then AtMost(a.tokenID, b.tokenID) else AtMost(a.address, b.address)
  }

  lemma UserOrder()
    ensures TotalPreorder(UserAtMost)
  {
    forall a: UserEntry, b: UserEntry ensures UserAtMost(a, b) || UserAtMost(b, a) {
      LessTotal(a.address, b.address);
      LessTotal(a.tokenID, b.tokenID);
    }
    forall a: UserEntry, b: UserEntry, c: UserEntry | UserAtMost(a, b) && UserAtMost(b, c) ensures UserAtMost(a, c) {
      if a.address == b.address == c.address {
        AtMostTransitive(a.tokenID, b.tokenID, c.tokenID);
      } else {
        AtMostTransitive(a.address, b.address, c.address);
        if a.address == c.address { LessIrreflexive(a.address); }
      }
    }
  }
}
