/** Validators, stakers and the genesis data of the PoS store (src/assets/pos.ts). */
module Pos {
  import opened ByteStrings
  import opened Sequences
  import opened KeyEncoding
  import opened Accounts
  import opened ValidatorKeys
  import Token

  const MAX_COMMISSION := 10000
  const POS_INIT_ROUNDS := 587
  const ROUND_LENGTH := 103
  const NUMBER_ACTIVE_VALIDATORS := 101
  const INVALID_BLS_KEY: Latin1 := ToHex(Filled(48, 0))
  const DUMMY_PROOF_OF_POSSESSION: Latin1 := ToHex(Filled(96, 0))

  datatype SharingCoefficient = SharingCoefficient(tokenID: Latin1, coefficient: Bytes)

  datatype ValidatorEntry = ValidatorEntry(
    address: Bytes, name: string, blsKey: Latin1, proofOfPossession: Latin1, generatorKey: Latin1,
    lastGeneratedHeight: nat, isBanned: bool, reportMisbehaviorHeights: seq<nat>, consecutiveMissedBlocks: nat,
    lastCommissionIncreaseHeight: nat, commission: nat, sharingCoefficients: seq<SharingCoefficient>)

  /** `createValidatorsArrayEntry`: only accounts with a delegate name become validators. */
  function ValidatorFor(keys: map<Latin1, Latin1>, snapshotHeight: nat, tokenID: Latin1)
    : Account -> Option<ValidatorEntry>
  {
    (a: Account) =>
      if !IsDelegate(a) then None
      else Some(ValidatorEntry(
        a.address, a.delegate.username, INVALID_BLS_KEY, DUMMY_PROOF_OF_POSSESSION, GeneratorKey(keys, a.address),
        a.delegate.lastForgedHeight, true, a.delegate.pomHeights, a.delegate.consecutiveMissedBlocks,
        snapshotHeight, MAX_COMMISSION, [SharingCoefficient(tokenID, [])]))
  }

  datatype Stake = Stake(validatorAddress: Bytes, amount: nat, sharingCoefficients: seq<SharingCoefficient>)

  datatype PendingUnlock = PendingUnlock(validatorAddress: Bytes, amount: nat, unstakeHeight: nat)

  datatype Staker = Staker(address: Bytes, stakes: seq<Stake>, pendingUnlocks: seq<PendingUnlock>)

  function StakeOf(tokenID: Latin1): Vote -> Option<Stake> {
    (v: Vote) => Some(Stake(v.delegateAddress, v.amount, [SharingCoefficient(tokenID, [])]))
  }

  predicate StakeAtMost(a: Stake, b: Stake) {
    AtMost(a.validatorAddress, b.validatorAddress)
  }

  /** `getStakes`: stakes in the order of the validator addresses. */
  function Stakes(a: Account, tokenID: Latin1): seq<Stake> {
    Sort(StakeAtMost, Collect(StakeOf(tokenID), a.sentVotes))
  }

  function UnlockOf(u: Unlock): Option<PendingUnlock> {
    Some(PendingUnlock(u.delegateAddress, u.amount, u.unvoteHeight))
  }

  /** `createStakersArrayEntry` */
  function StakerFor(tokenID: Latin1): Account -> Option<Staker> {
    (a: Account) =>
      if a.sentVotes == [] && a.unlocking == [] then None
      else Some(Staker(a.address, Stakes(a, tokenID), Collect(UnlockOf, a.unlocking)))
  }

  // ----- Agreement with the token store -----

  function StakeAmount(s: Stake): int {
    s.amount
  }

  function PendingAmount(u: PendingUnlock): int {
    u.amount
  }

  /** Everything a staker entry holds; absent means 0. */
  function StakerTotal(s: Option<Staker>): int {
    match s
    case None => 0
    case Some(staker) => Sum(StakeAmount, staker.stakes) + Sum(PendingAmount, staker.pendingUnlocks)
  }

  lemma StakeOrder()
    ensures TotalPreorder(StakeAtMost)
  {
    forall a: Stake, b: Stake ensures StakeAtMost(a, b) || StakeAtMost(b, a) {
      LessTotal(a.validatorAddress, b.validatorAddress);
    }
    forall a: Stake, b: Stake, c: Stake | StakeAtMost(a, b) && StakeAtMost(b, c) ensures StakeAtMost(a, c) {
      AtMostTransitive(a.validatorAddress, b.validatorAddress, c.validatorAddress);
    }
  }

  /** A stake read back. */
  function ReadStake(s: Stake): Option<Vote> {
    Some(Vote(s.validatorAddress, s.amount))
  }

  function ReadStakes(stakes: seq<Stake>): seq<Vote> {
    Collect(ReadStake, stakes)
  }

  /** The votes for one delegate, in their order. */
  function VotesFor(delegate: Bytes, votes: seq<Vote>): seq<Vote> {
    Filter((v: Vote) => v.delegateAddress == delegate, votes)
  }

  lemma VotesReadBack(votes: seq<Vote>, tokenID: Latin1)
    ensures ReadStakes(Collect(StakeOf(tokenID), votes)) == votes
  {
    CollectTotal(StakeOf(tokenID), votes);
    CollectTotal(ReadStake, Collect(StakeOf(tokenID), votes));
  }

  /**
   Stakes ascend by validator. Read back they are the account's votes, and those for one
   validator keep the order of the votes. Each shares nothing of the token.
  */
  lemma StakesAreVotes(a: Account, tokenID: Latin1)
    ensures var stakes := Stakes(a, tokenID);
      && (forall i, j :: 0 <= i < j < |stakes| ==> AtMost(stakes[i].validatorAddress, stakes[j].validatorAddress))
      && multiset(ReadStakes(stakes)) == multiset(a.sentVotes)
      && (forall delegate :: VotesFor(delegate, ReadStakes(stakes)) == VotesFor(delegate, a.sentVotes))
      && (forall s :: s in stakes ==> s.sharingCoefficients == [SharingCoefficient(tokenID, [])])
  {
    var listed := Collect(StakeOf(tokenID), a.sentVotes);
    StakeOrder();
    SortSorts(StakeAtMost, listed);
    assert forall i, j :: 0 <= i < j < |Stakes(a, tokenID)| ==>
      StakeAtMost(Stakes(a, tokenID)[i], Stakes(a, tokenID)[j]);
    CollectPermutation(ReadStake, Stakes(a, tokenID), listed);
    VotesReadBack(a.sentVotes, tokenID);
    forall delegate ensures VotesFor(delegate, ReadStakes(Stakes(a, tokenID))) == VotesFor(delegate, a.sentVotes) {
      StakesFor(a, tokenID, delegate);
    }
    forall s | s in Stakes(a, tokenID) ensures s.sharingCoefficients == [SharingCoefficient(tokenID, [])] {
      SortMember(StakeAtMost, listed, s);
      CollectMember(StakeOf(tokenID), a.sentVotes, s);
    }
  }

  lemma StakesFor(a: Account, tokenID: Latin1, delegate: Bytes)
    ensures VotesFor(delegate, ReadStakes(Stakes(a, tokenID))) == VotesFor(delegate, a.sentVotes)
  {
    var listed := Collect(StakeOf(tokenID), a.sentVotes);
    var staked := (s: Stake) => s.validatorAddress == delegate;
    var voted := (v: Vote) => v.delegateAddress == delegate;
    SortStable(StakeAtMost, listed, staked);
    VotesReadBack(a.sentVotes, tokenID);
    FilterCollect(ReadStake, voted, staked, Stakes(a, tokenID));
    FilterCollect(ReadStake, voted, staked, listed);
  }

  /** The staker entry holds what the token store has locked for the same account. */
  lemma StakerTotalIsLocked(a: Account, tokenID: Latin1)
    ensures StakerTotal(StakerFor(tokenID)(a)) == Token.Locked(a)
    ensures Token.LockedFor(Token.Pos, Token.LockedBalances(a)) == StakerTotal(StakerFor(tokenID)(a))
  {
    var stakes := Collect(StakeOf(tokenID), a.sentVotes);
    StakeOrder();
    SortSorts(StakeAtMost, stakes);
    SumPermutation(StakeAmount, Stakes(a, tokenID), stakes);
    SumCollect(StakeOf(tokenID), StakeAmount, Token.VoteAmount, a.sentVotes);
    SumCollect(UnlockOf, PendingAmount, Token.UnlockAmount, a.unlocking);
    Token.LockedBalancesValue(a);
  }

  // ----- Genesis data -----

  /** A JavaScript `Buffer` object: its identity and its bytes. */
  datatype Buffer = Buffer(id: nat, bytes: Bytes)

  datatype BanRecord = BanRecord(address: Buffer, isBanned: bool)

  /** The vote weights of a round: its delegates, as objects or as addresses. */
  datatype VoteWeight<D> = VoteWeight(round: int, delegates: seq<D>)

  /** How a `Map` with `Buffer` keys compares them: what JavaScript does, and what was meant. */
  datatype Lookup = ByIdentity | ByValue

  predicate SameKey(lookup: Lookup, a: Buffer, b: Buffer) {
    match lookup case ByIdentity => a.id == b.id case ByValue => a.bytes == b.bytes
  }

  /** `accountBannedMap.get(key)`: a missing entry is falsy, a later entry replaces an earlier one. */
  predicate IsMarkedBanned(lookup: Lookup, accounts: seq<BanRecord>, key: Buffer) {
    accounts != [] &&
    var last := accounts[|accounts| - 1];
    if SameKey(lookup, last.address, key) then last.isBanned
    else IsMarkedBanned(lookup, accounts[..|accounts| - 1], key)
  }

  function Unbanned(lookup: Lookup, accounts: seq<BanRecord>): Buffer -> Option<Bytes> {
    (d: Buffer) => if IsMarkedBanned(lookup, accounts, d) then None else Some(d.bytes)
  }

  /** `ceiling` */
  function Ceiling(a: int, b: int): int
    requires b > 0
  {
    (a + b - 1) / b
  }

  datatype GenesisData = GenesisData(initRounds: nat, initValidators: seq<Bytes>)

  datatype GenesisResult = Genesis(data: GenesisData) | NoVoteWeights(round: int)

  function FindRound<D>(voteWeights: seq<VoteWeight<D>>, round: int): Option<VoteWeight<D>> {
    if voteWeights == [] then None
    else if voteWeights[0].round == round then Some(voteWeights[0])
    else FindRound(voteWeights[1..], round)
  }

  function InitValidators(lookup: Lookup, accounts: seq<BanRecord>, delegates: seq<Buffer>): seq<Bytes> {
    Sort(BytesAtMost, Take(Collect(Unbanned(lookup, accounts), delegates), NUMBER_ACTIVE_VALIDATORS))
  }

  function GenesisOf(
      lookup: Lookup, accounts: seq<BanRecord>, voteWeights: seq<VoteWeight<Buffer>>, snapshotHeight: int)
    : GenesisResult
  {
    var round := Ceiling(snapshotHeight, ROUND_LENGTH) - 2;
    match FindRound(voteWeights, round)
    case None => NoVoteWeights(round)
    case Some(w) =>
      if w.delegates == [] then NoVoteWeights(round)
      else Genesis(GenesisData(POS_INIT_ROUNDS, InitValidators(lookup, accounts, w.delegates)))
  }

  /** `createGenesisDataObj` */
  method CreateGenesisDataObj(
      lookup: Lookup, accounts: seq<BanRecord>, voteWeights: seq<VoteWeight<Buffer>>, snapshotHeight: int)
    returns (r: GenesisResult)
    ensures r == GenesisOf(lookup, accounts, voteWeights, snapshotHeight)
    ensures IsGenesisOf(r, lookup, accounts, voteWeights, snapshotHeight)
  {
    GenesisOutcome(lookup, accounts, voteWeights, snapshotHeight);
    var round := Ceiling(snapshotHeight, ROUND_LENGTH) - 2;
    var voteWeightR2 := FindRound(voteWeights, round);
    if voteWeightR2 == None || voteWeightR2.value.delegates == [] {
      return NoVoteWeights(round);
    }
    var initValidators := SelectDelegates(lookup, accounts, voteWeightR2.value.delegates);
    return Genesis(GenesisData(POS_INIT_ROUNDS, Sort(BytesAtMost, Take(initValidators, NUMBER_ACTIVE_VALIDATORS))));
  }

  /** The loop over the delegates of the round. */
  method SelectDelegates(lookup: Lookup, accounts: seq<BanRecord>, delegates: seq<Buffer>)
    returns (initValidators: seq<Bytes>)
    ensures initValidators == Collect(Unbanned(lookup, accounts), delegates)
  {
    initValidators := [];
    for i := 0 to |delegates|
      invariant initValidators == Collect(Unbanned(lookup, accounts), delegates[..i])
    {
      assert delegates[..i + 1] == delegates[..i] + [delegates[i]];
      CollectAppend(Unbanned(lookup, accounts), delegates[..i], [delegates[i]]);
      CollectOne(Unbanned(lookup, accounts), delegates[i]);
      if !IsMarkedBanned(lookup, accounts, delegates[i]) {
        initValidators := initValidators + [delegates[i].bytes];
      }
    }
    assert delegates[..|delegates|] == delegates;
  }

  /** The first entry of the round. */
  ghost predicate FirstOfRound<D>(voteWeights: seq<VoteWeight<D>>, round: int, i: nat) {
    && i < |voteWeights| && voteWeights[i].round == round
    && forall j :: 0 <= j < i ==> voteWeights[j].round != round
  }

  lemma {:induction false} FindRoundIs<D>(voteWeights: seq<VoteWeight<D>>, round: int)
    ensures match FindRound(voteWeights, round)
      case None => forall i: nat :: !FirstOfRound(voteWeights, round, i)
      case Some(w) => exists i: nat :: FirstOfRound(voteWeights, round, i) && voteWeights[i] == w
  {
    if voteWeights == [] {
    } else if voteWeights[0].round == round {
      assert FirstOfRound(voteWeights, round, 0);
    } else {
      FindRoundIs(voteWeights[1..], round);
      forall i: nat
        ensures FirstOfRound(voteWeights, round, i) <==> i > 0 && FirstOfRound(voteWeights[1..], round, i - 1) {
        FirstOfRoundInTail(voteWeights, round, i);
      }
      match FindRound(voteWeights[1..], round)
      case None =>
      case Some(w) =>
        var i: nat :| FirstOfRound(voteWeights[1..], round, i) && voteWeights[1..][i] == w;
        assert FirstOfRound(voteWeights, round, i + 1);
    }
  }

  lemma FirstOfRoundInTail<D>(voteWeights: seq<VoteWeight<D>>, round: int, i: nat)
    requires voteWeights != [] && voteWeights[0].round != round
    ensures FirstOfRound(voteWeights, round, i) <==> i > 0 && FirstOfRound(voteWeights[1..], round, i - 1)
  {
    if i > 0 && FirstOfRound(voteWeights[1..], round, i - 1) {
      forall j | 0 <= j < i ensures voteWeights[j].round != round {
        assert j > 0 ==> voteWeights[j] == voteWeights[1..][j - 1];
      }
    }
    if FirstOfRound(voteWeights, round, i) {
      forall j | 0 <= j < i - 1 ensures voteWeights[1..][j].round != round {
        assert voteWeights[1..][j] == voteWeights[j + 1];
      }
    }
  }

  /** Two rounds before the one the height belongs to; a round has 103 blocks. */
  function GenesisRound(height: int): int {
    (height + 102) / 103 - 2
  }

  /** There is genesis data exactly when the first entry of the round has delegates. */
  ghost predicate IsGenesisOf(
      r: GenesisResult, lookup: Lookup, accounts: seq<BanRecord>, voteWeights: seq<VoteWeight<Buffer>>,
      snapshotHeight: int)
  {
    var round := GenesisRound(snapshotHeight);
    match r
    case NoVoteWeights(failed) =>
      failed == round && forall i: nat :: FirstOfRound(voteWeights, round, i) ==> voteWeights[i].delegates == []
    case Genesis(data) =>
      && data.initRounds == 587
      && exists i: nat ::
        && FirstOfRound(voteWeights, round, i) && voteWeights[i].delegates != []
        && data.initValidators == InitValidators(lookup, accounts, voteWeights[i].delegates)
  }

  lemma GenesisOutcome(
      lookup: Lookup, accounts: seq<BanRecord>, voteWeights: seq<VoteWeight<Buffer>>, snapshotHeight: int)
    ensures IsGenesisOf(
      GenesisOf(lookup, accounts, voteWeights, snapshotHeight), lookup, accounts, voteWeights, snapshotHeight)
  {
    var round := GenesisRound(snapshotHeight);
    FindRoundIs(voteWeights, round);
    forall i: nat, j: nat | FirstOfRound(voteWeights, round, i) && FirstOfRound(voteWeights, round, j) ensures i == j {
      if i < j {} else if j < i {}
    }
  }

  /** The round two before the one the snapshot height belongs to. */
  lemma CeilingIsRound(height: int, round: int)
    ensures Ceiling(height, ROUND_LENGTH) == round <==> (round - 1) * ROUND_LENGTH < height <= round * ROUND_LENGTH
  {
  }

  lemma InitValidatorsSorted(lookup: Lookup, accounts: seq<BanRecord>, delegates: seq<Buffer>)
    ensures var selected := Collect(Unbanned(lookup, accounts), delegates);
      var r := InitValidators(lookup, accounts, delegates);
      && Sorted(BytesAtMost, r)
      && multiset(r) == multiset(Take(selected, NUMBER_ACTIVE_VALIDATORS))
      && |r| == if |selected| < 101 then |selected| else 101
  {
    BytesOrder();
    SortSorts(BytesAtMost, Take(Collect(Unbanned(lookup, accounts), delegates), NUMBER_ACTIVE_VALIDATORS));
  }

  // ----- Ban lookup: meant and actual -----

  /** Some account with these bytes as its address is banned. */
  ghost predicate BannedAddress(accounts: seq<BanRecord>, address: Bytes) {
    exists a :: a in accounts && a.address.bytes == address && a.isBanned
  }

  ghost predicate DistinctBytes(accounts: seq<BanRecord>) {
    forall i, j :: 0 <= i < j < |accounts| ==> accounts[i].address.bytes != accounts[j].address.bytes
  }

  /** No account's address is the same object as a delegate's: they were decoded separately. */
  ghost predicate FreshlyDecoded(accounts: seq<BanRecord>, delegates: seq<Buffer>) {
    forall a, d :: a in accounts && d in delegates ==> a.address.id != d.id
  }

  lemma {:induction false} ByValueMarksBanned(accounts: seq<BanRecord>, key: Buffer)
    requires DistinctBytes(accounts)
    ensures IsMarkedBanned(ByValue, accounts, key) <==> BannedAddress(accounts, key.bytes)
  {
    if accounts == [] {
    } else {
      var n := |accounts| - 1;
      ByValueMarksBanned(accounts[..n], key);
      assert accounts == accounts[..n] + [accounts[n]];
      if a :| a in accounts && a.address.bytes == key.bytes && a.isBanned {
        assert a == accounts[n] || a in accounts[..n];
        if a != accounts[n] {
          var i :| 0 <= i < n && accounts[..n][i] == a;
          assert accounts[i] == a;
        }
      }
    }
  }

  lemma {:induction false} ByIdentityMarksNothing(accounts: seq<BanRecord>, key: Buffer)
    requires forall a :: a in accounts ==> a.address.id != key.id
    ensures !IsMarkedBanned(ByIdentity, accounts, key)
  {
    if accounts == [] {
    } else {
      ByIdentityMarksNothing(accounts[..|accounts| - 1], key);
    }
  }

  /** Lookup by value would keep every banned delegate out. */
  lemma ByValueSelectsUnbanned(accounts: seq<BanRecord>, delegates: seq<Buffer>, v: Bytes)
    requires DistinctBytes(accounts)
    ensures v in Collect(Unbanned(ByValue, accounts), delegates)
      <==> !BannedAddress(accounts, v) && exists d :: d in delegates && d.bytes == v
    ensures v in InitValidators(ByValue, accounts, delegates) ==> !BannedAddress(accounts, v)
  {
    var f := Unbanned(ByValue, accounts);
    var selected := Collect(f, delegates);
    CollectMember(f, delegates, v);
    forall d: Buffer ensures IsMarkedBanned(ByValue, accounts, d) <==> BannedAddress(accounts, d.bytes) {
      ByValueMarksBanned(accounts, d);
    }
    if d :| d in delegates && d.bytes == v && !BannedAddress(accounts, v) {
      assert f(d) == Some(v);
    }
    InitValidatorsSorted(ByValue, accounts, delegates);
    SameMembers(InitValidators(ByValue, accounts, delegates), Take(selected, NUMBER_ACTIVE_VALIDATORS), v);
  }

  function BytesOf(d: Buffer): Option<Bytes> {
    Some(d.bytes)
  }

  lemma {:induction false} IdentitySelectsAll(accounts: seq<BanRecord>, delegates: seq<Buffer>)
    requires FreshlyDecoded(accounts, delegates)
    ensures Collect(Unbanned(ByIdentity, accounts), delegates) == Collect(BytesOf, delegates)
    ensures |Collect(BytesOf, delegates)| == |delegates|
    ensures forall i :: 0 <= i < |delegates| ==> Collect(BytesOf, delegates)[i] == delegates[i].bytes
  {
    if delegates == [] {
    } else {
      assert delegates[0] in delegates;
      ByIdentityMarksNothing(accounts, delegates[0]);
      IdentitySelectsAll(accounts, delegates[1..]);
    }
  }

  lemma IdentityMember(accounts: seq<BanRecord>, delegates: seq<Buffer>, v: Bytes)
    requires FreshlyDecoded(accounts, delegates)
    ensures v in InitValidators(ByIdentity, accounts, delegates)
      <==> exists i :: 0 <= i < |delegates| && i < NUMBER_ACTIVE_VALIDATORS && delegates[i].bytes == v
  {
    IdentitySelectsAll(accounts, delegates);
    InitValidatorsSorted(ByIdentity, accounts, delegates);
    var first := Take(Collect(BytesOf, delegates), NUMBER_ACTIVE_VALIDATORS);
    SameMembers(InitValidators(ByIdentity, accounts, delegates), first, v);
    if i :| 0 <= i < |delegates| && i < NUMBER_ACTIVE_VALIDATORS && delegates[i].bytes == v {
      assert first[i] == v;
    }
    if v in first {
      var i :| 0 <= i < |first| && first[i] == v;
      assert delegates[i].bytes == v;
    }
  }

  /**
   What the code does: with separately decoded buffers the filter keeps everyone, so the
   validators are the first 101 delegates whatever the accounts say.
  */
  lemma IdentityLookupIgnoresBans(accounts: seq<BanRecord>, delegates: seq<Buffer>)
    requires FreshlyDecoded(accounts, delegates)
    ensures InitValidators(ByIdentity, accounts, delegates)
      == Sort(BytesAtMost, Take(Collect(BytesOf, delegates), NUMBER_ACTIVE_VALIDATORS))
  {
    IdentitySelectsAll(accounts, delegates);
  }

  /** Where nobody is banned, lookup by value keeps everyone too. */
  lemma {:induction false} ByValueSelectsAll(accounts: seq<BanRecord>, delegates: seq<Buffer>)
    requires DistinctBytes(accounts)
    requires forall d :: d in delegates ==> !BannedAddress(accounts, d.bytes)
    ensures Collect(Unbanned(ByValue, accounts), delegates) == Collect(BytesOf, delegates)
  {
    if delegates == [] {
    } else {
      ByValueMarksBanned(accounts, delegates[0]);
      assert delegates[0] in delegates;
      ByValueSelectsAll(accounts, delegates[1..]);
    }
  }

  lemma {:induction false} CollectBytesLength(delegates: seq<Buffer>)
    ensures |Collect(BytesOf, delegates)| == |delegates|
  {
    if delegates == [] {
    } else {
      CollectBytesLength(delegates[1..]);
    }
  }

  /** Only the first `n` delegates matter if lookup by value keeps them all. */
  lemma FirstUnbanned(accounts: seq<BanRecord>, delegates: seq<Buffer>, n: nat)
    requires DistinctBytes(accounts)
    requires forall d :: d in Take(delegates, n) ==> !BannedAddress(accounts, d.bytes)
    ensures Take(Collect(Unbanned(ByValue, accounts), delegates), n) == Take(Collect(BytesOf, delegates), n)
  {
    var first := Take(delegates, n);
    var rest := delegates[|first|..];
    assert delegates == first + rest;
    ByValueSelectsAll(accounts, first);
    CollectAppend(Unbanned(ByValue, accounts), first, rest);
    CollectAppend(BytesOf, first, rest);
    CollectBytesLength(first);
    var kept := Collect(BytesOf, first);
    if |delegates| <= n {
      assert rest == [];
      assert kept + [] == kept;
    } else {
      assert (kept + Collect(Unbanned(ByValue, accounts), rest))[..n] == kept;
      assert (kept + Collect(BytesOf, rest))[..n] == kept;
    }
  }

  /**
   Exactly when the lookup by identity gives the validators that were meant: no banned
   delegate is among the first 101.
  */
  lemma IdentityMeetsIntentIff(accounts: seq<BanRecord>, delegates: seq<Buffer>)
    requires DistinctBytes(accounts) && FreshlyDecoded(accounts, delegates)
    ensures InitValidators(ByIdentity, accounts, delegates) == InitValidators(ByValue, accounts, delegates)
      <==> forall d :: d in Take(delegates, NUMBER_ACTIVE_VALIDATORS) ==> !BannedAddress(accounts, d.bytes)
  {
    var first := Take(delegates, NUMBER_ACTIVE_VALIDATORS);
    if forall d :: d in first ==> !BannedAddress(accounts, d.bytes) {
      IdentitySelectsAll(accounts, delegates);
      FirstUnbanned(accounts, delegates, NUMBER_ACTIVE_VALIDATORS);
    } else {
      var d :| d in first && BannedAddress(accounts, d.bytes);
      var i :| 0 <= i < |first| && first[i] == d;
      assert delegates[i] == d;
      IdentityMember(accounts, delegates, d.bytes);
      ByValueSelectsUnbanned(accounts, delegates, d.bytes);
    }
  }

  /** A banned delegate that gets through. */
  lemma BannedDelegateGetsThrough()
    ensures var accounts, delegates := [BanRecord(Buffer(0, [7]), true)], [Buffer(1, [7])];
      && DistinctBytes(accounts) && FreshlyDecoded(accounts, delegates) && BannedAddress(accounts, [7])
      && [7] in InitValidators(ByIdentity, accounts, delegates)
      && [7] !in InitValidators(ByValue, accounts, delegates)
  {
    var accounts, delegates := [BanRecord(Buffer(0, [7]), true)], [Buffer(1, [7])];
    assert accounts[0] in accounts;
    assert delegates[0].bytes == [7];
    IdentityMember(accounts, delegates, [7]);
    ByValueSelectsUnbanned(accounts, delegates, [7]);
  }
}
