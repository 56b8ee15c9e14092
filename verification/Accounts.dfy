/** The decoded v3 records that the genesis assets are built from (src/types.ts). */
module Accounts {
  import opened ByteStrings
  import opened Sequences
  import opened KeyEncoding

  datatype Vote = Vote(delegateAddress: Bytes, amount: nat)

  datatype Unlock = Unlock(delegateAddress: Bytes, amount: nat, unvoteHeight: nat)

  datatype Delegate = Delegate(
    username: string, pomHeights: seq<nat>, consecutiveMissedBlocks: nat,
    lastForgedHeight: nat, isBanned: bool, totalVotesReceived: nat)

  datatype Account = Account(
    address: Bytes, balance: nat, nonce: nat,
    mandatoryKeys: seq<Bytes>, optionalKeys: seq<Bytes>, numberOfSignatures: nat,
    delegate: Delegate, sentVotes: seq<Vote>, unlocking: seq<Unlock>)

  /** The first 20 bytes of the SHA-256 hash of "legacyReserve". */
  const ADDRESS_LEGACY_RESERVE: Bytes :=
    [2, 232, 124, 102, 157, 99, 52, 129, 252, 153, 242, 178, 213, 203, 47, 88, 125, 150, 251, 172]

  const RESERVE_TEXT := "02e87c669d633481fc99f2b2d5cb2f587d96fbac"

  /** The address in hex. */
  lemma ReserveAddressIs()
    ensures |ADDRESS_LEGACY_RESERVE| == 20
    ensures forall i :: 0 <= i < 20 ==> HexPairFor(RESERVE_TEXT, 2 * i, ADDRESS_LEGACY_RESERVE[i])
  {
    FirstHalf();
    SecondHalf();
  }

  lemma FirstHalf()
    ensures forall i :: 0 <= i < 10 ==> HexPairFor(RESERVE_TEXT, 2 * i, ADDRESS_LEGACY_RESERVE[i])
  {
  }

  lemma SecondHalf()
    ensures forall i :: 10 <= i < 20 ==> HexPairFor(RESERVE_TEXT, 2 * i, ADDRESS_LEGACY_RESERVE[i])
  {
  }

  predicate IsReserve(a: Account) {
    a.address == ADDRESS_LEGACY_RESERVE
  }

  /** `accounts.find(...)`: the first reserve account. */
  function FindReserve(accounts: seq<Account>): Option<Account> {
    if accounts == [] then None
    else if IsReserve(accounts[0]) then Some(accounts[0])
    else FindReserve(accounts[1..])
  }

  ghost predicate DistinctAddresses(accounts: seq<Account>) {
    forall i, j :: 0 <= i < j < |accounts| ==> accounts[i].address != accounts[j].address
  }

  lemma {:induction false} FindReserveMember(accounts: seq<Account>)
    ensures match FindReserve(accounts)
      case None => forall a :: a in accounts ==> !IsReserve(a)
      case Some(a) => a in accounts && IsReserve(a)
  {
    if accounts == [] {
    } else {
      FindReserveMember(accounts[1..]);
      assert accounts == [accounts[0]] + accounts[1..];
    }
  }

  lemma SameAddressSameAccount(accounts: seq<Account>, a: Account, b: Account)
    requires DistinctAddresses(accounts) && a in accounts && b in accounts && a.address == b.address
    ensures a == b
  {
    var i :| 0 <= i < |accounts| && accounts[i] == a;
    var j :| 0 <= j < |accounts| && accounts[j] == b;
    assert i == j;
  }

  lemma SameMembers<T>(s: seq<T>, t: seq<T>, x: T)
    requires multiset(s) == multiset(t)
    ensures x in s <==> x in t
  {
    assert x in multiset(s) <==> x in s;
    assert x in multiset(t) <==> x in t;
  }

  lemma FindReservePermutation(accounts: seq<Account>, other: seq<Account>)
    requires DistinctAddresses(accounts) && multiset(accounts) == multiset(other)
    ensures FindReserve(accounts) == FindReserve(other)
  {
    FindReserveMember(accounts);
    FindReserveMember(other);
    if FindReserve(accounts).Some? { SameMembers(accounts, other, FindReserve(accounts).value); }
    if FindReserve(other).Some? { SameMembers(accounts, other, FindReserve(other).value); }
    if FindReserve(accounts).Some? && FindReserve(other).Some? {
      SameAddressSameAccount(accounts, FindReserve(accounts).value, FindReserve(other).value);
    }
  }

  // ----- Orders used by the comparators -----

  predicate BytesAtMost(a: Bytes, b: Bytes) {
    AtMost(a, b)
  }

  lemma BytesOrder()
    ensures TotalPreorder(BytesAtMost)
  {
    forall a: Bytes, b: Bytes ensures BytesAtMost(a, b) || BytesAtMost(b, a) { LessTotal(a, b); }
    forall a: Bytes, b: Bytes, c: Bytes | BytesAtMost(a, b) && BytesAtMost(b, c) ensures BytesAtMost(a, c) {
      AtMostTransitive(a, b, c);
    }
  }

  lemma AtMostAntisymmetric(a: Bytes, b: Bytes)
    requires AtMost(a, b) && AtMost(b, a)
    ensures a == b
  {
    if a != b { LessAsymmetric(a, b); }
  }
}
