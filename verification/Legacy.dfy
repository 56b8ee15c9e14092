/** The legacy store and the reserve total it caches (src/assets/legacy.ts). */
module Legacy {
  import opened ByteStrings
  import opened Sequences
  import opened KeyEncoding
  import opened Decimal
  import opened Accounts
  import Token

  datatype Unregistered = Unregistered(address: Bytes, balance: nat)

  datatype LegacyBuffer = LegacyBuffer(address: Bytes, balance: Decimal)

  datatype LegacyEntry = LegacyEntry(address: Latin1, balance: Decimal)

  function UnregisteredBalance(u: Unregistered): int {
    u.balance
  }

  function BufferOf(u: Unregistered): Option<LegacyBuffer> {
    Some(LegacyBuffer(u.address, Print(u.balance)))
  }

  function EntryOf(b: LegacyBuffer): Option<LegacyEntry> {
    Some(LegacyEntry(ToHex(b.address), b.balance))
  }

  predicate LegacyAtMost(a: LegacyBuffer, b: LegacyBuffer) {
    AtMost(a.address, b.address)
  }

  function Entries(unregistered: seq<Unregistered>): seq<LegacyEntry> {
    Collect(EntryOf, Sort(LegacyAtMost, Collect(BufferOf, unregistered)))
  }

  lemma {:induction false} BalancesNotNegative(unregistered: seq<Unregistered>)
    ensures Sum(UnregisteredBalance, unregistered) >= 0
  {
    if unregistered == [] {
    } else {
      BalancesNotNegative(unregistered[1..]);
    }
  }

  /** The reserve account's balance and all unregistered balances. */
  function ReserveAmount(reserve: Option<Account>, unregistered: seq<Unregistered>): nat {
    BalancesNotNegative(unregistered);
    Token.ReserveBalance(reserve) + Sum(UnregisteredBalance, unregistered)
  }

  /** The module variable of src/assets/legacy.ts. */
  class LegacyModule {
    var legacyReserveAmount: nat

    constructor ()
      ensures legacyReserveAmount == 0
    {
      legacyReserveAmount := 0;
    }

    /** `getLegacyModuleEntry`: the total is reset, whatever it was, and counted up while mapping. */
    method GetLegacyModuleEntry(unregistered: seq<Unregistered>, reserve: Option<Account>)
      returns (entries: seq<LegacyEntry>)
      modifies this
      ensures legacyReserveAmount == ReserveAmount(reserve, unregistered)
      ensures entries == Entries(unregistered) && IsStoreOf(entries, unregistered)
    {
      legacyReserveAmount := if reserve.Some? then reserve.value.balance else 0;
      var legacyAccounts: seq<LegacyBuffer> := [];
      for i := 0 to |unregistered|
        invariant legacyReserveAmount == Token.ReserveBalance(reserve) + Sum(UnregisteredBalance, unregistered[..i])
        invariant legacyAccounts == Collect(BufferOf, unregistered[..i])
      {
        var account := unregistered[i];
        assert unregistered[..i + 1] == unregistered[..i] + [account];
        SumAppend(UnregisteredBalance, unregistered[..i], [account]);
        SumOne(UnregisteredBalance, account);
        CollectAppend(BufferOf, unregistered[..i], [account]);
        CollectOne(BufferOf, account);
        legacyReserveAmount := legacyReserveAmount + account.balance;
        legacyAccounts := legacyAccounts + [LegacyBuffer(account.address, Print(account.balance))];
      }
      assert unregistered[..|unregistered|] == unregistered;
      entries := Collect(EntryOf, Sort(LegacyAtMost, legacyAccounts));
      EntriesAre(unregistered);
    }
  }

  // ----- Properties -----

  lemma LegacyOrder()
    ensures TotalPreorder(LegacyAtMost)
  {
    forall a: LegacyBuffer, b: LegacyBuffer ensures LegacyAtMost(a, b) || LegacyAtMost(b, a) {
      LessTotal(a.address, b.address);
    }
    forall a: LegacyBuffer, b: LegacyBuffer, c: LegacyBuffer | LegacyAtMost(a, b) && LegacyAtMost(b, c)
      ensures LegacyAtMost(a, c) {
      AtMostTransitive(a.address, b.address, c.address);
    }
  }

  function EntryBalance(e: LegacyEntry): int {
    Parse(e.balance)
  }

  function BufferBalance(b: LegacyBuffer): int {
    Parse(b.balance)
  }

  /** The reserve amount is backed: the legacy store, read back, and the reserve's own balance. */
  lemma ReserveIsBacked(reserve: Option<Account>, unregistered: seq<Unregistered>)
    ensures ReserveAmount(reserve, unregistered)
      == Token.ReserveBalance(reserve) + Sum(EntryBalance, Entries(unregistered))
  {
    var buffers := Collect(BufferOf, unregistered);
    forall u | u in unregistered ensures BufferBalance(BufferOf(u).value) == UnregisteredBalance(u) {
      PrintParse(u.balance);
    }
    SumCollect(BufferOf, BufferBalance, UnregisteredBalance, unregistered);
    LegacyOrder();
    SortSorts(LegacyAtMost, buffers);
    SumPermutation(BufferBalance, Sort(LegacyAtMost, buffers), buffers);
    SumCollect(EntryOf, EntryBalance, BufferBalance, Sort(LegacyAtMost, buffers));
  }

  /** An entry read back. */
  function ReadEntry(e: LegacyEntry): Unregistered {
    Unregistered(FromHex(e.address), Parse(e.balance))
  }

  function ReadEntries(entries: seq<LegacyEntry>): (r: seq<Unregistered>)
    ensures |r| == |entries|
  {
    seq(|entries|, i requires 0 <= i < |entries| => ReadEntry(entries[i]))
  }

  function ReadBuffer(b: LegacyBuffer): Option<Unregistered> {
    Some(Unregistered(b.address, Parse(b.balance)))
  }

  lemma BuffersReadBack(unregistered: seq<Unregistered>)
    ensures Collect(ReadBuffer, Collect(BufferOf, unregistered)) == unregistered
  {
    var buffers := Collect(BufferOf, unregistered);
    CollectTotal(BufferOf, unregistered);
    CollectTotal(ReadBuffer, buffers);
    forall i | 0 <= i < |unregistered| ensures Collect(ReadBuffer, buffers)[i] == unregistered[i] {
      PrintParse(unregistered[i].balance);
    }
  }

  lemma EntriesReadBack(sorted: seq<LegacyBuffer>)
    ensures ReadEntries(Collect(EntryOf, sorted)) == Collect(ReadBuffer, sorted)
  {
    CollectTotal(EntryOf, sorted);
    CollectTotal(ReadBuffer, sorted);
    forall i | 0 <= i < |sorted|
      ensures ReadEntry(Collect(EntryOf, sorted)[i]) == Collect(ReadBuffer, sorted)[i] {
      HexRoundTrip(sorted[i].address);
    }
  }

  /** Those of one address, in their order. */
  function OfAddress(address: Bytes, s: seq<Unregistered>): seq<Unregistered> {
    Filter((u: Unregistered) => u.address == address, s)
  }

  /**
   The entries ascend by the text of their address. Read back they are the unregistered
   addresses with their balances, and those of one address keep the order in which they are
   listed. The texts are hex in small letters and plain numerals.
  */
  ghost predicate IsStoreOf(entries: seq<LegacyEntry>, unregistered: seq<Unregistered>) {
    && (forall i, j :: 0 <= i < j < |entries| ==> AtMost(Units(entries[i].address), Units(entries[j].address)))
    && multiset(ReadEntries(entries)) == multiset(unregistered)
    && (forall address: Bytes :: OfAddress(address, ReadEntries(entries)) == OfAddress(address, unregistered))
    && (forall e :: e in entries ==> e.address == ToHex(FromHex(e.address)) && IsNumeral(e.balance))
  }

  lemma EntriesAre(unregistered: seq<Unregistered>)
    ensures IsStoreOf(Entries(unregistered), unregistered)
  {
    var buffers := Collect(BufferOf, unregistered);
    var sorted := Sort(LegacyAtMost, buffers);
    LegacyOrder();
    SortSorts(LegacyAtMost, buffers);
    BuffersReadBack(unregistered);
    EntriesReadBack(sorted);
    CollectPermutation(ReadBuffer, sorted, buffers);
    EntriesAscend(sorted);
    EntriesAreTexts(unregistered);
    forall address: Bytes
      ensures OfAddress(address, ReadEntries(Entries(unregistered))) == OfAddress(address, unregistered) {
      EntriesOfAddress(unregistered, address);
    }
  }

  lemma EntriesAscend(sorted: seq<LegacyBuffer>)
    requires Sorted(LegacyAtMost, sorted)
    ensures var entries := Collect(EntryOf, sorted);
      forall i, j :: 0 <= i < j < |entries| ==> AtMost(Units(entries[i].address), Units(entries[j].address))
  {
    var entries := Collect(EntryOf, sorted);
    CollectTotal(EntryOf, sorted);
    forall i, j | 0 <= i < j < |entries| ensures AtMost(Units(entries[i].address), Units(entries[j].address)) {
      assert LegacyAtMost(sorted[i], sorted[j]);
      HexOrder(sorted[i].address, sorted[j].address);
    }
  }

  lemma EntriesAreTexts(unregistered: seq<Unregistered>)
    ensures forall e :: e in Entries(unregistered) ==> e.address == ToHex(FromHex(e.address)) && IsNumeral(e.balance)
  {
    var buffers := Collect(BufferOf, unregistered);
    var sorted := Sort(LegacyAtMost, buffers);
    forall e | e in Entries(unregistered) ensures e.address == ToHex(FromHex(e.address)) && IsNumeral(e.balance) {
      CollectMember(EntryOf, sorted, e);
      var b :| b in sorted && EntryOf(b) == Some(e);
      SortMember(LegacyAtMost, buffers, b);
      CollectMember(BufferOf, unregistered, b);
      var u :| u in unregistered && BufferOf(u) == Some(b);
      HexRoundTrip(b.address);
      PrintIsNumeral(u.balance);
    }
  }

  /** The sort is stable: the entries of one address. */
  lemma EntriesOfAddress(unregistered: seq<Unregistered>, address: Bytes)
    ensures OfAddress(address, ReadEntries(Entries(unregistered))) == OfAddress(address, unregistered)
  {
    var tied := (b: LegacyBuffer) => b.address == address;
    var listed := (u: Unregistered) => u.address == address;
    var buffers := Collect(BufferOf, unregistered);
    var sorted := Sort(LegacyAtMost, buffers);
    SortStable(LegacyAtMost, buffers, tied);
    EntriesReadBack(sorted);
    BuffersReadBack(unregistered);
    FilterCollect(ReadBuffer, listed, tied, sorted);
    FilterCollect(ReadBuffer, listed, tied, buffers);
  }

  /** Equal addresses have equal balances. */
  ghost predicate BalancesAgree(unregistered: seq<Unregistered>) {
    forall u, v :: u in unregistered && v in unregistered && u.address == v.address ==> u.balance == v.balance
  }

  lemma EntriesPermutation(unregistered: seq<Unregistered>, other: seq<Unregistered>)
    requires multiset(unregistered) == multiset(other) && BalancesAgree(unregistered)
    ensures Entries(unregistered) == Entries(other)
  {
    CollectPermutation(BufferOf, unregistered, other);
    LegacyOrder();
    var buffers := Collect(BufferOf, unregistered);
    forall x, y | x in buffers && y in buffers && LegacyAtMost(x, y) && LegacyAtMost(y, x) ensures x == y {
      AtMostAntisymmetric(x.address, y.address);
      CollectMember(BufferOf, unregistered, x);
      CollectMember(BufferOf, unregistered, y);
    }
    SortIsCanonical(LegacyAtMost, buffers, Collect(BufferOf, other));
  }

  /** The store tells the sorted buffers apart. */
  lemma {:induction false} EntriesInjective(s: seq<LegacyBuffer>, t: seq<LegacyBuffer>)
    requires Collect(EntryOf, s) == Collect(EntryOf, t)
    ensures s == t
  {
    if s == [] || t == [] {
    } else {
      var rest, rest' := Collect(EntryOf, s[1..]), Collect(EntryOf, t[1..]);
      assert Collect(EntryOf, s) == [EntryOf(s[0]).value] + rest;
      assert Collect(EntryOf, t) == [EntryOf(t[0]).value] + rest';
      assert Collect(EntryOf, s)[0] == Collect(EntryOf, t)[0];
      assert Collect(EntryOf, s)[1..] == rest && Collect(EntryOf, t)[1..] == rest';
      HexOrder(s[0].address, t[0].address);
      EntriesInjective(s[1..], t[1..]);
      assert s == [s[0]] + s[1..] && t == [t[0]] + t[1..];
    }
  }

  /** Of the entries of one address, the one listed first comes first. */
  lemma FirstOfAddress(u: Unregistered, rest: seq<Unregistered>)
    ensures var tied := (b: LegacyBuffer) => b.address == u.address;
      var kept := Filter(tied, Sort(LegacyAtMost, Collect(BufferOf, [u] + rest)));
      kept != [] && kept[0] == BufferOf(u).value
  {
    var tied := (b: LegacyBuffer) => b.address == u.address;
    CollectAppend(BufferOf, [u], rest);
    CollectOne(BufferOf, u);
    SortStable(LegacyAtMost, Collect(BufferOf, [u] + rest), tied);
    FilterCons(tied, BufferOf(u).value, Collect(BufferOf, rest));
  }

  /** Two entries brought to the front. */
  lemma BringToFront(unregistered: seq<Unregistered>, u: Unregistered, v: Unregistered)
    returns (rest: seq<Unregistered>)
    requires u in unregistered && v in unregistered && u != v
    ensures multiset([u] + ([v] + rest)) == multiset([v] + ([u] + rest)) == multiset(unregistered)
  {
    var others := BringOne(unregistered, u);
    assert v in multiset{u} + multiset(others) by { assert v in multiset(unregistered); }
    assert v in multiset(others);
    rest := BringOne(others, v);
    TwoInFront(u, v, rest);
  }

  lemma BringOne<T>(s: seq<T>, x: T) returns (rest: seq<T>)
    requires x in s
    ensures multiset(s) == multiset{x} + multiset(rest)
  {
    var l, r := SplitAt(s, x);
    rest := l + r;
  }

  lemma TwoInFront<T>(u: T, v: T, rest: seq<T>)
    ensures multiset([u] + ([v] + rest)) == multiset([v] + ([u] + rest)) == multiset{u} + (multiset{v} + multiset(rest))
  {
  }

  /** Whichever of two balances comes first shows. */
  lemma FrontShows(u: Unregistered, v: Unregistered, rest: seq<Unregistered>, rest': seq<Unregistered>)
    requires u.address == v.address && u.balance != v.balance
    ensures Entries([u] + rest) != Entries([v] + rest')
  {
    FirstOfAddress(u, rest);
    FirstOfAddress(v, rest');
    PrintParse(u.balance);
    PrintParse(v.balance);
    assert BufferOf(u).value != BufferOf(v).value;
    var s, t := Sort(LegacyAtMost, Collect(BufferOf, [u] + rest)), Sort(LegacyAtMost, Collect(BufferOf, [v] + rest'));
    if Collect(EntryOf, s) == Collect(EntryOf, t) { EntriesInjective(s, t); }
  }

  /** Two balances of one address: two orders give different stores. */
  lemma TwoBalancesShow(unregistered: seq<Unregistered>, u: Unregistered, v: Unregistered)
    returns (first: seq<Unregistered>, second: seq<Unregistered>)
    requires u in unregistered && v in unregistered && u.address == v.address && u.balance != v.balance
    ensures multiset(first) == multiset(second) == multiset(unregistered)
    ensures Entries(first) != Entries(second)
  {
    var rest := BringToFront(unregistered, u, v);
    first, second := [u] + ([v] + rest), [v] + ([u] + rest);
    FrontShows(u, v, [v] + rest, [u] + rest);
  }

  /** Exactly when the store does not depend on the order of the unregistered addresses. */
  lemma EntriesCanonicalIff(unregistered: seq<Unregistered>)
    ensures (forall other :: multiset(other) == multiset(unregistered) ==> Entries(other) == Entries(unregistered))
      <==> BalancesAgree(unregistered)
  {
    if BalancesAgree(unregistered) {
      forall other | multiset(other) == multiset(unregistered) ensures Entries(other) == Entries(unregistered) {
        EntriesPermutation(unregistered, other);
      }
    } else {
      var u, v :| u in unregistered && v in unregistered && u.address == v.address && u.balance != v.balance;
      var first, second := TwoBalancesShow(unregistered, u, v);
    }
  }
}
