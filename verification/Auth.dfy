/** The auth store (src/assets/auth.ts). */
module Auth {
  import opened ByteStrings
  import opened Sequences
  import opened KeyEncoding
  import opened Decimal
  import opened Accounts

  datatype AuthEntry = AuthEntry(
    address: Bytes, numberOfSignatures: nat,
    mandatoryKeys: seq<Latin1>, optionalKeys: seq<Latin1>, nonce: Decimal)

  /** `keys.map(keyMapper)` */
  function HexTexts(keys: seq<Bytes>): (texts: seq<Latin1>)
    ensures |texts| == |keys|
  {
    seq(|keys|, i requires 0 <= i < |keys| => ToHex(keys[i]))
  }

  function Entry(a: Account): AuthEntry {
    AuthEntry(
      a.address, a.numberOfSignatures,
      HexTexts(Sort(BytesAtMost, a.mandatoryKeys)), HexTexts(Sort(BytesAtMost, a.optionalKeys)), Print(a.nonce))
  }

  function EntryOf(a: Account): Option<AuthEntry> {
    Some(Entry(a))
  }

  /** The `keys` object of a decoded account. Its arrays are sorted where they are. */
  class AccountKeys {
    var mandatoryKeys: seq<Bytes>
    var optionalKeys: seq<Bytes>
    const numberOfSignatures: nat

    constructor (a: Account)
      ensures mandatoryKeys == a.mandatoryKeys && optionalKeys == a.optionalKeys
      ensures numberOfSignatures == a.numberOfSignatures
    {
      mandatoryKeys, optionalKeys, numberOfSignatures := a.mandatoryKeys, a.optionalKeys, a.numberOfSignatures;
    }
  }

  /** `getAuthModuleEntryBuffer`: as a side effect the account's own key arrays end up sorted. */
  method GetAuthModuleEntryBuffer(account: Account, keys: AccountKeys) returns (e: AuthEntry)
    requires keys.mandatoryKeys == account.mandatoryKeys && keys.optionalKeys == account.optionalKeys
    requires keys.numberOfSignatures == account.numberOfSignatures
    modifies keys
    ensures e == Entry(account)
    ensures keys.mandatoryKeys == Sort(BytesAtMost, old(keys.mandatoryKeys))
    ensures keys.optionalKeys == Sort(BytesAtMost, old(keys.optionalKeys))
  {
    keys.mandatoryKeys := Sort(BytesAtMost, keys.mandatoryKeys);
    keys.optionalKeys := Sort(BytesAtMost, keys.optionalKeys);
    e := AuthEntry(
      account.address, keys.numberOfSignatures,
      HexTexts(keys.mandatoryKeys), HexTexts(keys.optionalKeys), Print(account.nonce));
  }

  function Decoded(texts: seq<Latin1>): (keys: seq<Bytes>)
    ensures |keys| == |texts|
  {
    seq(|texts|, i requires 0 <= i < |texts| => FromHex(texts[i]))
  }

  /**
   The stored texts decode to a permutation of the account's keys, and are themselves in
   ascending string order, because hex text sorts as bytes do.
  */
  lemma KeyTexts(keys: seq<Bytes>)
    ensures var texts := HexTexts(Sort(BytesAtMost, keys));
      && multiset(Decoded(texts)) == multiset(keys)
      && forall i, j :: 0 <= i < j < |texts| ==> AtMost(Units(texts[i]), Units(texts[j]))
  {
    BytesOrder();
    SortSorts(BytesAtMost, keys);
    var sorted := Sort(BytesAtMost, keys);
    var texts := HexTexts(sorted);
    forall i | 0 <= i < |texts| ensures FromHex(texts[i]) == sorted[i] { HexRoundTrip(sorted[i]); }
    assert Decoded(texts) == sorted;
    forall i, j | 0 <= i < j < |texts| ensures AtMost(Units(texts[i]), Units(texts[j])) {
      assert BytesAtMost(sorted[i], sorted[j]);
      HexOrder(sorted[i], sorted[j]);
    }
  }
}
