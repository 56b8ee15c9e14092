/**
 Looking up a block header by height (src/utils/block.ts:80-89) and reading the accounts
 (src/createAsset.ts:95-107): what the encoded keys find in a consistent database.
*/
module BlockIndex {
  import opened ByteStrings
  import opened Sequences
  import opened Store
  import opened KeyEncoding
  import opened PagedScan
  import BigEndian

  const DB_KEY_BLOCKS_HEIGHT: Latin1 := "blocks:height"
  const DB_KEY_ACCOUNTS_ADDRESS: Latin1 := "accounts:address"
  const BINARY_ADDRESS_LENGTH := 20

  // ----- Header by height -----

  datatype HeaderResult<H> =
    | Found(header: H, id: Bytes)
    | BadHeight(error: FormatError)
    | NotFound

  /** `getBlockHeaderByHeight`: the height index gives the id, the id index the header. */
  method GetBlockHeaderByHeight<H>(db: Database, decode: Bytes -> H, height: int) returns (r: HeaderResult<H>)
    ensures r == HeaderAt(db, DB_KEY_BLOCKS_HEIGHT, DB_KEY_BLOCKS_ID, decode, height)
  {
    var formatted := FormatInt(Number(height));
    if formatted.Rejected? { return BadHeight(formatted.error); }
    var id := Get(db, BufferFrom(DB_KEY_BLOCKS_HEIGHT + ":" + formatted.text));
    if id == None { return NotFound; }
    var header := Get(db, BufferFrom(DB_KEY_BLOCKS_ID + ":" + KeyString(id.value)));
    if header == None { return NotFound; }
    return Found(decode(header.value), id.value);
  }

  function HeaderAt<H>(
      db: Database, heights: Latin1, ids: Latin1, decode: Bytes -> H, height: int): HeaderResult<H>
  {
    if Format(Number(height)).Rejected? then BadHeight(Format(Number(height)).error)
    else match Get(db, NumberKey(heights, Number(height)))
      case None => NotFound
      case Some(id) =>
        match Get(db, DbKey(ids, id))
        case None => NotFound
        case Some(header) => Found(decode(header), id)
  }

  /** A block as the chain knows it: its id and its encoded header. */
  datatype Block = Block(id: Bytes, header: Bytes)

  ghost predicate HeightRecord(heights: Latin1, chain: map<nat, Block>, h: nat, r: Record) {
    && h in chain && Format(Number(h)).Text?
    && r.key == NumberKey(heights, Number(h)) && r.value == chain[h].id
  }

  ghost predicate IdRecord(ids: Latin1, chain: map<nat, Block>, h: nat, r: Record) {
    h in chain && r.key == DbKey(ids, chain[h].id) && r.value == chain[h].header
  }

  /** The two indexes hold the records of the chain, and below the height prefix no others. */
  ghost predicate Indexed(db: Database, heights: Latin1, ids: Latin1, chain: map<nat, Block>) {
    && Ascending(db)
    && (forall h :: h in chain ==> exists r :: r in db && HeightRecord(heights, chain, h, r))
    && (forall h :: h in chain ==> exists r :: r in db && IdRecord(ids, chain, h, r))
    && (forall r :: r in db && Head(heights) <= r.key ==> exists h: nat :: HeightRecord(heights, chain, h, r))
  }

  lemma HeightRecordOfKey(
      db: Database, heights: Latin1, ids: Latin1, chain: map<nat, Block>, height: nat, r: Record)
    requires Indexed(db, heights, ids, chain) && Format(Number(height)).Text?
    requires r in db && r.key == NumberKey(heights, Number(height))
    ensures height in chain
  {
    NumberKeyHead(heights, Number(height));
    var h: nat :| HeightRecord(heights, chain, h, r);
    NumberKeyInjective(heights, h, height);
  }

  /** The lookup returns the header and id stored for the height, and fails for every other height. */
  lemma HeaderAtIsExact<H>(
      db: Database, heights: Latin1, ids: Latin1, chain: map<nat, Block>, decode: Bytes -> H, height: int)
    requires Indexed(db, heights, ids, chain)
    ensures HeaderAt(db, heights, ids, decode, height) ==
      if height < 0 then BadHeight(NegativeNumber)
      else if height >= 0x1_0000_0000 then BadHeight(OutOfRange)
      else if height in chain then Found(decode(chain[height].header), chain[height].id)
      else NotFound
  {
    FormatRange(height);
    if height in chain {
      HeaderOfChainHeight(db, heights, ids, chain, decode, height);
    } else if 0 <= height < 0x1_0000_0000 {
      NoRecordForHeight(db, heights, ids, chain, height);
    }
  }

  lemma HeaderOfChainHeight<H>(
      db: Database, heights: Latin1, ids: Latin1, chain: map<nat, Block>, decode: Bytes -> H, height: nat)
    requires Indexed(db, heights, ids, chain) && height in chain
    ensures HeaderAt(db, heights, ids, decode, height) == Found(decode(chain[height].header), chain[height].id)
    ensures Format(Number(height)).Text?
  {
    var r :| r in db && HeightRecord(heights, chain, height, r);
    GetFinds(db, r);
    var q :| q in db && IdRecord(ids, chain, height, q);
    GetFinds(db, q);
  }

  lemma NoRecordForHeight(db: Database, heights: Latin1, ids: Latin1, chain: map<nat, Block>, height: nat)
    requires Indexed(db, heights, ids, chain) && height !in chain && Format(Number(height)).Text?
    ensures Get(db, NumberKey(heights, Number(height))) == None
  {
    forall r | r in db ensures r.key != NumberKey(heights, Number(height)) {
      if r.key == NumberKey(heights, Number(height)) {
        HeightRecordOfKey(db, heights, ids, chain, height, r);
      }
    }
    GetMisses(db, NumberKey(heights, Number(height)));
  }

  /** The height index gives the id for the height, in four big-endian bytes. */
  ghost predicate HeightGives(db: Database, height: int, id: Bytes) {
    exists d: Bytes :: |d| == 4 && BigEndian.Value(d) == height && StoredAt(db, "blocks:height", d, id)
  }

  /** What the lookup returns on any database, in terms of what its keys spell. */
  lemma HeaderAtReads<H>(db: Database, decode: Bytes -> H, height: int)
    requires Ascending(db)
    ensures match HeaderAt(db, DB_KEY_BLOCKS_HEIGHT, DB_KEY_BLOCKS_ID, decode, height)
      case BadHeight(NegativeNumber) => height < 0
      case BadHeight(OutOfRange) => height >= 0x1_0000_0000
      case NotFound =>
        && 0 <= height < 0x1_0000_0000
        && forall id, header :: HeightGives(db, height, id) ==> !StoredAt(db, "blocks:id", id, header)
      case Found(found, id) =>
        && HeightGives(db, height, id)
        && exists header :: StoredAt(db, "blocks:id", id, header) && found == decode(header)
  {
    FormatRange(height);
    if Format(Number(height)).Text? {
      HeightReads(db, height);
      forall id: Bytes
        ensures match Get(db, DbKey(DB_KEY_BLOCKS_ID, id))
          case None => forall header :: !StoredAt(db, "blocks:id", id, header)
          case Some(v) => forall header :: StoredAt(db, "blocks:id", id, header) <==> header == v {
        GetReads(db, DB_KEY_BLOCKS_ID, id);
      }
    }
  }

  lemma HeightReads(db: Database, height: nat)
    requires Ascending(db) && Format(Number(height)).Text?
    ensures match Get(db, NumberKey(DB_KEY_BLOCKS_HEIGHT, Number(height)))
      case None => forall id :: !HeightGives(db, height, id)
      case Some(v) => forall id :: HeightGives(db, height, id) <==> id == v
  {
    var digits := BigEndian.Digits(height, 4);
    BigEndian.DigitsValue(height, 4);
    GetReads(db, DB_KEY_BLOCKS_HEIGHT, digits);
    forall d: Bytes | |d| == 4 && BigEndian.Value(d) == height ensures d == digits {
      BigEndian.OrderIsNumeric(d, digits);
    }
    forall id ensures HeightGives(db, height, id) <==> StoredAt(db, "blocks:height", digits, id) {}
  }

  // ----- The account range -----

  /** Every record under the accounts prefix is keyed by the address its value decodes to. */
  ghost predicate AccountKeyed(db: Database, addressOf: Bytes -> Bytes) {
    && Ascending(db)
    && forall r :: r in db && Head(DB_KEY_ACCOUNTS_ADDRESS) <= r.key ==>
      r.key == DbKey(DB_KEY_ACCOUNTS_ADDRESS, addressOf(r.value))
  }

  function AccountRange(db: Database): Database {
    Range(db, FirstKey(DB_KEY_ACCOUNTS_ADDRESS, BINARY_ADDRESS_LENGTH),
      LastKey(DB_KEY_ACCOUNTS_ADDRESS, BINARY_ADDRESS_LENGTH))
  }

  /**
   Range scan and length filter together select exactly the 20-byte-address accounts, though
   shorter and longer addresses also fall into the range.
  */
  lemma AccountScanIsExact(db: Database, addressOf: Bytes -> Bytes, r: Record)
    requires AccountKeyed(db, addressOf)
    ensures r in AccountRange(db) && |addressOf(r.value)| == BINARY_ADDRESS_LENGTH
      <==> r in db && Head(DB_KEY_ACCOUNTS_ADDRESS) <= r.key && |addressOf(r.value)| == BINARY_ADDRESS_LENGTH
  {
    var p, w := DB_KEY_ACCOUNTS_ADDRESS, BINARY_ADDRESS_LENGTH;
    RangeMember(db, FirstKey(p, w), LastKey(p, w), r);
    DbKeyShape(p, Filled(w, 0));
    DbKeyShape(p, Filled(w, 255));
    if r in AccountRange(db) {
      BetweenKeepsPrefix(Head(p), Spell(Utf8Unit, Filled(w, 0)), r.key, Spell(Utf8Unit, Filled(w, 255)));
    }
    if r in db && Head(p) <= r.key && |addressOf(r.value)| == w {
      KeyInRange(p, addressOf(r.value));
    }
  }

  /** Accounts in the range have pairwise different addresses. */
  lemma AccountAddressesDiffer(db: Database, addressOf: Bytes -> Bytes, i: nat, j: nat)
    requires AccountKeyed(db, addressOf) && i < j < |AccountRange(db)|
    ensures addressOf(AccountRange(db)[i].value) != addressOf(AccountRange(db)[j].value)
  {
    var p, w, all := DB_KEY_ACCOUNTS_ADDRESS, BINARY_ADDRESS_LENGTH, AccountRange(db);
    RangeAscending(db, FirstKey(p, w), LastKey(p, w));
    LessAsymmetric(all[i].key, all[j].key);
    DbKeyShape(p, Filled(w, 0));
    DbKeyShape(p, Filled(w, 255));
    forall k | k == i || k == j ensures all[k].key == DbKey(p, addressOf(all[k].value)) {
      RangeMember(db, FirstKey(p, w), LastKey(p, w), all[k]);
      BetweenKeepsPrefix(Head(p), Spell(Utf8Unit, Filled(w, 0)), all[k].key, Spell(Utf8Unit, Filled(w, 255)));
    }
  }
}
