/**
 The paged key scan (src/utils/block.ts:41-78, src/utils/transaction.ts:38-75): read a page,
 resume at `incrementOne` of its last key, stop at the first empty page.

 Resuming at the successor steps over whatever lies in the gap before it. The scan is
 therefore complete for every page size exactly when no record lies in the gap of its
 predecessor, and the way keys are encoded guarantees that.
*/
module PagedScan {
  import opened ByteStrings
  import opened Sequences
  import opened Store
  import opened Increment
  import opened KeyEncoding
  import opened EventLoop

  // ----- Which records the scan visits -----

  datatype Outcome = Done(visited: Database, pages: nat) | Overflow

  ghost function Scan(db: Database, start: Bytes, last: Bytes, pageSize: nat): Outcome
    requires Ascending(db)
    decreases |Range(db, start, last)|
  {
    var page := ReadStream(db, start, last, pageSize);
    if page == [] then Done([], 1)
    else match Successor(KeyAfter(start, page))
      case None => Overflow
      case Some(next) =>
        ResumeShrinks(db, start, last, pageSize);
        match Scan(db, next, last, pageSize)
        case Overflow => Overflow
        case Done(visited, pages) => Done(page + visited, pages + 1)
  }

  /** What is left at the successor of a page's last key is what follows the page, or less. */
  lemma ResumeDropsPage(db: Database, start: Bytes, last: Bytes, pageSize: nat) returns (m: nat)
    requires Ascending(db)
    requires ReadStream(db, start, last, pageSize) != []
    requires Successor(KeyAfter(start, ReadStream(db, start, last, pageSize))).Some?
    ensures var page, all := ReadStream(db, start, last, pageSize), Range(db, start, last);
      var next := Successor(KeyAfter(start, page)).value;
      && |page| <= m <= |all|
      && Range(db, next, last) == all[m..]
      && (m < |all| ==> AtMost(next, all[m].key))
      && (forall k :: |page| <= k < m ==> Less(all[k].key, next))
  {
    var page, all := ReadStream(db, start, last, pageSize), Range(db, start, last);
    var n := |page| - 1;
    var next := Successor(all[n].key).value;
    IncrementIsSuccessor(all[n].key);
    RangeMember(db, start, last, all[n]);
    AtMostTransitive(start, all[n].key, next);
    m := RangeSuffix(db, start, next, last);
    if m <= n { NotAtMost(next, all[n].key); }
  }

  lemma ResumeShrinks(db: Database, start: Bytes, last: Bytes, pageSize: nat)
    requires Ascending(db)
    requires ReadStream(db, start, last, pageSize) != []
    requires Successor(KeyAfter(start, ReadStream(db, start, last, pageSize))).Some?
    ensures var next := Successor(KeyAfter(start, ReadStream(db, start, last, pageSize))).value;
      |Range(db, next, last)| < |Range(db, start, last)|
  {
    var m := ResumeDropsPage(db, start, last, pageSize);
  }

  /** An outcome with what was visited before it. */
  ghost function After(visited: Database, pages: nat, o: Outcome): Outcome {
    match o
    case Overflow => Overflow
    case Done(v, n) => Done(visited + v, pages + n)
  }

  /** One turn of the loop. */
  lemma AfterPage(
      visited: Database, pages: nat, db: Database, start: Bytes, last: Bytes, pageSize: nat, next: Bytes)
    requires Ascending(db) && ReadStream(db, start, last, pageSize) != []
    requires Successor(KeyAfter(start, ReadStream(db, start, last, pageSize))) == Some(next)
    ensures After(visited, pages, Scan(db, start, last, pageSize))
      == After(visited + ReadStream(db, start, last, pageSize), pages + 1, Scan(db, next, last, pageSize))
  {
    var page := ReadStream(db, start, last, pageSize);
    match Scan(db, next, last, pageSize)
    case Overflow =>
    case Done(v, n) => assert visited + (page + v) == visited + page + v;
  }

  /** A scan that starts with a page is that page and the scan from its successor. */
  lemma ScanUnfolds(db: Database, start: Bytes, last: Bytes, pageSize: nat)
    requires Ascending(db) && ReadStream(db, start, last, pageSize) != []
    ensures var page := ReadStream(db, start, last, pageSize);
      match Successor(KeyAfter(start, page))
      case None => Scan(db, start, last, pageSize) == Overflow
      case Some(next) =>
        match Scan(db, next, last, pageSize)
        case Overflow => Scan(db, start, last, pageSize) == Overflow
        case Done(visited, pages) => Scan(db, start, last, pageSize) == Done(page + visited, pages + 1)
  {
  }

  lemma ScanOfNothing(db: Database, start: Bytes, last: Bytes, pageSize: nat)
    requires Ascending(db) && Range(db, start, last) == []
    ensures Scan(db, start, last, pageSize) == Done([], 1)
  {
  }

  lemma ScanFromPage(
      db: Database, start: Bytes, last: Bytes, pageSize: nat, next: Bytes, rest: Database, pages: nat)
    requires Ascending(db) && ReadStream(db, start, last, pageSize) != []
    requires Successor(KeyAfter(start, ReadStream(db, start, last, pageSize))) == Some(next)
    requires Scan(db, next, last, pageSize) == Done(rest, pages)
    ensures Scan(db, start, last, pageSize) == Done(ReadStream(db, start, last, pageSize) + rest, pages + 1)
  {
  }

  // ----- When it is complete -----

  /** The record after record `i` does not lie in the gap before the successor of its key. */
  predicate NoGapAfter(all: Database, i: nat)
    requires i < |all|
  {
    match Successor(all[i].key)
    case None => false
    case Some(next) => i + 1 < |all| ==> AtMost(next, all[i + 1].key)
  }

  ghost predicate GapFree(all: Database) {
    forall i :: 0 <= i < |all| ==> NoGapAfter(all, i)
  }

  /** Number of non-empty pages. */
  function Pages(n: nat, pageSize: nat): nat
    requires pageSize >= 1
  {
    if n == 0 then 0 else 1 + Pages(if pageSize < n then n - pageSize else 0, pageSize)
  }

  lemma QuotientIs(x: int, d: int, q: int)
    requires d > 0 && q * d <= x < q * d + d
    ensures x / d == q
  {
    var q' := x / d;
    assert x == q' * d + x % d;
    if q' < q { TimesMonotonic(q' + 1, q, d); }
    if q < q' { TimesMonotonic(q + 1, q', d); }
  }

  lemma TimesMonotonic(a: int, b: int, d: int)
    requires a <= b && d > 0
    ensures a * d <= b * d
  {
  }

  lemma {:induction false} PagesIsCeiling(n: nat, pageSize: nat)
    requires pageSize >= 1
    ensures Pages(n, pageSize) == (n + pageSize - 1) / pageSize
  {
    if n <= pageSize {
      QuotientIs(n + pageSize - 1, pageSize, if n == 0 then 0 else 1);
    } else {
      PagesIsCeiling(n - pageSize, pageSize);
      var q := Pages(n - pageSize, pageSize);
      assert n - 1 == q * pageSize + (n - 1) % pageSize;
      assert (q + 1) * pageSize == q * pageSize + pageSize;
      QuotientIs(n + pageSize - 1, pageSize, q + 1);
    }
  }

  /** In a gap-free range the scan resumes right after the page. */
  lemma GapFreeResume(db: Database, start: Bytes, last: Bytes, pageSize: nat)
    requires Ascending(db) && pageSize >= 1 && GapFree(Range(db, start, last))
    requires Range(db, start, last) != []
    ensures var page, all := ReadStream(db, start, last, pageSize), Range(db, start, last);
      && Successor(KeyAfter(start, page)).Some?
      && Range(db, Successor(KeyAfter(start, page)).value, last) == all[|page|..]
  {
    var page, all := ReadStream(db, start, last, pageSize), Range(db, start, last);
    assert NoGapAfter(all, |page| - 1);
    var next := Successor(KeyAfter(start, page)).value;
    var m := ResumeDropsPage(db, start, last, pageSize);
    if m > |page| { NotAtMost(next, all[|page|].key); }
  }

  lemma GapFreeTail(all: Database, n: nat)
    requires GapFree(all) && n <= |all|
    ensures GapFree(all[n..])
  {
    forall i | 0 <= i < |all[n..]| ensures NoGapAfter(all[n..], i) {
      assert NoGapAfter(all, n + i);
    }
  }

  /** A page is a prefix of what there is, and counts for one. */
  lemma TakeSplits(all: Database, pageSize: nat)
    requires all != [] && pageSize >= 1
    ensures var page := Take(all, pageSize);
      && page != [] && page + all[|page|..] == all
      && Pages(|all|, pageSize) == Pages(|all| - |page|, pageSize) + 1
  {
  }

  /** Where the scan of a gap-free range goes on, and what is left of it. */
  lemma GapFreeNext(db: Database, start: Bytes, last: Bytes, pageSize: nat) returns (next: Bytes)
    requires Ascending(db) && pageSize >= 1 && GapFree(Range(db, start, last)) && Range(db, start, last) != []
    ensures ReadStream(db, start, last, pageSize) != []
    ensures Successor(KeyAfter(start, ReadStream(db, start, last, pageSize))) == Some(next)
    ensures GapFree(Range(db, next, last)) && |Range(db, next, last)| < |Range(db, start, last)|
    ensures Done(
        ReadStream(db, start, last, pageSize) + Range(db, next, last), Pages(|Range(db, next, last)|, pageSize) + 1 + 1)
      == Done(Range(db, start, last), Pages(|Range(db, start, last)|, pageSize) + 1)
  {
    var all, page := Range(db, start, last), ReadStream(db, start, last, pageSize);
    GapFreeResume(db, start, last, pageSize);
    GapFreeTail(all, |page|);
    TakeSplits(all, pageSize);
    next := Successor(KeyAfter(start, page)).value;
  }

  lemma {:induction false} GapFreeScan(db: Database, start: Bytes, last: Bytes, pageSize: nat)
    requires Ascending(db) && pageSize >= 1 && GapFree(Range(db, start, last))
    ensures Scan(db, start, last, pageSize)
      == Done(Range(db, start, last), Pages(|Range(db, start, last)|, pageSize) + 1)
    decreases |Range(db, start, last)|
  {
    if Range(db, start, last) == [] {
      ScanOfNothing(db, start, last, pageSize);
    } else {
      var next := GapFreeNext(db, start, last, pageSize);
      GapFreeScan(db, next, last, pageSize);
      var rest := Range(db, next, last);
      ScanFromPage(db, start, last, pageSize, next, rest, Pages(|rest|, pageSize) + 1);
    }
  }

  /** The scan never goes back below its starting key. */
  lemma ScanFirst(db: Database, start: Bytes, last: Bytes, pageSize: nat)
    requires Ascending(db)
    requires Scan(db, start, last, pageSize).Done? && Scan(db, start, last, pageSize).visited != []
    ensures AtMost(start, Scan(db, start, last, pageSize).visited[0].key)
  {
    var all := Range(db, start, last);
    RangeMember(db, start, last, all[0]);
  }

  ghost predicate VisitsAll(db: Database, start: Bytes, last: Bytes, pageSize: nat)
    requires Ascending(db)
  {
    Scan(db, start, last, pageSize).Done? && Scan(db, start, last, pageSize).visited == Range(db, start, last)
  }

  /**
   Exactly when the scan can be relied on: it visits the whole range whatever the page size
   if and only if the range is free of gaps.
  */
  lemma CompleteIffGapFree(db: Database, start: Bytes, last: Bytes)
    requires Ascending(db)
    ensures GapFree(Range(db, start, last)) <==>
      forall pageSize: nat :: pageSize >= 1 ==> VisitsAll(db, start, last, pageSize)
  {
    var all := Range(db, start, last);
    if GapFree(all) {
      forall pageSize: nat | pageSize >= 1 ensures VisitsAll(db, start, last, pageSize) {
        GapFreeScan(db, start, last, pageSize);
      }
    } else {
      var i :| 0 <= i < |all| && !NoGapAfter(all, i);
      if VisitsAll(db, start, last, i + 1) { PageBoundaryGap(db, start, last, i); }
    }
  }

  /** A page that ends at record `i` shows whether there is a gap after it. */
  lemma PageBoundaryGap(db: Database, start: Bytes, last: Bytes, i: nat)
    requires Ascending(db) && i < |Range(db, start, last)|
    requires VisitsAll(db, start, last, i + 1)
    ensures NoGapAfter(Range(db, start, last), i)
  {
    var all := Range(db, start, last);
    FirstPage(db, start, last, i);
    ScanUnfolds(db, start, last, i + 1);
    match Successor(all[i].key)
    case None =>
    case Some(next) =>
      if i + 1 < |all| { RestStartsAt(db, next, last, i + 1, all[..i + 1], all); }
  }

  lemma FirstPage(db: Database, start: Bytes, last: Bytes, i: nat)
    requires i < |Range(db, start, last)|
    ensures ReadStream(db, start, last, i + 1) == Range(db, start, last)[..i + 1]
    ensures KeyAfter(start, ReadStream(db, start, last, i + 1)) == Range(db, start, last)[i].key
  {
  }

  lemma RestStartsAt(db: Database, next: Bytes, last: Bytes, pageSize: nat, page: Database, all: Database)
    requires Ascending(db) && |page| < |all|
    requires Scan(db, next, last, pageSize).Done? && page + Scan(db, next, last, pageSize).visited == all
    ensures AtMost(next, all[|page|].key)
  {
    var rest := Scan(db, next, last, pageSize).visited;
    assert (page + rest)[|page|] == rest[0];
    ScanFirst(db, next, last, pageSize);
  }

  // ----- Keys of 32-byte identifiers -----

  const ID_LENGTH := 32

  function FirstKey(prefix: Latin1, width: nat): Bytes {
    DbKey(prefix, Filled(width, 0))
  }

  function LastKey(prefix: Latin1, width: nat): Bytes {
    DbKey(prefix, Filled(width, 255))
  }

  ghost predicate IsKeyOf(prefix: Latin1, width: nat, key: Bytes) {
    exists payload: Bytes :: |payload| == width && key == DbKey(prefix, payload)
  }

  /** All keys of the range are keys of identifiers of the given length. */
  ghost predicate WellKeyed(db: Database, prefix: Latin1, width: nat) {
    && Ascending(db)
    && forall r :: r in Range(db, FirstKey(prefix, width), LastKey(prefix, width)) ==> IsKeyOf(prefix, width, r.key)
  }

  lemma {:induction false} FilledBounds(b: Bytes)
    ensures AtMost(Filled(|b|, 0), b) && AtMost(b, Filled(|b|, 255))
  {
    if b == [] {
      assert Filled(0, 0) == [] && Filled(0, 255) == [];
    } else {
      FilledBounds(b[1..]);
      assert Filled(|b|, 0)[1..] == Filled(|b| - 1, 0) && Filled(|b|, 255)[1..] == Filled(|b| - 1, 255);
      assert b == [b[0]] + b[1..];
      assert Filled(|b|, 0) == [0] + Filled(|b| - 1, 0) && Filled(|b|, 255) == [255] + Filled(|b| - 1, 255);
    }
  }

  /** Every key of that length lies in the range the scan reads. */
  lemma KeyInRange(prefix: Latin1, payload: Bytes)
    ensures AtMost(FirstKey(prefix, |payload|), DbKey(prefix, payload))
    ensures AtMost(DbKey(prefix, payload), LastKey(prefix, |payload|))
  {
    FilledBounds(payload);
    DbKeyOrder(prefix, Filled(|payload|, 0), payload);
    DbKeyOrder(prefix, payload, Filled(|payload|, 255));
  }

  /** The range holds the records stored under the prefix, and no others. */
  lemma RangeIsPrefix(db: Database, prefix: Latin1, width: nat, r: Record)
    requires WellKeyed(db, prefix, width)
    ensures r in Range(db, FirstKey(prefix, width), LastKey(prefix, width))
      <==> r in db && IsKeyOf(prefix, width, r.key)
  {
    RangeMember(db, FirstKey(prefix, width), LastKey(prefix, width), r);
    if IsKeyOf(prefix, width, r.key) {
      var payload: Bytes :| |payload| == width && r.key == DbKey(prefix, payload);
      KeyInRange(prefix, payload);
    }
  }

  /** Key encoding rules out gaps: no carry, and no key extends another. */
  lemma WellKeyedIsGapFree(db: Database, prefix: Latin1, width: nat)
    requires WellKeyed(db, prefix, width)
    ensures GapFree(Range(db, FirstKey(prefix, width), LastKey(prefix, width)))
  {
    var all := Range(db, FirstKey(prefix, width), LastKey(prefix, width));
    RangeAscending(db, FirstKey(prefix, width), LastKey(prefix, width));
    forall i | 0 <= i < |all| ensures NoGapAfter(all, i) {
      var k := all[i].key;
      assert IsKeyOf(prefix, width, k);
      var a: Bytes :| |a| == width && k == DbKey(prefix, a);
      DbKeyLastByte(prefix, a);
      GapWithoutCarry(k, k);
      if i + 1 < |all| {
        var x := all[i + 1].key;
        assert IsKeyOf(prefix, width, x);
        var b: Bytes :| |b| == width && x == DbKey(prefix, b);
        LessAsymmetric(k, x);
        DbKeyOrder(prefix, a, b);
        GapWithoutCarry(k, x);
        NotAtMost(Successor(k).value, x);
      }
    }
  }

  lemma ScanCounts(db: Database, start: Bytes, last: Bytes, pageSize: nat)
    requires Ascending(db) && pageSize >= 1 && GapFree(Range(db, start, last))
    ensures Scan(db, start, last, pageSize)
      == Done(Range(db, start, last), (|Range(db, start, last)| + pageSize - 1) / pageSize + 1)
  {
    GapFreeScan(db, start, last, pageSize);
    PagesIsCeiling(|Range(db, start, last)|, pageSize);
  }

  /**
   On a database keyed by 32-byte identifiers the paged scan visits every record below the
   prefix once, in order, in ceil(n / pageSize) + 1 reads, and never overflows a key.
  */
  lemma ScanIsExact(db: Database, prefix: Latin1, pageSize: nat)
    requires WellKeyed(db, prefix, ID_LENGTH) && pageSize >= 1
    ensures var all := Range(db, FirstKey(prefix, ID_LENGTH), LastKey(prefix, ID_LENGTH));
      && Scan(db, FirstKey(prefix, ID_LENGTH), LastKey(prefix, ID_LENGTH), pageSize)
        == Done(all, (|all| + pageSize - 1) / pageSize + 1)
      && (forall r :: r in all <==> r in db && IsKeyOf(prefix, ID_LENGTH, r.key))
      && Ascending(all)
  {
    var first, last := FirstKey(prefix, ID_LENGTH), LastKey(prefix, ID_LENGTH);
    var all := Range(db, first, last);
    WellKeyedIsGapFree(db, prefix, ID_LENGTH);
    ScanCounts(db, first, last, pageSize);
    RangeAscending(db, first, last);
    forall r ensures r in all <==> r in db && IsKeyOf(prefix, ID_LENGTH, r.key) {
      RangeIsPrefix(db, prefix, ID_LENGTH, r);
    }
  }

  /** Without the fixed length it fails: this scan of two records steps over the second one. */
  lemma ExtensionIsSkipped()
    ensures var db := [Record([97], []), Record([97, 5], [])];
      && Ascending(db)
      && Scan(db, [97], [122], 1) == Done([db[0]], 2)
      && Range(db, [97], [122]) == db
  {
    var db := [Record([97], []), Record([97, 5], [])];
    assert Less([97], [97, 5]);
    assert Less([97], [122]) && Less([97, 5], [122]);
    assert db[1..] == [db[1]] && db[1..][1..] == [];
    assert Range(db[1..][1..], [97], [122]) == [];
    assert Range(db[1..], [97], [122]) == [db[1]];
    assert Range(db, [97], [122]) == db;
    assert ReadStream(db, [97], [122], 1) == [db[0]];
    assert Successor([97]) == Some([98]) by {
      IncrementAt([97], 0);
      assert [97][..0] + [98] + Filled(0, 0) == [98];
    }
    assert !AtMost([98], [97]) && !AtMost([98], [97, 5]);
    assert Range(db[1..][1..], [98], [122]) == [];
    assert Range(db[1..], [98], [122]) == [];
    assert Range(db, [98], [122]) == [];
    assert Scan(db, [98], [122], 1) == Done([], 1);
  }

  // ----- The set of public keys -----

  /** `Set.prototype.add`: a JavaScript set iterates in the order of first insertion. */
  function Add(s: seq<Latin1>, x: Latin1): seq<Latin1> {
    if x in s then s else s + [x]
  }

  function AddKeyOf(publicKey: Bytes -> Bytes): (seq<Latin1>, Record) -> seq<Latin1> {
    (s: seq<Latin1>, r: Record) => Add(s, ToHex(publicKey(r.value)))
  }

  /** The public keys, as hex text, that the given records carry. */
  function PublicKeys(publicKey: Bytes -> Bytes, records: Database): seq<Latin1> {
    Fold(AddKeyOf(publicKey), [], records)
  }

  ghost predicate Distinct<T>(s: seq<T>) {
    forall i, j :: 0 <= i < j < |s| ==> s[i] != s[j]
  }

  lemma {:induction false} FoldAppend<R>(store: (R, Record) -> R, output: R, a: Database, b: Database)
    ensures Fold(store, output, a + b) == Fold(store, Fold(store, output, a), b)
    decreases |a|
  {
    if a == [] {
      assert a + b == b;
    } else {
      assert (a + b)[1..] == a[1..] + b;
      FoldAppend(store, store(output, a[0]), a[1..], b);
    }
  }

  lemma {:induction false} FoldPublicKeys(publicKey: Bytes -> Bytes, output: seq<Latin1>, records: Database, k: Latin1)
    requires Distinct(output)
    ensures Distinct(Fold(AddKeyOf(publicKey), output, records))
    ensures k in Fold(AddKeyOf(publicKey), output, records)
      <==> k in output || exists r :: r in records && k == ToHex(publicKey(r.value))
    decreases |records|
  {
    if records == [] {
    } else {
      var next := Add(output, ToHex(publicKey(records[0].value)));
      FoldPublicKeys(publicKey, next, records[1..], k);
      assert records == [records[0]] + records[1..];
      if exists r :: r in records && k == ToHex(publicKey(r.value)) {
        var r :| r in records && k == ToHex(publicKey(r.value));
        assert r == records[0] || r in records[1..];
      }
    }
  }

  lemma PublicKeysMember(publicKey: Bytes -> Bytes, records: Database, k: Latin1)
    ensures Distinct(PublicKeys(publicKey, records))
    ensures k in PublicKeys(publicKey, records) <==> exists r :: r in records && k == ToHex(publicKey(r.value))
  {
    FoldPublicKeys(publicKey, [], records, k);
  }

  /** The record carries the public key, given as text. */
  predicate Carries(publicKey: Bytes -> Bytes, r: Record, k: Latin1) {
    ToHex(publicKey(r.value)) == k
  }

  /** The first key occurs in a record before all those of the second. */
  ghost predicate OccursBefore(publicKey: Bytes -> Bytes, records: Database, k: Latin1, l: Latin1) {
    exists r :: r in records && Carries(publicKey, r, k)
      && forall s :: s in records && Carries(publicKey, s, l) ==> Less(r.key, s.key)
  }

  lemma {:induction false} FoldKeysInOrder(
      publicKey: Bytes -> Bytes, output: seq<Latin1>, records: Database, i: nat, j: nat)
    requires Distinct(output) && Ascending(records)
    requires |output| <= j && i < j < |Fold(AddKeyOf(publicKey), output, records)|
    ensures output <= Fold(AddKeyOf(publicKey), output, records)
    ensures var keys := Fold(AddKeyOf(publicKey), output, records);
      i < |output| || OccursBefore(publicKey, records, keys[i], keys[j])
    decreases |records|
  {
    if records == [] {
    } else {
      var x, rest := records[0], records[1..];
      var next := Add(output, ToHex(publicKey(x.value)));
      var keys := Fold(AddKeyOf(publicKey), next, rest);
      FoldPublicKeys(publicKey, output, records, keys[j]);
      assert records == [x] + rest;
      if j < |next| {
        FoldKeepsOutput(publicKey, next, rest);
      } else {
        FoldKeysInOrder(publicKey, next, rest, i, j);
        assert i < |next| ==> keys[i] == next[i];
        if i >= |output| {
          FoldKeepsOutput(publicKey, next, rest);
          LaterKeyOccursLater(publicKey, output, records, next, keys, i, j);
        }
      }
    }
  }

  lemma {:induction false} FoldKeepsOutput(publicKey: Bytes -> Bytes, output: seq<Latin1>, records: Database)
    ensures output <= Fold(AddKeyOf(publicKey), output, records)
    decreases |records|
  {
    if records == [] {
    } else {
      FoldKeepsOutput(publicKey, Add(output, ToHex(publicKey(records[0].value))), records[1..]);
    }
  }

  lemma LaterKeyOccursLater(
      publicKey: Bytes -> Bytes, output: seq<Latin1>, records: Database, next: seq<Latin1>, keys: seq<Latin1>,
      i: nat, j: nat)
    requires records != [] && Ascending(records) && next == Add(output, ToHex(publicKey(records[0].value)))
    requires |output| <= i < j < |keys| && next <= keys && |next| <= j && Distinct(keys)
    requires i < |next| || OccursBefore(publicKey, records[1..], keys[i], keys[j])
    ensures OccursBefore(publicKey, records, keys[i], keys[j])
  {
    var x, rest := records[0], records[1..];
    var k := ToHex(publicKey(x.value));
    assert records == [x] + rest && k in next;
    var n :| 0 <= n < |next| && next[n] == k;
    assert keys[n] == k && keys[j] != k;
    var r := x;
    if i >= |next| {
      r :| r in rest && Carries(publicKey, r, keys[i])
        && forall s :: s in rest && Carries(publicKey, s, keys[j]) ==> Less(r.key, s.key);
    }
    forall s | s in records && Carries(publicKey, s, keys[j]) ensures Less(r.key, s.key) {
      assert s in rest;
      var p :| 0 <= p < |rest| && rest[p] == s;
      assert records[p + 1] == s;
    }
  }

  /** The keys come in the order in which they first occur. */
  lemma PublicKeysInOrder(publicKey: Bytes -> Bytes, records: Database, i: nat, j: nat)
    requires Ascending(records) && i < j < |PublicKeys(publicKey, records)|
    ensures OccursBefore(publicKey, records, PublicKeys(publicKey, records)[i], PublicKeys(publicKey, records)[j])
  {
    FoldKeysInOrder(publicKey, [], records, i, j);
  }

  const DB_KEY_TRANSACTIONS_ID: Latin1 := "transactions:id"
  const DB_KEY_BLOCKS_ID: Latin1 := "blocks:id"

  /** What the scan under `prefix` should return: the keys that any record there carries. */
  function StoredKeys(db: Database, prefix: Latin1, publicKey: Bytes -> Bytes): seq<Latin1> {
    PublicKeys(publicKey, Range(db, FirstKey(prefix, ID_LENGTH), LastKey(prefix, ID_LENGTH)))
  }

  // ----- The same in terms of the texts that keys spell -----

  /** Some record under the prefix has the payload in its key. */
  ghost predicate StoredAt(db: Database, prefix: Latin1, payload: Bytes, value: Bytes) {
    exists r :: r in db && Reads(r.key, prefix, payload) && r.value == value
  }

  lemma GetReads(db: Database, prefix: Latin1, payload: Bytes)
    requires Ascending(db)
    ensures match Get(db, DbKey(prefix, payload))
      case None => forall value :: !StoredAt(db, prefix, payload, value)
      case Some(v) => forall value :: StoredAt(db, prefix, payload, value) <==> value == v
  {
    var key := DbKey(prefix, payload);
    GetMisses(db, key);
    forall r: Record ensures r.key == key <==> Reads(r.key, prefix, payload) {
      DbKeyReads(prefix, payload, r.key);
    }
    forall r | r in db && r.key == key ensures Get(db, key) == Some(r.value) { GetFinds(db, r); }
  }

  /** Whatever is stored under the prefix is stored under an identifier of the given length. */
  ghost predicate KeyedBy(db: Database, prefix: Latin1, width: nat) {
    forall r :: r in db && Units(prefix) + [0x3A] <= r.key ==>
      exists id: Bytes :: |id| == width && Reads(r.key, prefix, id)
  }

  lemma KeyedByIsWellKeyed(db: Database, prefix: Latin1, width: nat)
    requires Ascending(db) && KeyedBy(db, prefix, width)
    requires forall i :: 0 <= i < |prefix| ==> prefix[i] as int < 0x80
    ensures WellKeyed(db, prefix, width)
  {
    var first, last := FirstKey(prefix, width), LastKey(prefix, width);
    HeadStands(prefix);
    DbKeyShape(prefix, Filled(width, 0));
    DbKeyShape(prefix, Filled(width, 255));
    forall r | r in Range(db, first, last) ensures IsKeyOf(prefix, width, r.key) {
      RangeMember(db, first, last, r);
      BetweenKeepsPrefix(
        Head(prefix), Spell(Utf8Unit, Filled(width, 0)), r.key, Spell(Utf8Unit, Filled(width, 255)));
      var id: Bytes :| |id| == width && Reads(r.key, prefix, id);
      DbKeyReads(prefix, id, r.key);
    }
  }

  lemma KeyReadsAsId(prefix: Latin1, width: nat, key: Bytes)
    ensures IsKeyOf(prefix, width, key) <==> exists id: Bytes :: |id| == width && Reads(key, prefix, id)
  {
    forall id: Bytes ensures key == DbKey(prefix, id) <==> Reads(key, prefix, id) { DbKeyReads(prefix, id, key); }
  }

  /** Some record under the prefix and a 32-byte identifier carries the public key. */
  ghost predicate CarriedUnder(db: Database, prefix: Latin1, publicKey: Bytes -> Bytes, key: Bytes) {
    exists id: Bytes, value :: |id| == 32 && StoredAt(db, prefix, id, value) && publicKey(value) == key
  }

  /** Exactly the texts of the keys carried under the prefix are collected. */
  lemma StoredKeysAre(db: Database, prefix: Latin1, publicKey: Bytes -> Bytes, text: Latin1)
    requires WellKeyed(db, prefix, 32)
    ensures text in StoredKeys(db, prefix, publicKey)
      <==> exists key :: CarriedUnder(db, prefix, publicKey, key) && text == ToHex(key)
  {
    var all := Range(db, FirstKey(prefix, ID_LENGTH), LastKey(prefix, ID_LENGTH));
    PublicKeysMember(publicKey, all, text);
    forall r: Record
      ensures r in all <==> r in db && exists id: Bytes :: |id| == 32 && Reads(r.key, prefix, id) {
      RangeIsPrefix(db, prefix, ID_LENGTH, r);
      KeyReadsAsId(prefix, 32, r.key);
    }
    if r :| r in all && text == ToHex(publicKey(r.value)) {
      var id: Bytes :| |id| == 32 && Reads(r.key, prefix, id);
      assert StoredAt(db, prefix, id, r.value);
      assert CarriedUnder(db, prefix, publicKey, publicKey(r.value));
    }
    if key :| CarriedUnder(db, prefix, publicKey, key) && text == ToHex(key) {
      var id: Bytes, value :| |id| == 32 && StoredAt(db, prefix, id, value) && publicKey(value) == key;
      var r :| r in db && Reads(r.key, prefix, id) && r.value == value;
      assert r in all;
    }
  }

  /** The set of the texts of all public keys carried under the prefix. */
  ghost predicate IsKeySet(r: Option<seq<Latin1>>, db: Database, prefix: Latin1, publicKey: Bytes -> Bytes) {
    && r.Some? && Distinct(r.value)
    && forall text :: text in r.value <==> exists key :: CarriedUnder(db, prefix, publicKey, key) && text == ToHex(key)
  }

  lemma StoredKeysAreSet(db: Database, prefix: Latin1, publicKey: Bytes -> Bytes)
    requires WellKeyed(db, prefix, 32)
    ensures IsKeySet(Some(StoredKeys(db, prefix, publicKey)), db, prefix, publicKey)
  {
    FoldPublicKeys(publicKey, [], Range(db, FirstKey(prefix, ID_LENGTH), LastKey(prefix, ID_LENGTH)), "");
    forall text
      ensures text in StoredKeys(db, prefix, publicKey)
        <==> exists key :: CarriedUnder(db, prefix, publicKey, key) && text == ToHex(key) {
      StoredKeysAre(db, prefix, publicKey, text);
    }
  }

  /** The record is under the prefix and a 32-byte identifier, and carries the key. */
  ghost predicate CarriesUnder(db: Database, prefix: Latin1, publicKey: Bytes -> Bytes, r: Record, key: Bytes) {
    r in db && (exists id: Bytes :: |id| == 32 && Reads(r.key, prefix, id)) && publicKey(r.value) == key
  }

  /** Under the prefix, `k` occurs in a record before all those of `l`. */
  ghost predicate OccursFirst(db: Database, prefix: Latin1, publicKey: Bytes -> Bytes, k: Bytes, l: Bytes) {
    exists r :: CarriesUnder(db, prefix, publicKey, r, k)
      && forall s :: CarriesUnder(db, prefix, publicKey, s, l) ==> Less(r.key, s.key)
  }

  lemma OccursBeforeIs(db: Database, prefix: Latin1, publicKey: Bytes -> Bytes, k: Bytes, l: Bytes)
    requires WellKeyed(db, prefix, ID_LENGTH)
    ensures var all := Range(db, FirstKey(prefix, ID_LENGTH), LastKey(prefix, ID_LENGTH));
      OccursBefore(publicKey, all, ToHex(k), ToHex(l)) <==> OccursFirst(db, prefix, publicKey, k, l)
  {
    var all := Range(db, FirstKey(prefix, ID_LENGTH), LastKey(prefix, ID_LENGTH));
    forall r: Record, key: Bytes
      ensures r in all && Carries(publicKey, r, ToHex(key)) <==> CarriesUnder(db, prefix, publicKey, r, key) {
      RangeIsPrefix(db, prefix, ID_LENGTH, r);
      KeyReadsAsId(prefix, ID_LENGTH, r.key);
      HexOrder(publicKey(r.value), key);
    }
    if OccursBefore(publicKey, all, ToHex(k), ToHex(l)) {
      var r :| r in all && Carries(publicKey, r, ToHex(k))
        && forall s :: s in all && Carries(publicKey, s, ToHex(l)) ==> Less(r.key, s.key);
      assert CarriesUnder(db, prefix, publicKey, r, k);
      forall s | CarriesUnder(db, prefix, publicKey, s, l) ensures Less(r.key, s.key) {}
    }
    if OccursFirst(db, prefix, publicKey, k, l) {
      var r :| CarriesUnder(db, prefix, publicKey, r, k)
        && forall s :: CarriesUnder(db, prefix, publicKey, s, l) ==> Less(r.key, s.key);
      assert r in all && Carries(publicKey, r, ToHex(k));
      forall s | s in all && Carries(publicKey, s, ToHex(l)) ensures Less(r.key, s.key) {}
    }
  }

  lemma OccursBeforeAsymmetric(publicKey: Bytes -> Bytes, records: Database, k: Latin1, l: Latin1)
    requires OccursBefore(publicKey, records, k, l)
    ensures !OccursBefore(publicKey, records, l, k)
  {
    var r :| r in records && Carries(publicKey, r, k)
      && forall s :: s in records && Carries(publicKey, s, l) ==> Less(r.key, s.key);
    forall s | s in records && Carries(publicKey, s, l)
      ensures exists t :: t in records && Carries(publicKey, t, k) && !Less(s.key, t.key) {
      LessAsymmetric(r.key, s.key);
    }
  }

  /** The last of the listed keys with a property is the one that occurs last. */
  lemma LastListedOccursLast(
      publicKey: Bytes -> Bytes, records: Database, p: Latin1 -> bool, k: Latin1)
    requires Ascending(records)
    ensures var keys := PublicKeys(publicKey, records);
      (exists i: nat :: IsLastWith(keys, p, i) && keys[i] == k)
        <==> k in keys && p(k) && forall l :: l in keys && p(l) && l != k ==> OccursBefore(publicKey, records, l, k)
  {
    var keys := PublicKeys(publicKey, records);
    FoldPublicKeys(publicKey, [], records, k);
    if i: nat :| IsLastWith(keys, p, i) && keys[i] == k {
      forall l | l in keys && p(l) && l != k ensures OccursBefore(publicKey, records, l, k) {
        var j :| 0 <= j < |keys| && keys[j] == l;
        assert j < i;
        PublicKeysInOrder(publicKey, records, j, i);
      }
    }
    if k in keys && p(k) && forall l :: l in keys && p(l) && l != k ==> OccursBefore(publicKey, records, l, k) {
      var i: nat :| i < |keys| && keys[i] == k;
      forall j | i < j < |keys| ensures !p(keys[j]) {
        PublicKeysInOrder(publicKey, records, i, j);
        OccursBeforeAsymmetric(publicKey, records, k, keys[j]);
        assert keys[j] in keys && keys[j] != k;
      }
      assert IsLastWith(keys, p, i);
    }
  }

  ghost predicate IsLastWith(keys: seq<Latin1>, p: Latin1 -> bool, i: nat) {
    i < |keys| && p(keys[i]) && forall j :: i < j < |keys| ==> !p(keys[j])
  }

  /** `incrementOne` on a key. */
  method ResumeKey(key: Bytes) returns (r: Option<Bytes>)
    ensures r == Successor(key)
  {
    var buffer := new byte[|key|](i requires 0 <= i < |key| => key[i]);
    assert buffer[..] == key;
    var next := IncrementOne(buffer);
    match next
    case AlreadyMaximum => return None;
    case Next(b) => return Some(b[..]);
  }

  /**
   The body shared by `getBlockPublicKeySet` and `getTransactionPublicKeySet`.
   `schedule` gives, page by page, the order in which events and jobs happen to run.
   `None` stands for the error that `incrementOne` raises.
  */
  method ScanPublicKeys(
      db: Database, prefix: Latin1, publicKey: Bytes -> Bytes, pageSize: nat, schedule: nat -> seq<Step>)
    returns (r: Option<seq<Latin1>>, pages: nat)
    requires Ascending(db)
    ensures match Scan(db, FirstKey(prefix, ID_LENGTH), LastKey(prefix, ID_LENGTH), pageSize)
      case Overflow => r == None
      case Done(visited, n) => r == Some(PublicKeys(publicKey, visited)) && pages == n
  {
    var result: seq<Latin1> := [];
    var startingKey := FirstKey(prefix, ID_LENGTH);
    var last := LastKey(prefix, ID_LENGTH);
    pages := 0;
    ghost var visited: Database := [];
    ghost var whole := Scan(db, startingKey, last, pageSize);
    assert whole == After([], 0, whole);
    while true
      invariant result == PublicKeys(publicKey, visited)
      invariant whole == After(visited, pages, Scan(db, startingKey, last, pageSize))
      decreases |Range(db, startingKey, last)|
    {
      var page := ReadStream(db, startingKey, last, pageSize);
      var collector := new PageCollector(AddKeyOf(publicKey), page, startingKey, result);
      collector.Await(schedule(pages));
      if !collector.exist {
        assert visited + [] == visited;
        return Some(collector.output), pages + 1;
      }
      FoldAppend(AddKeyOf(publicKey), [], visited, page);
      result := collector.output;
      var next := ResumeKey(collector.lastKey);
      if next == None {
        return None, pages + 1;
      }
      ResumeShrinks(db, startingKey, last, pageSize);
      AfterPage(visited, pages, db, startingKey, last, pageSize, next.value);
      visited := visited + page;
      startingKey, pages := next.value, pages + 1;
    }
  }

  /** `getTransactionPublicKeySet`: the senders of all stored transactions, for every page size. */
  method GetTransactionPublicKeySet(
      db: Database, senderPublicKey: Bytes -> Bytes, pageSize: nat, schedule: nat -> seq<Step>)
    returns (r: Option<seq<Latin1>>)
    requires Ascending(db)
    ensures pageSize >= 1 && WellKeyed(db, DB_KEY_TRANSACTIONS_ID, ID_LENGTH) ==>
      r == Some(StoredKeys(db, DB_KEY_TRANSACTIONS_ID, senderPublicKey))
    ensures pageSize >= 1 && KeyedBy(db, "transactions:id", 32) ==> IsKeySet(r, db, "transactions:id", senderPublicKey)
    ensures pageSize == 0 ==> r == Some([])
  {
    var pages;
    r, pages := ScanPublicKeys(db, DB_KEY_TRANSACTIONS_ID, senderPublicKey, pageSize, schedule);
    if KeyedBy(db, DB_KEY_TRANSACTIONS_ID, ID_LENGTH) { KeyedByIsWellKeyed(db, DB_KEY_TRANSACTIONS_ID, ID_LENGTH); }
    if pageSize >= 1 && WellKeyed(db, DB_KEY_TRANSACTIONS_ID, ID_LENGTH) {
      ScanIsExact(db, DB_KEY_TRANSACTIONS_ID, pageSize);
      StoredKeysAreSet(db, DB_KEY_TRANSACTIONS_ID, senderPublicKey);
    }
  }

  /** `getBlockPublicKeySet`: the generators of all stored blocks, for every page size. */
  method GetBlockPublicKeySet(
      db: Database, generatorPublicKey: Bytes -> Bytes, pageSize: nat, schedule: nat -> seq<Step>)
    returns (r: Option<seq<Latin1>>)
    requires Ascending(db)
    ensures pageSize >= 1 && WellKeyed(db, DB_KEY_BLOCKS_ID, ID_LENGTH) ==>
      r == Some(StoredKeys(db, DB_KEY_BLOCKS_ID, generatorPublicKey))
    ensures pageSize >= 1 && KeyedBy(db, "blocks:id", 32) ==> IsKeySet(r, db, "blocks:id", generatorPublicKey)
    ensures pageSize == 0 ==> r == Some([])
  {
    var pages;
    r, pages := ScanPublicKeys(db, DB_KEY_BLOCKS_ID, generatorPublicKey, pageSize, schedule);
    if KeyedBy(db, DB_KEY_BLOCKS_ID, ID_LENGTH) { KeyedByIsWellKeyed(db, DB_KEY_BLOCKS_ID, ID_LENGTH); }
    if pageSize >= 1 && WellKeyed(db, DB_KEY_BLOCKS_ID, ID_LENGTH) {
      ScanIsExact(db, DB_KEY_BLOCKS_ID, pageSize);
      StoredKeysAreSet(db, DB_KEY_BLOCKS_ID, generatorPublicKey);
    }
  }
}
