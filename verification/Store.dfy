/**
 The key-value store the migrator reads: records in strictly ascending key order, a point
 lookup, and `createReadStream({gte, lte, limit})`.
*/
module Store {
  import opened ByteStrings
  import opened Sequences

  datatype Record = Record(key: Bytes, value: Bytes)

  type Database = seq<Record>

  ghost predicate Ascending(db: Database) {
    forall i, j :: 0 <= i < j < |db| ==> Less(db[i].key, db[j].key)
  }

  predicate InRange(r: Record, gte: Bytes, lte: Bytes) {
    AtMost(gte, r.key) && AtMost(r.key, lte)
  }

  /** All records of a key range, in order. */
  function Range(db: Database, gte: Bytes, lte: Bytes): Database {
    if db == [] then []
    else (if InRange(db[0], gte, lte) then [db[0]] else []) + Range(db[1..], gte, lte)
  }

  function ReadStream(db: Database, gte: Bytes, lte: Bytes, limit: nat): Database {
    Take(Range(db, gte, lte), limit)
  }

  function Get(db: Database, key: Bytes): Option<Bytes> {
    if db == [] then None
    else if db[0].key == key then Some(db[0].value)
    else Get(db[1..], key)
  }

  lemma {:induction false} RangeMember(db: Database, gte: Bytes, lte: Bytes, r: Record)
    ensures r in Range(db, gte, lte) <==> r in db && InRange(r, gte, lte)
  {
    if db == [] {
    } else {
      RangeMember(db[1..], gte, lte, r);
      assert db == [db[0]] + db[1..];
    }
  }

  lemma {:induction false} RangeAscending(db: Database, gte: Bytes, lte: Bytes)
    requires Ascending(db)
    ensures Ascending(Range(db, gte, lte))
  {
    if db == [] {
    } else {
      RangeAscending(db[1..], gte, lte);
      var rest := Range(db[1..], gte, lte);
      forall k | 0 <= k < |rest| ensures Less(db[0].key, rest[k].key) {
        RangeMember(db[1..], gte, lte, rest[k]);
        var j :| 0 <= j < |db[1..]| && db[1..][j] == rest[k];
        assert db[j + 1] == rest[k];
      }
    }
  }

  /** Raising the lower bound of a range leaves a suffix of it. */
  lemma {:induction false} RangeSuffix(db: Database, lo: Bytes, mid: Bytes, hi: Bytes) returns (m: nat)
    requires Ascending(db) && AtMost(lo, mid)
    ensures m <= |Range(db, lo, hi)| && Range(db, mid, hi) == Range(db, lo, hi)[m..]
    ensures forall k :: 0 <= k < m ==> Less(Range(db, lo, hi)[k].key, mid)
    ensures forall k :: m <= k < |Range(db, lo, hi)| ==> AtMost(mid, Range(db, lo, hi)[k].key)
  {
    if db == [] {
      m := 0;
    } else {
      var rest := Range(db[1..], lo, hi);
      m := RangeSuffix(db[1..], lo, mid, hi);
      var x := db[0];
      if AtMost(mid, x.key) { AtMostTransitive(lo, mid, x.key); }
      NotAtMost(mid, x.key);
      if InRange(x, lo, hi) {
        assert Range(db, lo, hi) == [x] + rest;
        if Less(x.key, mid) {
          m := m + 1;
        } else {
          RangeAscending(db, lo, hi);
          if m > 0 {
            var all := Range(db, lo, hi);
            assert all[0] == x && all[1] == rest[0];
            AtMostTransitive(mid, x.key, rest[0].key);
            LessAsymmetric(mid, rest[0].key);
            assert false;
          }
        }
      }
    }
  }

  lemma {:induction false} GetFinds(db: Database, r: Record)
    requires Ascending(db) && r in db
    ensures Get(db, r.key) == Some(r.value)
  {
    if db[0] == r {
    } else {
      var j :| 0 <= j < |db| && db[j] == r;
      LessAsymmetric(db[0].key, db[j].key);
      assert r in db[1..] by { assert db[1..][j - 1] == r; }
      GetFinds(db[1..], r);
    }
  }

  lemma {:induction false} GetMisses(db: Database, key: Bytes)
    ensures Get(db, key) == None <==> forall r :: r in db ==> r.key != key
  {
    if db == [] {
    } else {
      GetMisses(db[1..], key);
      assert db == [db[0]] + db[1..];
    }
  }
}
