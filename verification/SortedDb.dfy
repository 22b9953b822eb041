/** A RocksDB keyspace: entries in strictly increasing key order, with seek and scan. */
module SortedDb {
  import opened Types
  import opened KeyOrder

  datatype Entry = Entry(key: Key, value: string)

  type Db = seq<Entry>

  ghost predicate Sorted(db: Db) {
    forall i, j :: 0 <= i < j < |db| ==> Less(db[i].key, db[j].key)
  }

  function Put(db: Db, key: Key, value: string): Db {
    if db == [] || Less(key, db[0].key) then [Entry(key, value)] + db
    else if key == db[0].key then [Entry(key, value)] + db[1..]
    else [db[0]] + Put(db[1..], key, value)
  }

  function Delete(db: Db, key: Key): Db {
    if db == [] then []
    else if db[0].key == key then db[1..]
    else [db[0]] + Delete(db[1..], key)
  }

  function Get(db: Db, key: Key): Option<string> {
    if db == [] then None
    else if db[0].key == key then Some(db[0].value)
    else Get(db[1..], key)
  }

  /** The first position at or after the key. */
  function Seek(db: Db, key: Key): (i: nat)
    ensures i <= |db|
    ensures i < |db| ==> Leq(key, db[i].key)
    ensures forall j :: 0 <= j < i ==> !Leq(key, db[j].key)
  {
    if db == [] || Leq(key, db[0].key) then 0 else 1 + Seek(db[1..], key)
  }

  /** What an iterator with a prefix yields from a position on. */
  function Scan(db: Db, i: nat, prefix: Key): seq<Entry>
    decreases |db| - i
  {
    if i < |db| && prefix <= db[i].key then [db[i]] + Scan(db, i + 1, prefix) else []
  }

  lemma SortedTail(db: Db)
    requires Sorted(db) && db != []
    ensures Sorted(db[1..])
    ensures forall e :: e in db[1..] ==> Less(db[0].key, e.key)
    ensures forall e :: e in db <==> e == db[0] || e in db[1..]
  {
    assert db == [db[0]] + db[1..];
  }

  lemma SortedCons(e: Entry, db: Db)
    requires Sorted(db) && forall x :: x in db ==> Less(e.key, x.key)
    ensures Sorted([e] + db)
  {
  }

  lemma {:induction false} PutExact(db: Db, key: Key, value: string)
    requires Sorted(db)
    ensures Sorted(Put(db, key, value))
    ensures forall e :: e in Put(db, key, value) <==> e == Entry(key, value) || (e in db && e.key != key)
  {
    var put := Entry(key, value);
    if db == [] {
    } else {
      SortedTail(db);
      if Less(key, db[0].key) {
        forall x | x in db
          ensures Less(key, x.key)
        {
          if x != db[0] {
            LessTransitive(key, db[0].key, x.key);
          }
        }
        SortedCons(put, db);
      } else if key == db[0].key {
        SortedCons(put, db[1..]);
      } else {
        PutExact(db[1..], key, value);
        Total(key, db[0].key);
        SortedCons(db[0], Put(db[1..], key, value));
      }
    }
  }

  lemma {:induction false} DeleteExact(db: Db, key: Key)
    requires Sorted(db)
    ensures Sorted(Delete(db, key))
    ensures forall e :: e in Delete(db, key) <==> e in db && e.key != key
  {
    if db != [] {
      SortedTail(db);
      if db[0].key != key {
        DeleteExact(db[1..], key);
        SortedCons(db[0], Delete(db[1..], key));
      }
    }
  }

  lemma {:induction false} GetExact(db: Db, key: Key)
    requires Sorted(db)
    ensures forall v :: Get(db, key) == Some(v) <==> Entry(key, v) in db
  {
    if db != [] {
      SortedTail(db);
      GetExact(db[1..], key);
    }
  }

  /** The entries with a prefix are contiguous: all of them follow the seek point, one after the other. */
  lemma {:induction false} ScanIsSlice(db: Db, i: nat, prefix: Key) returns (j: nat)
    requires Sorted(db) && i <= |db| && (i < |db| ==> Leq(prefix, db[i].key))
    ensures i <= j <= |db| && Scan(db, i, prefix) == db[i..j]
    ensures forall n :: i <= n < |db| ==> (prefix <= db[n].key <==> n < j)
    decreases |db| - i
  {
    if i < |db| && prefix <= db[i].key {
      if i + 1 < |db| {
        LessTransitive(prefix, db[i].key, db[i + 1].key);
      }
      j := ScanIsSlice(db, i + 1, prefix);
      assert db[i..j] == [db[i]] + db[i + 1..j];
    } else {
      j := i;
      forall n | i <= n < |db|
        ensures !(prefix <= db[n].key)
      {
        if prefix <= db[n].key && n != i {
          Between(prefix, db[i].key, db[n].key);
        }
      }
    }
  }

  /** A seek to a prefix followed by a scan yields exactly the entries with that prefix, in order, once each. */
  lemma ScanExact(db: Db, prefix: Key)
    requires Sorted(db)
    ensures Sorted(Scan(db, Seek(db, prefix), prefix))
    ensures forall e :: e in Scan(db, Seek(db, prefix), prefix) <==> e in db && prefix <= e.key
  {
    var i := Seek(db, prefix);
    var j := ScanIsSlice(db, i, prefix);
    var found := db[i..j];
    assert forall n :: 0 <= n < |found| ==> found[n] == db[i + n];
    forall e | e in db && prefix <= e.key
      ensures e in found
    {
      var n :| 0 <= n < |db| && db[n] == e;
      PrefixLeq(prefix, e.key);
      assert i <= n < j;
      assert found[n - i] == e;
    }
  }
}
