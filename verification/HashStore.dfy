/** The two-level hash of RocksdbStore, flattened into one sorted keyspace. */
module HashStore {
  import opened Types
  import opened KeyOrder
  import opened SortedDb

  function MakeKey(name: string, field: string): Key {
    name + "_" + field
  }

  /** No name is a proper prefix of another. */
  ghost predicate PrefixFree(names: set<string>) {
    forall a, b :: a in names && b in names && a <= b ==> a == b
  }

  /** What the store stands for: a map from names to hashes, absent names being empty hashes. */
  type Nested = map<string, map<string, string>>

  function Hash(m: Nested, name: string): map<string, string> {
    if name in m then m[name] else map[]
  }

  datatype Op =
    | HSet(name: string, field: string, value: string)
    | HDel(name: string, field: string)

  function ApplyFlat(db: Db, op: Op): Db {
    match op
    case HSet(name, field, value) => Put(db, MakeKey(name, field), value)
    case HDel(name, field) => Delete(db, MakeKey(name, field))
  }

  function ApplyNested(m: Nested, op: Op): Nested {
    match op
    case HSet(name, field, value) => m[name := Hash(m, name)[field := value]]
    case HDel(name, field) => m[name := Hash(m, name) - {field}]
  }

  function RunFlat(db: Db, ops: seq<Op>): Db
    decreases |ops|
  {
    if ops == [] then db else RunFlat(ApplyFlat(db, ops[0]), ops[1..])
  }

  function RunNested(m: Nested, ops: seq<Op>): Nested
    decreases |ops|
  {
    if ops == [] then m else RunNested(ApplyNested(m, ops[0]), ops[1..])
  }

  /** `hgetall`: the iterator seeks the name itself and stops at the first key that does not start with it. */
  function HGetAll(db: Db, name: string): seq<Entry> {
    Scan(db, Seek(db, name), name)
  }

  ghost predicate Over(names: set<string>, ops: seq<Op>) {
    forall i :: 0 <= i < |ops| ==> ops[i].name in names
  }

  lemma FieldOf(name: string, field: string)
    ensures MakeKey(name, field)[|name| + 1..] == field
    ensures name <= MakeKey(name, field)
  {
  }

  /** Among prefix-free names a flat key belongs to one name, and determines name and field. */
  lemma KeyBelongsToOneName(names: set<string>, a: string, b: string, field: string)
    requires PrefixFree(names) && a in names && b in names
    ensures a <= MakeKey(b, field) <==> a == b
  {
    var key := MakeKey(b, field);
    FieldOf(b, field);
    if a <= key {
      assert |a| <= |b| ==> a == key[..|a|] == b[..|a|];
      assert |b| <= |a| ==> b == key[..|b|] == a[..|b|];
    }
  }

  /** `make_key` is injective on prefix-free names. */
  lemma MakeKeyInjective(names: set<string>, a: string, f: string, b: string, g: string)
    requires PrefixFree(names) && a in names && b in names
    requires MakeKey(a, f) == MakeKey(b, g)
    ensures a == b && f == g
  {
    FieldOf(a, f);
    FieldOf(b, g);
    KeyBelongsToOneName(names, a, b, g);
  }

  /** No name continues another, at once, with the separator. */
  ghost predicate SeparatorFree(names: set<string>) {
    forall a, b :: a in names && b in names && a + "_" <= b ==> a == b
  }

  ghost predicate KeysDiffer(names: set<string>) {
    forall a, f, b, g :: a in names && b in names && MakeKey(a, f) == MakeKey(b, g) ==> a == b && f == g
  }

  lemma ShorterNameContinues(a: string, f: string, b: string, g: string)
    requires MakeKey(a, f) == MakeKey(b, g) && |a| < |b|
    ensures a + "_" <= b
  {
    var key := MakeKey(a, f);
    assert key[..|a| + 1] == a + "_";
    assert key[..|b|] == b;
    assert key[..|b|][..|a| + 1] == key[..|a| + 1];
  }

  /**
   Flat keys of a set of names are distinct if and only if no name followed by an underscore is a
   prefix of a different name: less than prefix-freeness, which the scans need.
   */
  lemma KeysDifferExactly(names: set<string>)
    ensures KeysDiffer(names) <==> SeparatorFree(names)
  {
    if SeparatorFree(names) {
      forall a, f, b, g | a in names && b in names && MakeKey(a, f) == MakeKey(b, g)
        ensures a == b && f == g
      {
        if |a| < |b| {
          ShorterNameContinues(a, f, b, g);
        } else if |b| < |a| {
          ShorterNameContinues(b, g, a, f);
        } else {
          SameLengthSameName(a, f, b, g);
        }
      }
    } else {
      var a, b :| a in names && b in names && a + "_" <= b && a != b;
      var f := b[|a| + 1..] + "_";
      assert b == a + "_" + b[|a| + 1..];
      assert MakeKey(a, f) == MakeKey(b, "");
    }
  }

  lemma SameLengthSameName(a: string, f: string, b: string, g: string)
    requires MakeKey(a, f) == MakeKey(b, g) && |a| == |b|
    ensures a == b && f == g
  {
    var key := MakeKey(a, f);
    assert a == key[..|a|] == b;
    FieldOf(a, f);
    FieldOf(b, g);
  }

  ghost predicate KeyOf(names: set<string>, key: Key) {
    exists name, field :: name in names && key == MakeKey(name, field)
  }

  /** The flat store holds exactly the entries of the nested map. */
  ghost predicate Refines(db: Db, m: Nested, names: set<string>) {
    && Sorted(db)
    && (forall e :: e in db ==> KeyOf(names, e.key))
    && (forall name, field, value :: name in names ==>
          (Entry(MakeKey(name, field), value) in db <==> field in Hash(m, name) && Hash(m, name)[field] == value))
  }

  lemma ApplyRefines(db: Db, m: Nested, names: set<string>, op: Op)
    requires PrefixFree(names) && op.name in names && Refines(db, m, names)
    ensures Refines(ApplyFlat(db, op), ApplyNested(m, op), names)
  {
    var db', m' := ApplyFlat(db, op), ApplyNested(m, op);
    var key := MakeKey(op.name, op.field);
    match op {
      case HSet(_, _, value) => PutExact(db, key, value);
      case HDel(_, _) => DeleteExact(db, key);
    }
    assert KeyOf(names, key);
    forall name, field, value | name in names
      ensures Entry(MakeKey(name, field), value) in db' <==>
                field in Hash(m', name) && Hash(m', name)[field] == value
    {
      if MakeKey(name, field) == key {
        MakeKeyInjective(names, name, field, op.name, op.field);
      }
      assert Entry(MakeKey(name, field), value) in db <==> field in Hash(m, name) && Hash(m, name)[field] == value;
    }
  }

  /** Every sequence of hset and hdel on prefix-free names keeps the flat store equal to the map of maps. */
  lemma {:induction false} RunRefines(db: Db, m: Nested, names: set<string>, ops: seq<Op>)
    requires PrefixFree(names) && Over(names, ops) && Refines(db, m, names)
    ensures Refines(RunFlat(db, ops), RunNested(m, ops), names)
    decreases |ops|
  {
    if ops != [] {
      ApplyRefines(db, m, names, ops[0]);
      RunRefines(ApplyFlat(db, ops[0]), ApplyNested(m, ops[0]), names, ops[1..]);
    }
  }

  /** `hget` of a field is the field of the hash. */
  lemma HGetRefines(db: Db, m: Nested, names: set<string>, name: string, field: string)
    requires Refines(db, m, names) && name in names
    ensures Get(db, MakeKey(name, field)) ==
              if field in Hash(m, name) then Some(Hash(m, name)[field]) else None
  {
    GetExact(db, MakeKey(name, field));
    var got := Get(db, MakeKey(name, field));
    if got.Some? {
      assert Entry(MakeKey(name, field), got.value) in db;
    } else if field in Hash(m, name) {
      assert Entry(MakeKey(name, field), Hash(m, name)[field]) in db;
    }
  }

  ghost function Elements(entries: seq<Entry>): set<Entry> {
    set e | e in entries
  }

  /** The flat entries a hash stands for. */
  ghost function HashEntries(m: Nested, name: string): set<Entry> {
    set field | field in Hash(m, name) :: Entry(MakeKey(name, field), Hash(m, name)[field])
  }

  /** `hgetall` yields exactly the entries of the hash, in strictly increasing key order, so once each. */
  lemma HGetAllRefines(db: Db, m: Nested, names: set<string>, name: string)
    requires PrefixFree(names) && Refines(db, m, names) && name in names
    ensures Sorted(HGetAll(db, name))
    ensures Elements(HGetAll(db, name)) == HashEntries(m, name)
  {
    ScanExact(db, name);
    forall e
      ensures e in HGetAll(db, name) <==> e in HashEntries(m, name)
    {
      if e in HGetAll(db, name) {
        assert KeyOf(names, e.key);
        var b, g :| b in names && e.key == MakeKey(b, g);
        KeyBelongsToOneName(names, name, b, g);
        assert e == Entry(MakeKey(name, g), e.value);
      }
      if e in HashEntries(m, name) {
        var field :| field in Hash(m, name) && e == Entry(MakeKey(name, field), Hash(m, name)[field]);
        FieldOf(name, field);
      }
    }
  }

  lemma {:induction false} SortedCount(entries: seq<Entry>)
    requires Sorted(entries)
    ensures |Elements(entries)| == |entries|
    decreases |entries|
  {
    if entries != [] {
      SortedTail(entries);
      SortedCount(entries[1..]);
      assert Elements(entries) == {entries[0]} + Elements(entries[1..]);
    }
  }

  lemma {:induction false} HashEntryCount(name: string, hash: map<string, string>)
    ensures |set field | field in hash :: Entry(MakeKey(name, field), hash[field])| == |hash|
    decreases |hash|
  {
    var entries := set field | field in hash :: Entry(MakeKey(name, field), hash[field]);
    if hash != map[] {
      var f :| f in hash;
      var rest := hash - {f};
      var e := Entry(MakeKey(name, f), hash[f]);
      HashEntryCount(name, rest);
      var less := set field | field in rest :: Entry(MakeKey(name, field), rest[field]);
      forall field | field in rest
        ensures MakeKey(name, field) != MakeKey(name, f)
      {
        FieldOf(name, field);
        FieldOf(name, f);
      }
      assert entries == less + {e} && e !in less;
    }
  }

  /** `hlen` is the number of fields of the hash. */
  lemma HLenRefines(db: Db, m: Nested, names: set<string>, name: string)
    requires PrefixFree(names) && Refines(db, m, names) && name in names
    ensures |HGetAll(db, name)| == |Hash(m, name)|
  {
    HGetAllRefines(db, m, names, name);
    SortedCount(HGetAll(db, name));
    HashEntryCount(name, Hash(m, name));
    assert HashEntries(m, name) ==
           set field | field in Hash(m, name) :: Entry(MakeKey(name, field), Hash(m, name)[field]);
  }

  /** Every sequence of updates leaves every `hlen` right. */
  ghost predicate CountsRight(names: set<string>) {
    forall ops, name :: Over(names, ops) && name in names ==>
      |HGetAll(RunFlat([], ops), name)| == |Hash(RunNested(map[], ops), name)|
  }

  /** Prefix-freeness is not only enough but needed: a proper prefix counts the other hash's fields as its own. */
  lemma PrefixFreeExactly(names: set<string>)
    ensures CountsRight(names) <==> PrefixFree(names)
  {
    if PrefixFree(names) {
      forall ops, name | Over(names, ops) && name in names
        ensures |HGetAll(RunFlat([], ops), name)| == |Hash(RunNested(map[], ops), name)|
      {
        RunRefines([], map[], names, ops);
        HLenRefines(RunFlat([], ops), RunNested(map[], ops), names, name);
      }
    } else {
      var a, b :| a in names && b in names && a <= b && a != b;
      var ops := [HSet(b, "", "")];
      assert ops[1..] == [];
      var db := [Entry(MakeKey(b, ""), "")];
      assert RunFlat([], ops) == db;
      assert Hash(RunNested(map[], ops), a) == map[];
      FieldOf(b, "");
      assert a <= MakeKey(b, "");
      ScanExact(db, a);
      assert db[0] in HGetAll(db, a);
      assert Over(names, ops) && |HGetAll(RunFlat([], ops), a)| != 0;
    }
  }

  // ----- the store object -----

  /** The prefix-checked iterator: RocksDB's own iterator over a snapshot, plus the prefix. */
  class HashIterator {
    const entries: Db
    const prefix: Key
    var pos: nat

    constructor (entries: Db, prefix: Key, pos: nat)
      ensures this.entries == entries && this.prefix == prefix && this.pos == pos
    {
      this.entries, this.prefix, this.pos := entries, prefix, pos;
    }

    predicate Valid()
      reads this
    {
      pos < |entries| && prefix <= entries[pos].key
    }

    ghost function Rest(): seq<Entry>
      reads this
    {
      Scan(entries, pos, prefix)
    }

    method Current() returns (e: Entry)
      requires Valid()
      ensures e == Rest()[0]
    {
      e := entries[pos];
    }

    method Next()
      requires Valid()
      modifies this
      ensures Rest() == old(Rest())[1..] && |old(Rest())| > 0
    {
      pos := pos + 1;
    }
  }

  class RocksdbStore {
    var db: Db

    /** What the store stands for, over the names in use. */
    ghost predicate Represents(m: Nested, names: set<string>)
      reads this
    {
      PrefixFree(names) && Refines(db, m, names)
    }

    constructor ()
      ensures db == [] && forall names :: PrefixFree(names) ==> Represents(map[], names)
    {
      db := [];
    }

    /**
     `put` is the outcome of RocksDB's own Put. Where the store represents a map of maps over names
     that include this one, it represents the updated map afterwards.
     */
    method HSet(name: string, field: string, value: string, put: Status, ghost m: Nested, ghost names: set<string>)
      returns (status: Status)
      modifies this
      ensures status == (if put == OK then OK else Error(EIO))
      ensures db == if status == OK then ApplyFlat(old(db), Op.HSet(name, field, value)) else old(db)
      ensures old(Represents(m, names)) && name in names ==>
                Represents(if status == OK then ApplyNested(m, Op.HSet(name, field, value)) else m, names)
    {
      if put != OK {
        return Error(EIO);
      }
      if Represents(m, names) && name in names {
        ApplyRefines(db, m, names, Op.HSet(name, field, value));
      }
      db := Put(db, MakeKey(name, field), value);
      return OK;
    }

    method HDel(name: string, field: string, deleted: Status, ghost m: Nested, ghost names: set<string>)
      returns (status: Status)
      modifies this
      ensures status == (if deleted == OK then OK else Error(EIO))
      ensures db == if status == OK then ApplyFlat(old(db), Op.HDel(name, field)) else old(db)
      ensures old(Represents(m, names)) && name in names ==>
                Represents(if status == OK then ApplyNested(m, Op.HDel(name, field)) else m, names)
    {
      if deleted != OK {
        return Error(EIO);
      }
      if Represents(m, names) && name in names {
        ApplyRefines(db, m, names, Op.HDel(name, field));
      }
      db := Delete(db, MakeKey(name, field));
      return OK;
    }

    /** A missing field and a failing read are the same error to the caller. */
    method HGet(name: string, field: string, read: Status, ghost m: Nested, ghost names: set<string>)
      returns (status: Status, value: Option<string>)
      ensures value == if read == OK then Get(db, MakeKey(name, field)) else None
      ensures status == if value.Some? then OK else Error(EIO)
      ensures Represents(m, names) && name in names ==>
                value == if read == OK && field in Hash(m, name) then Some(Hash(m, name)[field]) else None
    {
      if Represents(m, names) && name in names {
        HGetRefines(db, m, names, name, field);
      }
      value := if read == OK then Get(db, MakeKey(name, field)) else None;
      status := if value.Some? then OK else Error(EIO);
    }

    method HExists(name: string, field: string, read: Status, ghost m: Nested, ghost names: set<string>)
      returns (found: bool)
      ensures found <==> read == OK && Get(db, MakeKey(name, field)).Some?
      ensures Represents(m, names) && name in names ==> (found <==> read == OK && field in Hash(m, name))
    {
      var status, _ := HGet(name, field, read, m, names);
      found := status == OK;
    }

    method NewIterator(name: string) returns (it: HashIterator)
      ensures fresh(it) && it.Rest() == HGetAll(db, name)
    {
      it := new HashIterator(db, name, Seek(db, name));
    }

    method HLen(name: string, ghost m: Nested, ghost names: set<string>) returns (len: nat)
      ensures len == |HGetAll(db, name)|
      ensures Represents(m, names) && name in names ==> len == |Hash(m, name)|
    {
      if Represents(m, names) && name in names {
        HLenRefines(db, m, names, name);
      }
      var it := NewIterator(name);
      len := 0;
      while it.Valid()
        invariant fresh(it)
        invariant len + |it.Rest()| == |HGetAll(db, name)|
        decreases |it.Rest()|
      {
        it.Next();
        len := len + 1;
      }
    }
  }
}
