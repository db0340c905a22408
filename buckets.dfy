/** The bucket catalog and bucket handles (buckets/main.go, buckets/bucket.go).

    The database one SQL transaction sees is a `Store`: the `bucketindex`
    table, which maps the id of every bucket to the name of the SQL table
    holding its keys and to its sequence counter, and the bucket tables
    themselves. A `Bucket` is a handle on one catalog entry; it remembers the
    id and the table name it was opened with. The model gives the SQL
    statements the meaning their authors evidently intended. */
module Buckets {
  import opened Common
  import opened BucketIds
  import opened ByteOrder

  /** One row of `bucketindex`, keyed by the bucket id. */
  datatype Row = Row(table: string, sequence: nat)

  /** The table names the catalog has handed out. */
  function TableNames(rows: map<Bytes, Row>): set<string>
  {
    set p | p in rows :: rows[p].table
  }

  /** The UNIQUE constraint on the `table` column. */
  predicate DistinctTables(rows: map<Bytes, Row>)
  {
    forall p, q :: p in rows && q in rows && p != q ==> rows[p].table != rows[q].table
  }

  lemma TableNamesInsert(rows: map<Bytes, Row>, path: Bytes, row: Row)
    requires path !in rows
    ensures TableNames(rows[path := row]) == TableNames(rows) + {row.table}
  {
    var after := rows[path := row];
    forall t | t in TableNames(rows)
      ensures t in TableNames(after)
    {
      var p :| p in rows && rows[p].table == t;
      assert after[p] == rows[p];
    }
    assert after[path].table == row.table;
  }

  lemma TableNamesRemove(rows: map<Bytes, Row>, path: Bytes)
    requires path in rows && DistinctTables(rows)
    ensures TableNames(rows - {path}) == TableNames(rows) - {rows[path].table}
  {
    var after := rows - {path};
    forall t | t in TableNames(rows) - {rows[path].table}
      ensures t in TableNames(after)
    {
      var p :| p in rows && rows[p].table == t;
      assert p != path && after[p] == rows[p];
    }
  }

  lemma TableNamesRenumber(rows: map<Bytes, Row>, path: Bytes, n: nat)
    requires path in rows
    ensures TableNames(rows[path := rows[path].(sequence := n)]) == TableNames(rows)
  {
    var after := rows[path := rows[path].(sequence := n)];
    forall t | t in TableNames(rows)
      ensures t in TableNames(after)
    {
      var p :| p in rows && rows[p].table == t;
      assert after[p].table == t;
    }
  }

  /** Every catalog row names its own, existing table; there is no table
      without a row; no row names the empty string, which `getTableName`
      uses for "absent". */
  predicate Consistent(rows: map<Bytes, Row>, tables: map<string, map<Bytes, Bytes>>)
  {
    tables.Keys == TableNames(rows) && DistinctTables(rows) && "" !in TableNames(rows)
  }

  /** Registering a bucket under a free, non-empty name and creating its
      table keeps the catalog consistent. */
  lemma ConsistentCreate(rows: map<Bytes, Row>, tables: map<string, map<Bytes, Bytes>>, path: Bytes, table: string)
    requires Consistent(rows, tables)
    requires path !in rows && table !in TableNames(rows) && table != ""
    ensures Consistent(rows[path := Row(table, 0)], tables[table := map[]])
  {
    TableNamesInsert(rows, path, Row(table, 0));
    var after := rows[path := Row(table, 0)];
    forall p, q | p in after && q in after && p != q
      ensures after[p].table != after[q].table
    {
      if p != path && q != path {
        assert after[p] == rows[p] && after[q] == rows[q];
      } else if p == path {
        assert after[q] == rows[q];
      } else {
        assert after[p] == rows[p];
      }
    }
  }

  /** Removing a bucket's row together with its table keeps the catalog
      consistent. */
  lemma ConsistentDestroy(rows: map<Bytes, Row>, tables: map<string, map<Bytes, Bytes>>, path: Bytes)
    requires Consistent(rows, tables) && path in rows
    ensures Consistent(rows - {path}, tables - {rows[path].table})
  {
    TableNamesRemove(rows, path);
  }

  /** Changing a bucket's sequence or the contents of a table keeps the
      catalog consistent. */
  lemma ConsistentUpdate(rows: map<Bytes, Row>, tables: map<string, map<Bytes, Bytes>>,
                         path: Bytes, n: nat, table: string, contents: map<Bytes, Bytes>)
    requires Consistent(rows, tables)
    ensures path in rows ==> Consistent(rows[path := rows[path].(sequence := n)], tables)
    ensures table in tables ==> Consistent(rows, tables[table := contents])
  {
    if path in rows {
      TableNamesRenumber(rows, path, n);
      var after := rows[path := rows[path].(sequence := n)];
      assert forall p :: p in after ==> after[p].table == rows[p].table;
    }
  }

  /** The database as seen through one SQL transaction. */
  class Store {
    /** `bucketindex`: bucket id to (table name, sequence). */
    var rows: map<Bytes, Row>
    /** The bucket tables, by name: key to value. */
    var tables: map<string, map<Bytes, Bytes>>

    /** Every catalog row names its own, existing table; there is no table
        without a row; no row names the empty string, which
        `getTableName` uses for "absent". */
    ghost predicate Valid()
      reads this
    {
      Consistent(rows, tables)
    }

    /** `Create`: an empty catalog. */
    constructor Create()
      ensures Valid() && rows == map[] && tables == map[]
    {
      rows := map[];
      tables := map[];
    }

    /** `getTableName`: the table of the bucket with id `path`, or "" when
        the catalog has no such bucket. */
    function GetTableName(path: Bytes): (table: string)
      reads this
      requires "" !in TableNames(rows)
      ensures table == "" <==> path !in rows
      ensures table != "" ==> table == rows[path].table
    {
      if path in rows then rows[path].table else ""
    }
  }

  /** `u` is the first disambiguator whose candidate is not taken yet. */
  predicate FirstFree(segs: seq<Segment>, used: set<string>, u: nat)
  {
    Candidate(segs, u) !in used && forall v :: 0 <= v < u ==> Candidate(segs, v) in used
  }

  /** What `mkBucket(path, create)` does to a catalog (`rows0`, `tables0`)
      and what it returns: the existing entry; nothing when `create` is
      false; the decoder's error for an id that is not a path id; otherwise
      one new row (path, first free candidate, sequence 0) and one new empty
      table, everything else unchanged. */
  ghost predicate Opened(rows0: map<Bytes, Row>, tables0: map<string, map<Bytes, Bytes>>,
                         rows1: map<Bytes, Row>, tables1: map<string, map<Bytes, Bytes>>,
                         path: Bytes, create: bool, b: Bucket?, err: Outcome)
  {
    && (b != null ==> b.id == path && path in rows1 && b.table == rows1[path].table)
    && if path in rows0 then
         b != null && err == Pass && rows1 == rows0 && tables1 == tables0
       else if !create then
         b == null && err == Pass && rows1 == rows0 && tables1 == tables0
       else match DecodePath(path)
         case Err(e) =>
           b == null && err == Fail(e) && rows1 == rows0 && tables1 == tables0
         case Ok(segs) =>
           && b != null && err == Pass
           && (exists u :: FirstFree(segs, TableNames(rows0), u) && b.table == Candidate(segs, u))
           && rows1 == rows0[path := Row(b.table, 0)]
           && tables1 == tables0[b.table := map[]]
  }

  /** What `destroyBucket(path)` does: an error for an absent bucket;
      otherwise its row and its table go, and every other row (its nested
      buckets' included) and table stays. */
  ghost predicate Destroyed(rows0: map<Bytes, Row>, tables0: map<string, map<Bytes, Bytes>>,
                            rows1: map<Bytes, Row>, tables1: map<string, map<Bytes, Bytes>>,
                            path: Bytes, err: Outcome)
  {
    if path !in rows0 then
      err == Fail(NotFound) && rows1 == rows0 && tables1 == tables0
    else
      err == Pass && rows1 == rows0 - {path} && tables1 == tables0 - {rows0[path].table}
  }

  /** `mkBucket`: opens the bucket with id `path`, creating it when asked.
      A new bucket probes candidates for `unique` = 0, 1, 2, ...; the insert
      is ignored while the candidate is another bucket's table, and the
      probe stops at the first one that went in. */
  method MkBucket(sqltx: Store, path: Bytes, create: bool) returns (b: Bucket?, err: Outcome)
    requires sqltx.Valid()
    modifies sqltx
    ensures sqltx.Valid()
    ensures b != null ==> fresh(b) && b.sqltx == sqltx
    ensures Opened(old(sqltx.rows), old(sqltx.tables), sqltx.rows, sqltx.tables, path, create, b, err)
  {
    var table := sqltx.GetTableName(path);
    if table != "" {
      b := new Bucket(path, table, sqltx);
      return b, Pass;
    } else if !create {
      return null, Pass;
    }
    ghost var used := TableNames(sqltx.rows);
    ghost var bound: nat := 0;
    if DecodePath(path).Ok? {
      FreeCandidateExists(DecodePath(path).value, used);
      bound :| Candidate(DecodePath(path).value, bound) !in used;
    }
    var unique := 0;
    while true
      invariant sqltx.rows == old(sqltx.rows) && sqltx.tables == old(sqltx.tables)
      invariant Probed(path, used, unique, bound)
      decreases bound - unique
    {
      var r := EncodeTableName(path, unique);
      if r.Err? {
        ProbeError(path, unique);
        return null, Fail(r.error);
      }
      table := r.value;
      ProbeNonEmpty(path, unique, table);
      // INSERT OR IGNORE: the UNIQUE constraint on `table` drops the row
      // when the candidate is taken.
      if table !in TableNames(sqltx.rows) {
        TableNamesInsert(sqltx.rows, path, Row(table, 0));
        sqltx.rows := sqltx.rows[path := Row(table, 0)];
      }
      var table1 := sqltx.GetTableName(path);
      if table1 == table {
        break;
      }
      ProbeNext(path, used, unique, bound, table);
      unique := unique + 1;
    }
    ProbeFound(path, used, unique, bound, table);
    ConsistentCreate(old(sqltx.rows), old(sqltx.tables), path, table);
    // CREATE TABLE
    sqltx.tables := sqltx.tables[table := map[]];
    b := new Bucket(path, table, sqltx);
    err := Pass;
  }

  /** The probe state before trying `unique`: for a path id, every smaller
      disambiguator gave a taken name, and `bound`, whose candidate is free,
      is not passed yet. */
  ghost predicate Probed(path: Bytes, used: set<string>, unique: nat, bound: nat)
  {
    DecodePath(path).Ok? ==>
      && unique <= bound && Candidate(DecodePath(path).value, bound) !in used
      && forall v :: 0 <= v < unique ==> Candidate(DecodePath(path).value, v) in used
  }

  lemma ProbeNext(path: Bytes, used: set<string>, unique: nat, bound: nat, table: string)
    requires Probed(path, used, unique, bound)
    requires EncodedTableName(path, unique) == Ok(table) && table in used
    ensures unique < bound && Probed(path, used, unique + 1, bound)
  {
  }

  lemma ProbeFound(path: Bytes, used: set<string>, unique: nat, bound: nat, table: string)
    requires Probed(path, used, unique, bound)
    requires EncodedTableName(path, unique) == Ok(table) && table !in used
    ensures DecodePath(path).Ok?
    ensures FirstFree(DecodePath(path).value, used, unique) && table == Candidate(DecodePath(path).value, unique)
  {
  }

  lemma ProbeNonEmpty(path: Bytes, unique: nat, table: string)
    requires EncodedTableName(path, unique) == Ok(table)
    ensures table != ""
  {
    CandidateNonEmpty(DecodePath(path).value, unique);
  }

  lemma ProbeError(path: Bytes, unique: nat)
    requires EncodedTableName(path, unique).Err?
    ensures DecodePath(path) == Err(EncodedTableName(path, unique).error)
  {
  }

  /** `destroyBucket`: drops the bucket's table and deletes its row. */
  method DestroyBucket(sqltx: Store, path: Bytes) returns (err: Outcome)
    requires sqltx.Valid()
    modifies sqltx
    ensures sqltx.Valid()
    ensures Destroyed(old(sqltx.rows), old(sqltx.tables), sqltx.rows, sqltx.tables, path, err)
  {
    var table := sqltx.GetTableName(path);
    if table == "" {
      return Fail(NotFound);
    }
    ConsistentDestroy(sqltx.rows, sqltx.tables, path);
    sqltx.tables := sqltx.tables - {table};
    sqltx.rows := sqltx.rows - {path};
    err := Pass;
  }

  /** `RootBucket`: the top-level bucket named `key`. */
  method RootBucket(sqltx: Store, key: Segment, create: bool) returns (b: Bucket?, err: Outcome)
    requires sqltx.Valid()
    modifies sqltx
    ensures sqltx.Valid()
    ensures b != null ==> fresh(b) && b.sqltx == sqltx
    ensures Opened(old(sqltx.rows), old(sqltx.tables), sqltx.rows, sqltx.tables,
                   MkRootBucketId(key), create, b, err)
  {
    b, err := MkBucket(sqltx, MkRootBucketId(key), create);
  }

  /** A Go interface value meant to hold a bucket: the nil interface, or
      one whose dynamic type is `*Bucket`, holding a pointer that may itself
      be nil. */
  datatype BucketIface = NilIface | BucketPtr(ptr: Bucket?)

  /** A bucket handle: the id it was opened with, the table the catalog gave
      it, and the transaction it works in. */
  class Bucket {
    const id: Bytes
    const table: string
    const sqltx: Store

    constructor (id: Bytes, table: string, sqltx: Store)
      ensures this.id == id && this.table == table && this.sqltx == sqltx
    {
      this.id := id;
      this.table := table;
      this.sqltx := sqltx;
    }

    // ---------------------------------------------------------------
    // Child buckets

    /** `NestedReadWriteBucket` as evidently intended: the child `key` if
        it exists, no bucket otherwise. Creates nothing. */
    method NestedReadWriteBucket(key: Segment) returns (child: Bucket?)
      requires sqltx.Valid()
      modifies sqltx
      ensures sqltx.rows == old(sqltx.rows) && sqltx.tables == old(sqltx.tables)
      ensures child != null <==> WithAppended(id, key) in sqltx.rows
      ensures child != null ==>
        && fresh(child) && child.sqltx == sqltx
        && child.id == WithAppended(id, key) && child.table == sqltx.rows[child.id].table
    {
      // With `create` false, mkBucket only reads the catalog and cannot fail.
      var err;
      child, err := MkBucket(sqltx, WithAppended(id, key), false);
    }

    /** `NestedReadWriteBucket` as written: `return child` converts the
        `*Bucket` that `mkBucket` returned into an interface value, which is
        never the nil interface, even when it holds a nil pointer for an
        absent child (the error branch is never taken, since `mkBucket`
        without `create` only reads the catalog). */
    method NestedReadWriteBucketAsWritten(key: Segment) returns (child: BucketIface)
      requires sqltx.Valid()
      modifies sqltx
      ensures sqltx.rows == old(sqltx.rows) && sqltx.tables == old(sqltx.tables)
      ensures child != NilIface
      ensures child.ptr != null <==> WithAppended(id, key) in sqltx.rows
      ensures child.ptr != null ==>
        && fresh(child.ptr) && child.ptr.sqltx == sqltx
        && child.ptr.id == WithAppended(id, key) && child.ptr.table == sqltx.rows[child.ptr.id].table
    {
      var b, err := MkBucket(sqltx, WithAppended(id, key), false);
      child := BucketPtr(b);
    }

    /** `CreateBucket`: creates the child `key`; an existing child is an
        error and nothing changes. */
    method CreateBucket(key: Segment) returns (child: Bucket?, err: Outcome)
      requires sqltx.Valid()
      modifies sqltx
      ensures sqltx.Valid()
      ensures WithAppended(id, key) in old(sqltx.rows) ==>
        child == null && err == Fail(AlreadyExists)
        && sqltx.rows == old(sqltx.rows) && sqltx.tables == old(sqltx.tables)
      ensures WithAppended(id, key) !in old(sqltx.rows) ==>
        Opened(old(sqltx.rows), old(sqltx.tables), sqltx.rows, sqltx.tables,
               WithAppended(id, key), true, child, err)
      ensures child != null ==> fresh(child) && child.sqltx == sqltx
    {
      var childPath := WithAppended(id, key);
      var existing, lookupErr := MkBucket(sqltx, childPath, false);
      if existing != null {
        return null, Fail(AlreadyExists);
      }
      child, err := MkBucket(sqltx, childPath, true);
    }

    /** `CreateBucketIfNotExists`: the child `key`, created when absent. */
    method CreateBucketIfNotExists(key: Segment) returns (child: Bucket?, err: Outcome)
      requires sqltx.Valid()
      modifies sqltx
      ensures sqltx.Valid()
      ensures child != null ==> fresh(child) && child.sqltx == sqltx
      ensures Opened(old(sqltx.rows), old(sqltx.tables), sqltx.rows, sqltx.tables,
                     WithAppended(id, key), true, child, err)
    {
      child, err := MkBucket(sqltx, WithAppended(id, key), true);
    }

    /** `DeleteNestedBucket`: destroys the child `key`. */
    method DeleteNestedBucket(key: Segment) returns (err: Outcome)
      requires sqltx.Valid()
      modifies sqltx
      ensures sqltx.Valid()
      ensures Destroyed(old(sqltx.rows), old(sqltx.tables), sqltx.rows, sqltx.tables,
                        WithAppended(id, key), err)
    {
      err := DestroyBucket(sqltx, WithAppended(id, key));
    }

    // ---------------------------------------------------------------
    // Sequences

    /** `NextSequence`: increments the bucket's counter and returns the new
        value; a bucket without a catalog row has no counter. */
    method NextSequence() returns (n: nat, err: Outcome)
      requires sqltx.Valid()
      modifies sqltx
      ensures sqltx.Valid() && sqltx.tables == old(sqltx.tables)
      ensures id in old(sqltx.rows) ==>
        && err == Pass && n == old(sqltx.rows)[id].sequence + 1
        && sqltx.rows == old(sqltx.rows)[id := old(sqltx.rows)[id].(sequence := n)]
      ensures id !in old(sqltx.rows) ==>
        n == 0 && err == Fail(NotFound) && sqltx.rows == old(sqltx.rows)
    {
      if id !in sqltx.rows {
        return 0, Fail(NotFound);
      }
      n := sqltx.rows[id].sequence + 1;
      ConsistentUpdate(sqltx.rows, sqltx.tables, id, n, table, map[]);
      sqltx.rows := sqltx.rows[id := sqltx.rows[id].(sequence := n)];
      err := Pass;
    }

    /** `SetSequence`: sets the bucket's counter; an update that matches no
        row changes nothing and is not an error. */
    method SetSequence(v: nat) returns (err: Outcome)
      requires sqltx.Valid()
      modifies sqltx
      ensures sqltx.Valid() && sqltx.tables == old(sqltx.tables) && err == Pass
      ensures id in old(sqltx.rows) ==>
        sqltx.rows == old(sqltx.rows)[id := old(sqltx.rows)[id].(sequence := v)]
      ensures id !in old(sqltx.rows) ==> sqltx.rows == old(sqltx.rows)
    {
      if id in sqltx.rows {
        ConsistentUpdate(sqltx.rows, sqltx.tables, id, v, table, map[]);
        sqltx.rows := sqltx.rows[id := sqltx.rows[id].(sequence := v)];
      }
      err := Pass;
    }

    /** `Sequence`: the bucket's counter, 0 when it has none. */
    method Sequence() returns (n: nat)
      ensures id in sqltx.rows ==> n == sqltx.rows[id].sequence
      ensures id !in sqltx.rows ==> n == 0
    {
      if id in sqltx.rows {
        n := sqltx.rows[id].sequence;
      } else {
        n := 0;
      }
    }

    // ---------------------------------------------------------------
    // Get / Put / Delete

    /** `Put`: inserts `key` or overwrites its value. A handle whose table
        is gone gets the database's error. */
    method Put(key: Bytes, value: Bytes) returns (err: Outcome)
      requires sqltx.Valid()
      modifies sqltx
      ensures sqltx.Valid() && sqltx.rows == old(sqltx.rows)
      ensures table in old(sqltx.tables) ==>
        err == Pass && sqltx.tables == old(sqltx.tables)[table := old(sqltx.tables)[table][key := value]]
      ensures table !in old(sqltx.tables) ==>
        err == Fail(StorageError) && sqltx.tables == old(sqltx.tables)
    {
      if table !in sqltx.tables {
        return Fail(StorageError);
      }
      ConsistentUpdate(sqltx.rows, sqltx.tables, id, 0, table, sqltx.tables[table][key := value]);
      sqltx.tables := sqltx.tables[table := sqltx.tables[table][key := value]];
      err := Pass;
    }

    /** `Get`: the value stored under `key`, if any. */
    method Get(key: Bytes) returns (v: Option<Bytes>)
      ensures v.Some? <==> table in sqltx.tables && key in sqltx.tables[table]
      ensures v.Some? ==> v.value == sqltx.tables[table][key]
    {
      if table in sqltx.tables && key in sqltx.tables[table] {
        v := Some(sqltx.tables[table][key]);
      } else {
        v := None;
      }
    }

    /** `Delete`: removes `key`; removing an absent key succeeds. */
    method Delete(key: Bytes) returns (err: Outcome)
      requires sqltx.Valid()
      modifies sqltx
      ensures sqltx.Valid() && sqltx.rows == old(sqltx.rows)
      ensures table in old(sqltx.tables) ==>
        err == Pass && sqltx.tables == old(sqltx.tables)[table := old(sqltx.tables)[table] - {key}]
      ensures table !in old(sqltx.tables) ==>
        err == Fail(StorageError) && sqltx.tables == old(sqltx.tables)
    {
      if table !in sqltx.tables {
        return Fail(StorageError);
      }
      ConsistentUpdate(sqltx.rows, sqltx.tables, id, 0, table, sqltx.tables[table] - {key});
      sqltx.tables := sqltx.tables[table := sqltx.tables[table] - {key}];
      err := Pass;
    }

    // ---------------------------------------------------------------
    // Iteration

    /** `ForEachBeginningWith`: calls `fn` on every key not before `start`
        (every key when `start` is empty), in ascending order, and stops at
        the first error `fn` returns. */
    method ForEachBeginningWith(start: Bytes, fn: (Bytes, Bytes) -> Outcome)
      returns (visited: seq<Bytes>, err: Outcome)
      ensures table !in sqltx.tables ==> visited == [] && err == Fail(StorageError)
      ensures table in sqltx.tables ==>
        Scanned(sqltx.tables[table], Sorted(From(sqltx.tables[table].Keys, start)), fn, visited, err)
    {
      if table !in sqltx.tables {
        return [], Fail(StorageError);
      }
      var t := sqltx.tables[table];
      var cur: Option<Bytes>;
      if |start| > 0 {
        cur := Seek(t.Keys, start);
      } else {
        cur := First(t.Keys);
        assert From(t.Keys, start) == t.Keys;
      }
      CursorAtStart(t.Keys, start, cur);
      visited, err := Walk(t, start, cur, fn);
    }

    /** `ForEach`: the scan from the first key. */
    method ForEach(fn: (Bytes, Bytes) -> Outcome) returns (visited: seq<Bytes>, err: Outcome)
      ensures table !in sqltx.tables ==> visited == [] && err == Fail(StorageError)
      ensures table in sqltx.tables ==>
        Scanned(sqltx.tables[table], Sorted(sqltx.tables[table].Keys), fn, visited, err)
    {
      visited, err := ForEachBeginningWith([], fn);
      if table in sqltx.tables {
        assert From(sqltx.tables[table].Keys, []) == sqltx.tables[table].Keys;
      }
    }
  }

  /** The outcome of a scan over `order`: the keys called, a prefix of
      `order`; every call but the last passed; the scan stopped early only
      on an error, which is the last call's; a completed scan passed all. */
  ghost predicate Scanned(t: map<Bytes, Bytes>, order: seq<Bytes>, fn: (Bytes, Bytes) -> Outcome,
                          visited: seq<Bytes>, err: Outcome)
  {
    && |visited| <= |order| && visited == order[..|visited|]
    && (err == Pass ==> visited == order)
    && (err.Fail? ==> visited != [])
    && forall i :: 0 <= i < |visited| ==>
         visited[i] in t && fn(visited[i], t[visited[i]]) == if i == |visited| - 1 then err else Pass
  }

  /** The loop of `ForEachBeginningWith`: from the cursor on the first key
      of the scan from `start`, calls `fn` on each key and moves the cursor
      to the next, until the keys run out or `fn` fails. */
  method Walk(t: map<Bytes, Bytes>, start: Bytes, first: Option<Bytes>, fn: (Bytes, Bytes) -> Outcome)
    returns (visited: seq<Bytes>, err: Outcome)
    requires first == if |Sorted(From(t.Keys, start))| > 0 then Some(Sorted(From(t.Keys, start))[0]) else None
    ensures Scanned(t, Sorted(From(t.Keys, start)), fn, visited, err)
  {
    ghost var order := Sorted(From(t.Keys, start));
    ScanKeys(t.Keys, start);
    var cur := first;
    visited := [];
    err := Pass;
    while cur.Some?
      invariant |visited| <= |order| && visited == order[..|visited|]
      invariant cur == if |visited| < |order| then Some(order[|visited|]) else None
      invariant AllPass(t, fn, visited)
      invariant err == Pass
      decreases |order| - |visited|
    {
      var k := cur.value;
      assert k in order;
      err := fn(k, t[k]);
      PrefixSnoc(order, |visited|);
      if err.Fail? {
        ScanStopped(t, order, fn, visited, err);
        visited := visited + [k];
        return;
      }
      AllPassSnoc(t, fn, visited, k);
      visited := visited + [k];
      cur := Next(t.Keys, k);
      CursorAfter(t.Keys, start, |visited| - 1, cur);
    }
    ScanDone(t, order, fn, visited);
  }

  /** `fn` passed every key of `s`. */
  ghost predicate AllPass(t: map<Bytes, Bytes>, fn: (Bytes, Bytes) -> Outcome, s: seq<Bytes>)
  {
    forall i :: 0 <= i < |s| ==> s[i] in t && fn(s[i], t[s[i]]) == Pass
  }

  lemma AllPassSnoc(t: map<Bytes, Bytes>, fn: (Bytes, Bytes) -> Outcome, s: seq<Bytes>, k: Bytes)
    requires AllPass(t, fn, s) && k in t && fn(k, t[k]) == Pass
    ensures AllPass(t, fn, s + [k])
  {
  }

  lemma PrefixSnoc(order: seq<Bytes>, n: nat)
    requires n < |order|
    ensures order[..n + 1] == order[..n] + [order[n]]
  {
  }

  /** A scan that reached the end of `order` with every call passing. */
  lemma ScanDone(t: map<Bytes, Bytes>, order: seq<Bytes>, fn: (Bytes, Bytes) -> Outcome, visited: seq<Bytes>)
    requires visited == order && AllPass(t, fn, visited)
    ensures Scanned(t, order, fn, visited, Pass)
  {
  }

  /** A scan that stopped at the key after `visited` because `fn` failed there. */
  lemma ScanStopped(t: map<Bytes, Bytes>, order: seq<Bytes>, fn: (Bytes, Bytes) -> Outcome,
                    visited: seq<Bytes>, err: Outcome)
    requires |visited| < |order| && order[..|visited| + 1] == visited + [order[|visited|]]
    requires AllPass(t, fn, visited) && order[|visited|] in t
    requires err.Fail? && fn(order[|visited|], t[order[|visited|]]) == err
    ensures Scanned(t, order, fn, visited + [order[|visited|]], err)
  {
  }

  /** The cursor's `First`: the least key. */
  method First(keys: set<Bytes>) returns (k: Option<Bytes>)
    ensures k.None? <==> keys == {}
    ensures k.Some? ==> IsLeast(k.value, keys)
  {
    k := Seek(keys, []);
    assert From(keys, []) == keys;
  }

  /** The cursor's `Seek`: the least key not before `lo`. */
  method Seek(keys: set<Bytes>, lo: Bytes) returns (k: Option<Bytes>)
    ensures k.None? <==> From(keys, lo) == {}
    ensures k.Some? ==> IsLeast(k.value, From(keys, lo))
  {
    var candidates := From(keys, lo);
    if candidates == {} {
      return None;
    }
    LeastExists(candidates);
    var m :| IsLeast(m, candidates);
    k := Some(m);
  }

  /** The cursor's `Next`: the least key after `x`. */
  method Next(keys: set<Bytes>, x: Bytes) returns (k: Option<Bytes>)
    ensures k.None? <==> After(keys, x) == {}
    ensures k.Some? ==> IsLeast(k.value, After(keys, x))
  {
    var candidates := After(keys, x);
    if candidates == {} {
      return None;
    }
    LeastExists(candidates);
    var m :| IsLeast(m, candidates);
    k := Some(m);
  }

  // -------------------------------------------------------------------
  // Uses of a bucket

  /** `Put` is an upsert: a value written is read back, and a second write
      to the same key replaces it. */
  method PutPutGet(b: Bucket, key: Bytes, v1: Bytes, v2: Bytes) returns (first: Option<Bytes>, second: Option<Bytes>)
    requires b.sqltx.Valid() && b.table in b.sqltx.tables
    modifies b.sqltx
    ensures first == Some(v1) && second == Some(v2)
  {
    var _ := b.Put(key, v1);
    first := b.Get(key);
    var _ := b.Put(key, v2);
    second := b.Get(key);
  }

  /** After `Delete(key)` the key reads as absent, and every other key
      reads as before. */
  method DeleteGet(b: Bucket, key: Bytes, other: Bytes) returns (gone: Option<Bytes>, before: Option<Bytes>, after: Option<Bytes>)
    requires b.sqltx.Valid() && b.table in b.sqltx.tables && other != key
    modifies b.sqltx
    ensures gone == None && after == before
  {
    before := b.Get(other);
    var _ := b.Delete(key);
    gone := b.Get(key);
    after := b.Get(other);
  }

  /** After `SetSequence(v)`, `n` calls of `NextSequence` return v+1, ...,
      v+n, and `Sequence` then reads v+n. */
  method SequenceRun(b: Bucket, v: nat, n: nat) returns (values: seq<nat>, last: nat)
    requires b.sqltx.Valid() && b.id in b.sqltx.rows
    modifies b.sqltx
    ensures |values| == n && forall i :: 0 <= i < n ==> values[i] == v + 1 + i
    ensures last == v + n
  {
    var _ := b.SetSequence(v);
    values := [];
    while |values| < n
      invariant b.sqltx.Valid() && b.id in b.sqltx.rows
      invariant |values| <= n && b.sqltx.rows[b.id].sequence == v + |values|
      invariant forall i :: 0 <= i < |values| ==> values[i] == v + 1 + i
    {
      var next, _ := b.NextSequence();
      values := values + [next];
    }
    last := b.Sequence();
  }

  /** Opening a child twice with `CreateBucketIfNotExists` binds both
      handles to one table, so a write through one is seen through the
      other. */
  method CreateTwice(b: Bucket, key: Segment, k: Bytes, v: Bytes)
    returns (c1: Bucket?, c2: Bucket?, seen: Option<Bytes>)
    requires b.sqltx.Valid() && DecodePath(WithAppended(b.id, key)).Ok?
    modifies b.sqltx
    ensures c1 != null && c2 != null && c1.table == c2.table && seen == Some(v)
  {
    var err1, err2;
    c1, err1 := b.CreateBucketIfNotExists(key);
    c2, err2 := b.CreateBucketIfNotExists(key);
    var _ := c1.Put(k, v);
    seen := c2.Get(k);
  }

  /** As written, `NestedReadWriteBucket` on an absent child hands the
      caller an interface that is not nil but holds a nil pointer, so a
      caller's test for nil does not catch it and its next call dereferences
      nil. The
      intended method reports no bucket. */
  method AbsentChildIsNotNil(b: Bucket, key: Segment)
    returns (asWritten: BucketIface, intended: Bucket?)
    requires b.sqltx.Valid() && WithAppended(b.id, key) !in b.sqltx.rows
    modifies b.sqltx
    ensures asWritten != NilIface && asWritten.ptr == null
    ensures intended == null
  {
    asWritten := b.NestedReadWriteBucketAsWritten(key);
    intended := b.NestedReadWriteBucket(key);
  }

  /** A second `CreateBucket` of the same child fails. */
  method CreateBucketTwice(b: Bucket, key: Segment) returns (err1: Outcome, err2: Outcome)
    requires b.sqltx.Valid() && DecodePath(WithAppended(b.id, key)).Ok?
    requires WithAppended(b.id, key) !in b.sqltx.rows
    modifies b.sqltx
    ensures err1 == Pass && err2 == Fail(AlreadyExists)
  {
    var c1, c2;
    c1, err1 := b.CreateBucket(key);
    c2, err2 := b.CreateBucket(key);
  }
}
