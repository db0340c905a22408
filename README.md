# Bucket storage on SQL, modelled in Dafny

This project models the SQL-backed storage layer of the wallet database
(`pktwallet/walletdb/sql`). The layer stores nested buckets of keys and values
in a relational database:

- **Bucket ids.** The path of a bucket (a list of byte-string segments) is
  encoded as a byte string. Each segment carries a CompactSize length prefix,
  the variable-length integer of the Bitcoin wire format.
- **Table names.** A bucket's keys live in an SQL table of their own. Its name
  is derived from the path by a lossy escape, cut to 60 characters, with an
  optional `-u<hex>` disambiguator.
- **The catalog.** The `bucketindex` table maps every bucket id to its table
  name and its sequence counter. `mkBucket` looks a bucket up, or registers it
  under the first candidate name no other bucket uses. `destroyBucket` drops
  the table and removes the row.
- **Buckets.** A bucket handle offers upsert, lookup and delete of keys, child
  buckets, a sequence counter, and iteration in key order from a start key.
- **Transactions.** A transaction is open until `Commit` or `Rollback`
  succeeds. Callbacks registered with `OnCommit` run, in order, after a
  successful commit.
- **Bucket paths.** A second path-to-table-name scheme (`bucketpath`) uses an
  injective `%hh` escape.

Files:

| file | module | models |
|---|---|---|
| `common.dfy` | `Common` | bytes, errors, result wrappers, hex digits |
| `compactsize.dfy` | `CompactSize` | CompactSize integers and length-prefixed byte strings |
| `bucketid.dfy` | `BucketIds` | `buckets/util.go` |
| `byteorder.dfy` | `ByteOrder` | the byte order of keys, and the ascending enumeration a scan follows |
| `buckets.dfy` | `Buckets` | `buckets/main.go`, `buckets/bucket.go` |
| `bucketpath.dfy` | `BucketPaths` | `bucketpath/tablename.go`, `bucketpath/main.go` |
| `transaction.dfy` | `Transactions` | `transaction.go`; its constructor stands for `beginTx` of `db.go` |

State and how it is represented:

- **The database one SQL transaction sees** is a `Store` object. Its field
  `rows` is the catalog: id to (table name, sequence). Its field `tables`
  holds the bucket tables: name to a key/value map.
- **The catalog invariant** is `Consistent`:
  - the tables are exactly the ones the rows name;
  - no two rows name the same table (the UNIQUE constraint);
  - no row names `""`, which `getTableName` uses for "absent".
- **A bucket handle** is a `Bucket` object that keeps its id, its table name
  and its store.
- **A transaction** is a `Transaction` object:
  - `sqltx` is `null` once the transaction has ended, as in the source;
  - `fired` logs the ids of the callbacks that ran.
- **The transaction's life cycle** is also given as a value-level state
  machine (`Step`, `Run`). The methods are proved to follow it.

## Model

| member | source | states |
|---|---|---|
| CompactSize.WriteVarInt | pktwallet/walletdb/sql/buckets/util.go:30 | the CompactSize form of a length is 1 to 9 bytes, and a single byte exactly when the value is below 0xfd |
| CompactSize.ReadVarInt | pktwallet/walletdb/sql/buckets/util.go:40 | a successful read returns a value below 2^64 whose canonical form, followed by the rest, is exactly the input; a short buffer fails and a long form for a small value is refused |
| CompactSize.FromToLittleEndian | pktwallet/walletdb/sql/buckets/util.go:40 | reading back the little-endian bytes of a value gives the value |
| CompactSize.ToFromLittleEndian | pktwallet/walletdb/sql/buckets/util.go:40 | writing the value of a little-endian byte string gives the same bytes |
| CompactSize.ReadWriteVarInt | pktwallet/walletdb/sql/buckets/util.go:40 | reading a written CompactSize yields the value and leaves whatever followed |
| CompactSize.ReadVarBytes | pktwallet/walletdb/sql/buckets/util.go:40 | a successful read returns an element within the size limit, and the input is that element as written followed by the rest |
| CompactSize.WriteVarBytes | pktwallet/walletdb/sql/buckets/util.go:30 | the written element is longer than the bytes it holds; `ReadWriteVarBytes` reads it back as those bytes followed by the rest |
| CompactSize.ReadWriteVarBytes | pktwallet/walletdb/sql/buckets/util.go:40 | reading a written element within the limit yields it and leaves the rest |
| CompactSize.ReadVarBytesTooLong | pktwallet/walletdb/sql/buckets/util.go:40 | an element over the limit is refused with `TooLong` |
| BucketIds.MkRootBucketId | pktwallet/walletdb/sql/buckets/util.go:28-32 | the root id ends with the segment and reads back as exactly that segment with nothing left over |
| BucketIds.WithAppended | pktwallet/walletdb/sql/buckets/util.go:24-26 | the child id starts with the parent id unchanged, followed by the root id of the new segment |
| BucketIds.WithAppendedEncodes | pktwallet/walletdb/sql/buckets/util.go:24-26 | appending a segment to the id of a path gives the id of the extended path |
| BucketIds.EncodeInjective | pktwallet/walletdb/sql/buckets/util.go:24-32 | distinct paths have distinct ids |
| BucketIds.DecodePath | pktwallet/walletdb/sql/buckets/util.go:37-51 | a successful decoding is a non-empty path of segments of at most 1000 bytes whose id is the input |
| BucketIds.DecodeEncode | pktwallet/walletdb/sql/buckets/util.go:37-51 | the id of a path decodes to the path; the empty id fails as end of input and a segment over 1000 bytes fails as too long |
| BucketIds.EscapeChar | pktwallet/walletdb/sql/buckets/util.go:62-73 | one character: digits and letters stand for themselves, every other byte becomes `_` |
| BucketIds.EscapeIsLossy | pktwallet/walletdb/sql/buckets/util.go:62-73 | two distinct ids (the root buckets `-` and `.`) share the candidate `bkt-_` |
| BucketIds.CaseCollision | pktwallet/walletdb/sql/buckets/util.go:62-73 | two distinct ids (the root buckets `A` and `a`) get the candidates `bkt-A` and `bkt-a`, distinct strings that are equal once letter case is ignored |
| BucketIds.BodyAppend | pktwallet/walletdb/sql/buckets/util.go:44-47 | each further segment adds `-` and its escaped bytes to the uncut name |
| BucketIds.CandidateShape | pktwallet/walletdb/sql/buckets/util.go:52-59 | the candidate ends with the whole suffix (`-u` and the hex of `unique`, or nothing for 0); before it is a prefix of the uncut name, all of it when both fit; it starts with `bkt` and has at most 60 characters |
| BucketIds.CandidateNonEmpty | pktwallet/walletdb/sql/buckets/util.go:36-60 | no candidate is the empty string |
| BucketIds.HexRoundTrip | pktwallet/walletdb/sql/buckets/util.go:54 | the lower-case hex of a number reads back as the number |
| BucketIds.CandidateInjective | pktwallet/walletdb/sql/buckets/util.go:52-59 | candidates with different positive disambiguators differ, whatever the segments |
| BucketIds.FreeCandidateExists | pktwallet/walletdb/sql/buckets/main.go:46-64 | for any finite set of taken names, one of the first (size + 1) disambiguators gives a free candidate |
| BucketIds.EncodeTableName | pktwallet/walletdb/sql/buckets/util.go:36-60 | the loop returns the candidate of the decoded path for `unique`, or the decoder's error |
| BucketIds.String | pktwallet/walletdb/sql/buckets/util.go:16-22 | the candidate without disambiguator (at most 60 characters) for a valid id, otherwise an error line quoting the id in hex |
| ByteOrder.LessTotal | pktwallet/walletdb/sql/buckets/bucket.go:149-154 | any two distinct keys are ordered one way or the other |
| ByteOrder.LessTransitive | pktwallet/walletdb/sql/buckets/bucket.go:149-154 | the key order is transitive |
| ByteOrder.LeastExists | pktwallet/walletdb/sql/buckets/bucket.go:149-154 | every non-empty finite set of keys has a least key |
| ByteOrder.SortedEnumerates | pktwallet/walletdb/sql/buckets/bucket.go:149-154 | the enumeration of a key set is strictly ascending and lists exactly its keys |
| ByteOrder.NextInOrder | pktwallet/walletdb/sql/buckets/bucket.go:154 | the least key after the i-th key of the scan is the (i+1)-th, and there is none after the last |
| ByteOrder.CursorAtStart | pktwallet/walletdb/sql/buckets/bucket.go:149-153 | a cursor placed on the least key not before the start is on the first key of the scan, or on none when the scan is empty |
| ByteOrder.CursorAfter | pktwallet/walletdb/sql/buckets/bucket.go:154 | a cursor moved to the least key after the i-th is on the (i+1)-th key of the scan, or on none after the last |
| Buckets.ConsistentCreate | pktwallet/walletdb/sql/buckets/main.go:46-73 | registering a bucket under a free non-empty name, with a new empty table, keeps the catalog invariant |
| Buckets.ConsistentDestroy | pktwallet/walletdb/sql/buckets/main.go:76-92 | removing a row and its table keeps the catalog invariant |
| Buckets.ConsistentUpdate | pktwallet/walletdb/sql/buckets/bucket.go:71-137 | changing a sequence counter or the contents of an existing table keeps the catalog invariant |
| Buckets.Store.Create | pktwallet/walletdb/sql/buckets/main.go:9-16 | a new catalog is empty and consistent |
| Buckets.Store.GetTableName | pktwallet/walletdb/sql/buckets/main.go:23-34 | the stored table name, and `""` exactly when the path has no row |
| Buckets.MkBucket | pktwallet/walletdb/sql/buckets/main.go:36-74 | an existing bucket is returned unchanged whatever `create` says; an absent one gives no bucket and no error without `create`; an undecodable id gives the decoder's error; otherwise exactly one row (path, first free candidate, sequence 0) and one empty table are added and nothing else changes; the catalog invariant is kept |
| Buckets.ProbeNext | pktwallet/walletdb/sql/buckets/main.go:46-64 | a taken candidate lets the probe go on, still under the bound that ensures termination |
| Buckets.ProbeFound | pktwallet/walletdb/sql/buckets/main.go:46-64 | the first candidate that is not taken is the first free one |
| Buckets.DestroyBucket | pktwallet/walletdb/sql/buckets/main.go:76-92 | an absent bucket is an error and nothing changes; otherwise exactly its row and its table go, other rows (nested children included) stay |
| Buckets.RootBucket | pktwallet/walletdb/sql/buckets/main.go:94-96 | `mkBucket` on the root id of the key |
| Buckets.Bucket.NestedReadWriteBucket | pktwallet/walletdb/sql/buckets/bucket.go:26-34 | creates nothing; returns a handle exactly when the child's row exists, a fresh one on the same store, for the child id and bound to its table; otherwise nil (as evidently intended, see Findings) |
| Buckets.Bucket.NestedReadWriteBucketAsWritten | pktwallet/walletdb/sql/buckets/bucket.go:26-34 | creates nothing; the interface returned is never nil, and it wraps a nil pointer exactly when the child's row is absent |
| Buckets.AbsentChildIsNotNil | pktwallet/walletdb/sql/buckets/bucket.go:33 | for an absent child key, the code as written returns a non-nil interface around a nil pointer, where the corrected operation returns nil |
| Buckets.Bucket.CreateBucket | pktwallet/walletdb/sql/buckets/bucket.go:40-52 | an existing child is an error and nothing changes; otherwise the child is created as by `mkBucket`, and the handle returned is a fresh one on the same store |
| Buckets.Bucket.CreateBucketIfNotExists | pktwallet/walletdb/sql/buckets/bucket.go:54-62 | `mkBucket` with `create` on the child id |
| Buckets.Bucket.DeleteNestedBucket | pktwallet/walletdb/sql/buckets/bucket.go:64-67 | `destroyBucket` on the child id |
| Buckets.Bucket.NextSequence | pktwallet/walletdb/sql/buckets/bucket.go:71-82 | the counter goes up by one and the new value is returned; a bucket without a row gets an error and nothing changes |
| Buckets.Bucket.SetSequence | pktwallet/walletdb/sql/buckets/bucket.go:84-90 | the counter becomes `v`; an update that matches no row changes nothing and succeeds |
| Buckets.Bucket.Sequence | pktwallet/walletdb/sql/buckets/bucket.go:92-104 | the stored counter, or 0 when there is none |
| Buckets.Bucket.Put | pktwallet/walletdb/sql/buckets/bucket.go:108-115 | inserts or overwrites the key in the bucket's table only; a handle whose table is gone gets an error |
| Buckets.Bucket.Get | pktwallet/walletdb/sql/buckets/bucket.go:117-129 | the stored value exactly when the key is present |
| Buckets.Bucket.Delete | pktwallet/walletdb/sql/buckets/bucket.go:131-137 | removes the key (an absent key is no error) and nothing else |
| Buckets.Bucket.ForEachBeginningWith | pktwallet/walletdb/sql/buckets/bucket.go:141-160 | calls `fn` on the keys not before `start` (all keys for an empty start), in ascending order, each with its value; stops at the first error and returns it; passes when all keys passed |
| Buckets.Bucket.ForEach | pktwallet/walletdb/sql/buckets/bucket.go:171-173 | the same scan over all keys |
| Buckets.Walk | pktwallet/walletdb/sql/buckets/bucket.go:154-159 | the cursor loop visits a prefix of the ascending scan and stops only at the first failing call |
| Buckets.First | pktwallet/walletdb/sql/buckets/bucket.go:152 | the least key, or none for an empty table |
| Buckets.Seek | pktwallet/walletdb/sql/buckets/bucket.go:150 | the least key not before the start, or none |
| Buckets.Next | pktwallet/walletdb/sql/buckets/bucket.go:154 | the least key after the current one, or none |
| Buckets.PutPutGet | pktwallet/walletdb/sql/buckets/bucket.go:108-129 | a value put is read back, and a second put to the same key replaces it |
| Buckets.DeleteGet | pktwallet/walletdb/sql/buckets/bucket.go:117-137 | after a delete the key is absent and another key reads as before |
| Buckets.SequenceRun | pktwallet/walletdb/sql/buckets/bucket.go:71-104 | after `SetSequence(v)`, n calls of `NextSequence` return v+1 ... v+n and `Sequence` then reads v+n |
| Buckets.CreateTwice | pktwallet/walletdb/sql/buckets/bucket.go:54-62 | two `CreateBucketIfNotExists` of one child bind the same table, so a write through one is read through the other |
| Buckets.CreateBucketTwice | pktwallet/walletdb/sql/buckets/bucket.go:40-52 | a second `CreateBucket` of one child fails as already existing |
| BucketPaths.EscapeChar | pktwallet/walletdb/sql/bucketpath/tablename.go:16-26 | digits and letters stand for themselves; any other byte becomes `%` and its two lower-case hex digits |
| BucketPaths.Escape | pktwallet/walletdb/sql/bucketpath/tablename.go:9-11 | an escaped segment holds only digits, letters and `%` |
| BucketPaths.UnescapeEscape | pktwallet/walletdb/sql/bucketpath/tablename.go:16-26 | unescaping an escaped segment gives the segment back |
| BucketPaths.EscapeInjective | pktwallet/walletdb/sql/bucketpath/tablename.go:16-26 | distinct segments escape differently |
| BucketPaths.TableNameOf | pktwallet/walletdb/sql/bucketpath/tablename.go:5-14 | a name starts with `bkt` and holds only digits, letters, `_` and `%` |
| BucketPaths.NoSeparatorInEscape | pktwallet/walletdb/sql/bucketpath/tablename.go:16-26 | an escaped segment never holds `_`, so `_` only separates segments |
| BucketPaths.LastSeparator | pktwallet/walletdb/sql/bucketpath/tablename.go:8-10 | the last `_` splits a name uniquely into the name of the parent path and the last escaped segment |
| BucketPaths.TableNameInjective | pktwallet/walletdb/sql/bucketpath/tablename.go:5-26 | distinct paths have distinct table names |
| BucketPaths.TableNameSnoc | pktwallet/walletdb/sql/bucketpath/tablename.go:7-12 | the name of a path with one more segment is the old name, `_` and the escaped segment |
| BucketPaths.TableName | pktwallet/walletdb/sql/bucketpath/tablename.go:5-14 | the nested loop builds exactly the table name of the path |
| BucketPaths.TableNameOne | pktwallet/walletdb/sql/bucketpath/tablename.go:5-14 | the empty path is named `bkt`, a one-segment path `bkt_` and the escaped segment |
| BucketPaths.BucketPath.Child | pktwallet/walletdb/sql/bucketpath/main.go:8-12 | the child's path is the receiver's path and the name, its table the parent's name, `_` and the escaped name; the receiver is a value and stays as it was |
| BucketPaths.RootKey | pktwallet/walletdb/sql/bucketpath/main.go:18-20 | the path is the one segment `name` |
| BucketPaths.BucketPath.Table | pktwallet/walletdb/sql/bucketpath/main.go:14-16 | on a value made by `RootKey` or `Child`, a non-empty table is the name of the path, and so is every table of a path of other than one segment; `RootChildTable` gives it for a root key and its child |
| BucketPaths.RootChildTable | pktwallet/walletdb/sql/bucketpath/main.go:8-20 | a root key reports no table, and its child's table is `bkt_`, the escaped root name, `_` and the escaped child name |
| Transactions.StepRefused | pktwallet/walletdb/sql/transaction.go:45-69 | on an ended transaction `Commit` and `Rollback` fail as already ended and change nothing; a failed or repeated backend call keeps the transaction open with its callbacks and marks the SQL transaction done |
| Transactions.StepFires | pktwallet/walletdb/sql/transaction.go:45-58 | callbacks run only on a successful first backend commit of an open transaction, which runs every pending one in order, clears the list and ends the transaction |
| Transactions.RunKeepsOrder | pktwallet/walletdb/sql/transaction.go:45-73 | over any series of calls, the callbacks run followed by those pending are the registered ones in registration order |
| Transactions.FiredInOrder | pktwallet/walletdb/sql/transaction.go:45-73 | the callbacks that ran are a prefix of the registered ones: each runs at most once, in order |
| Transactions.EndedStaysEnded | pktwallet/walletdb/sql/transaction.go:45-69 | an ended transaction stays ended and runs no callback, whatever is called |
| Transactions.DoneStaysPut | pktwallet/walletdb/sql/transaction.go:45-69 | once the SQL transaction is done, no series of calls reopens it, ends it anew or runs a callback |
| Transactions.FailedCommitRunsNothing | pktwallet/walletdb/sql/transaction.go:49-51 | after a failed backend commit the transaction stays open and no series of calls runs any callback |
| Transactions.RollbackRunsNothing | pktwallet/walletdb/sql/transaction.go:60-69 | after a rollback no callback ever runs |
| Transactions.RegisterOnly | pktwallet/walletdb/sql/transaction.go:71-73 | registering only appends to the pending list, keeping earlier entries |
| Transactions.CommitRunsAll | pktwallet/walletdb/sql/transaction.go:45-73 | registering callbacks and committing runs every one exactly once, in order |
| Transactions.Transaction.constructor | pktwallet/walletdb/sql/db.go:18-26 | a new transaction is open with no callbacks |
| Transactions.Transaction.CreateTopLevelBucket | pktwallet/walletdb/sql/transaction.go:35-37 | `mkBucket` with `create` on the root id of the key; once the SQL transaction is done, a storage error and nothing changes |
| Transactions.Transaction.Commit | pktwallet/walletdb/sql/transaction.go:45-58 | refused once ended; a backend failure, or any backend call after the first, fails and keeps the transaction open with its callbacks; otherwise it ends, runs every callback once in order and clears the list |
| Transactions.Transaction.Rollback | pktwallet/walletdb/sql/transaction.go:60-69 | refused once ended; a backend failure, or any backend call after the first, fails and keeps it open; otherwise it ends and runs nothing |
| Transactions.Transaction.OnCommit | pktwallet/walletdb/sql/transaction.go:71-73 | the callback goes to the end of the list |
| Transactions.RollbackThenCommit | pktwallet/walletdb/sql/transaction.go:45-69 | after a rollback, a commit is refused and the registered callback never runs |
| Transactions.CommitTwice | pktwallet/walletdb/sql/transaction.go:45-58 | callbacks run once in order, and a second commit is refused |
| Transactions.CommitAfterFailure | pktwallet/walletdb/sql/transaction.go:45-69 | after a failed backend commit, a second commit and a rollback both fail with a storage error, and the callback never runs |
| Transactions.CreateTopLevelTwice | pktwallet/walletdb/sql/transaction.go:35-37 | creating the same top-level bucket twice binds the same table |

## Left out

- The `wire` package is not part of this model. CompactSize and the
  length-prefixed byte strings are written out from the Bitcoin wire format
  (protocol version 0). This includes the reader's refusal of non-canonical
  lengths and the size limit of `ReadVarBytes`.
- The SQL text is modelled with the meaning its authors evidently intended,
  not as written:
  - `SetSequence` binds its two arguments in swapped order;
  - `Put` and `Get` use the column `value`, but the table declares `val`;
  - the catalog INSERT and DELETE bind the `bucketId` struct, not its bytes;
  - `RootBucket` calls `encodeIndexKey`, which does not exist and is taken to
    be `mkRootBucketId`;
  - the sequence and value queries call `Scan` on rows without `Next`;
  - `table` is used as a column name, and the generated table names contain
    `-`, both without quoting.
- Errors from the database driver are not modelled, except the backend's
  answer to `Commit` and `Rollback` (a boolean parameter). These include
  failed `Query`/`Exec` calls, failed `CREATE TABLE`, and `getTableName`
  errors other than "no rows".
- Error message text and `AddMessage` annotations are not modelled. An error
  is an `Error` kind, and `String` puts a short word where Go formats the
  decoder's error.
- Log output (`log.Warnf`, `log.Errorf`) is not modelled. Only the value
  returned after logging is kept.
- Nil versus empty byte slices are not distinguished. `Get` answers `None` for
  an absent key.
- These source members are not part of this model:
  - `Destroy` (drops the catalog table);
  - `NestedReadBucket` (the same as `NestedReadWriteBucket`);
  - `ReadCursor` and `ReadWriteCursor` (they reinterpret the bucket as a
    `bbolt.Bucket`);
  - `Bucket.Tx` (it refers to a field that does not exist);
  - `transaction_t.ReadBucket` and `ReadWriteBucket` (they use undefined
    names);
  - `DeleteTopLevelBucket`, which drops a table named `""` and never touches
    the catalog.
- `db.go` is not part of this model beyond `beginTx`. The transaction
  constructor stands for it. `BeginTx` failures, `Copy` and `Close` are not
  modelled.
- Concurrency between transactions, isolation, and what a rollback undoes in
  the database are not modelled. The store a transaction works on is the
  database as that transaction sees it.
- Buckets.Bucket.NextSequence: the stored counter is a signed 64-bit SQL
  integer (`sequence integer NOT NULL`), incremented by the database. At and
  beyond 2^63 the source fails; the exact behaviour is the database engine's.
  The model's counter is a natural number with no ceiling, so it does not
  model that failure.
- Buckets.Bucket.SetSequence: the source fails for `v` at or beyond 2^63,
  because a `uint64` with the high bit set cannot be passed as an SQL
  integer. The model accepts and stores any natural number `v`.
- BucketIds.EncodeTableName: `unique` is an unbounded natural number. The
  60-character bound is proved for values up to the largest Go `int`. For a
  suffix longer than 60 characters, which no Go `int` produces, Go's slice
  bound would panic; the model keeps none of the body instead.
- Buckets.Bucket.ForEachBeginningWith: `fn` is a function of key and value
  only, so a callback that modifies the bucket during the scan is not
  modelled. The `bbolt` cast and its `ErrTxClosed` check are not modelled. A
  handle whose table is gone gets a storage error.
- Transactions.Transaction.CreateTopLevelBucket: requires an open
  transaction. On an ended one, Go would call into a nil `*sql.Tx`. On its
  error results (the SQL transaction is done, or the key is over 1000 bytes
  so its id cannot be decoded) the model returns `null`. Go returns the nil
  `*Bucket` from `RootBucket` as a `walletdb.ReadWriteBucket`, which is an
  interface value that is not nil. This is the same case as the
  `NestedReadWriteBucket` finding, but here it always comes with an error,
  which callers check first.
- Transactions.Transaction.Commit: the backend is the `database/sql`
  transaction, which is done after its first `Commit` or `Rollback` attempt
  whatever the answer, so every later attempt fails. This rule of the library
  is written into the model (`backendDone`), not derived from it.
- Buckets.Bucket.ForEach: its doc comment (bucket.go:162-164) says nested
  buckets are visited with a nil value. Neither the source's scan nor the
  model visits them, since a child is not a row of its parent's table.
- Buckets.MkBucket: the catalog compares table names as exact strings, while
  SQL identifiers are compared without letter case. Two buckets whose names
  differ only in case (`CaseCollision`: `bkt-A` and `bkt-a`) are accepted by
  the catalog, but the second `CREATE TABLE` would fail in the database. The
  model keeps the two tables apart.
- Bucket handles taken before the SQL transaction is done are not refused
  afterwards; their reads and writes still reach the store.
- Transactions.Transaction.Commit: a callback is recorded by its id in
  `fired`. What a callback does is not modelled.

## Findings

| source | as written | input that shows it | evidently intended | confidence | as-written member | corrected member |
|---|---|---|---|---|---|---|
| pktwallet/walletdb/sql/buckets/bucket.go:26-34 | an absent child returns the nil `*Bucket` from `mkBucket` as a `walletdb.ReadWriteBucket`, an interface value that is not nil | `NestedReadWriteBucket(k)` for a key `k` with no child bucket | a nil interface for an absent child, so callers' `== nil` checks see it | not executed | Buckets.Bucket.NestedReadWriteBucketAsWritten, Buckets.AbsentChildIsNotNil | Buckets.Bucket.NestedReadWriteBucket |
