# kvstore-rb storage engine, in Dafny

This project models `Kvstore::BasicStore`, the storage engine of kvstore-rb
(`lib/kvstore/store.rb`), and proves what its operations do to the data file,
the index file and the engine's three tables.

The engine keeps:
- a value cache (`@kv_memcache`);
- a set of keys put since the last flush (`@dirty_keys`);
- an index table that maps each key to its block offset in the data file,
  its record offset in the index file, and the number of value bytes its
  block reserves.

Both files start with a little-endian u32 count of entries.

- **Data file.** After the count come blocks. Each block holds a u32 key
  length, a u32 value length and a u32 reserved length, then the key, the
  value, and zero padding up to the reservation.
- **Index file.** After the count comes one record per key: a u32 key
  length, the key, a u64 block offset and a u32 reserved length.

`flush` writes every dirty key in one of three ways:
- **New key.** A block reserving `max(len, 1024)` bytes is appended, and a
  record is appended to the index file.
- **Value that fits.** The value is written in place: the value-length field,
  then the value bytes.
- **Value that does not fit.** The value is relocated. The first 8 bytes of
  the old block are zeroed. A block reserving exactly the value's length is
  appended. The record is rewritten at its fixed offset.

Finally both counts are rewritten.

Files:
- `bytes.dfy` (`Bytes`): bytes, the little-endian u32/u64 fields (`pack('L<')`, `pack('Q<')`, `unpack`), and `Overwrite`, the effect of one write at a file position.
- `byte_file.dfy` (`ByteFiles`): the class `ByteFile`, an open file as the engine drives it. It holds the file's bytes and a cursor, and has `seek`, `tell`, `read` and `write`.
- `layout.dfy` (`Layout`): the block and record encoders and the two readers. The block reader is `ValueAt`, as `read_key_from_file` reads. The index-file scan is `ParseIndexFile`, as `load_all_indices` reads. It also holds their round-trip lemmas.
- `coordinator.dfy` (`Coordinator`): the flush as pure functions of the disk state (`Disk`: data file, index file, index table), one per branch. It holds the store's file invariant `WellFormed` and the lemmas that every branch keeps it and stores the value.
- `store.dfy` (`Store`): the class `BasicStore`.
  - It has the three tables as fields and two `ByteFile`s.
  - Its methods update the fields and drive the file cursors as the Ruby methods do.
  - Each method is proved against the functions of `Coordinator`.
  - `Valid()` is the invariant between calls. `Contents()` is the value a lookup of each key gives.
- `scenarios.dfy` (`Scenarios`): the behaviours `test/database_test.rb` exercises, stated for arbitrary keys and values.

Three details of the code the model keeps:
- A relocation zeroes only the first 8 bytes of the old block (store.rb:116). The reserved-length field of the dead block survives, so its header is not all zero.
- The `val_len <= 1024` shortcut (store.rb:109) writes in place without looking at the reservation. The model proves this is safe: every entry reserves at least 1024 bytes (`Coordinator.InPlaceBranch`).
- A relocated block reserves exactly the value's length, with no 1024 floor (store.rb:118).

## Model

| member | source | states |
|---|---|---|
| Bytes.U32RoundTrip | lib/kvstore/store.rb:72 | a u32 field written with `pack('L<')` reads back with `unpack` as the same number when it fits in 32 bits |
| Bytes.U64RoundTrip | lib/kvstore/store.rb:174 | a u64 block offset written with `pack('Q<')` reads back as the same offset when it fits in 64 bits |
| Bytes.LeTruncates | lib/kvstore/store.rb:141 | a number too wide for its field is stored modulo 2^(8·width), as `pack` drops the high bits |
| Bytes.LeValueRoundTrip | lib/kvstore/store.rb:169 | every decoded field is below 2^(8·width), and encoding it again gives the same bytes |
| Bytes.Overwrite | lib/kvstore/store.rb:104 | a write at a position replaces the bytes under it, extends the file with zeros when it runs past the end, and keeps every other byte. An empty write changes nothing, as `IO#write("")` does |
| ByteFiles.ByteFile.Write | lib/kvstore/store.rb:149-153 | `write` leaves the file as `Overwrite` of the old bytes at the cursor, and moves the cursor past the written bytes |
| ByteFiles.ByteFile.Read | lib/kvstore/store.rb:74 | `read(n)` gives exactly the n bytes under the cursor when the file holds them and advances the cursor by n; otherwise it gives fewer than n |
| Layout.BlockBytes | lib/kvstore/store.rb:144-155 | a full block spans exactly 12 + key length + reserved bytes, and everything after the value is zero padding |
| Layout.BlockRoundTrip | lib/kvstore/store.rb:69-76 | the block written for a key and value is a live block, and reading it gives back exactly the value, never the padding |
| Layout.BlockValue | lib/kvstore/store.rb:69-76 | a live block always reads as the value-length-many bytes after the key |
| Layout.BlockFrame | lib/kvstore/store.rb:69-76 | a block's reading depends only on the bytes of its own span |
| Layout.RecordRoundTrip | lib/kvstore/store.rb:135-142 | a record written by `write_entry_index` parses back as the same key, block offset and reservation |
| Layout.IndexFileRoundTrip | lib/kvstore/store.rb:166-177 | scanning an index file whose records are those of a table, with the table's size as count, gives back exactly that table and the records' order |
| Coordinator.FreshDiskWellFormed | lib/kvstore/store.rb:194-202 | the two 4-byte zero files of a new store satisfy the invariant and scan as an empty table |
| Coordinator.AddEntryLayout | lib/kvstore/store.rb:126-133 | a new key's block starts at the old end of the data file and its record at the old end of the index file. It reserves max(len, 1024) bytes. The files grow by 12 + key length + reserved and by 16 + key length, and their old bytes are kept |
| Coordinator.AddEntryWellFormed | lib/kvstore/store.rb:126-133 | adding a new key keeps the invariant, with its record last in the index file |
| Coordinator.AddEntryStores | lib/kvstore/store.rb:126-133 | after an add the new key reads as its value and every other key keeps its entry and value |
| Coordinator.InPlaceEffects | lib/kvstore/store.rb:102-107 | an in-place write changes only the value-length field and the first len bytes after the key. The stale tail of a longer old value is kept, and the block reads back as the new value |
| Coordinator.InPlaceBranch | lib/kvstore/store.rb:109-113 | both in-place branches write within the reservation (the `<= 1024` shortcut included, since every entry reserves at least 1024). The table and the index file are unchanged and the invariant holds |
| Coordinator.InPlaceStores | lib/kvstore/store.rb:109-113 | after an in-place write the key reads as its new value and every other key keeps its entry and value |
| Coordinator.DeadHeader | lib/kvstore/store.rb:115-116 | zeroing 8 bytes of a live block keeps the file length and the block's reserved field |
| Coordinator.RelocateData | lib/kvstore/store.rb:114-119 | after a relocation the first 8 bytes of the old block are zero and its reserved field is intact. The new block is live at the old end of the file, reserves exactly len and reads as the value. Every other block is untouched |
| Coordinator.RelocateIndexFile | lib/kvstore/store.rb:118-121 | a relocated entry keeps its index offset, and rewriting its record leaves the index file's length unchanged |
| Coordinator.RelocateWellFormed | lib/kvstore/store.rb:114-122 | a relocation keeps the invariant with the same record order |
| Coordinator.RelocateStores | lib/kvstore/store.rb:114-122 | after a relocation the key reads as its new value and every other key keeps its entry and value |
| Coordinator.IndexAppend | lib/kvstore/store.rb:129-132 | appending a new key's record keeps the index file an exact image of the table |
| Coordinator.IndexRewrite | lib/kvstore/store.rb:120-121 | rewriting a record at its own offset keeps the index file an exact image of the table |
| Coordinator.FlushKeyPreserves | lib/kvstore/store.rb:79-86 | flushing one key, whichever branch it takes, keeps the invariant and stores the key's value without touching other keys |
| Coordinator.WriteCountsPreserves | lib/kvstore/store.rb:89-92 | rewriting both counts makes them current and leaves every block, record and stored value alone |
| Coordinator.ReopenRebuildsIndex | lib/kvstore/store.rb:166-177 | the index file of a well-formed store with current counts scans back to exactly its table |
| Store.PutKeeps | lib/kvstore/store.rb:32-35 | `put` keeps the store's invariant and changes the lookup of its key only |
| Store.CacheKeeps | lib/kvstore/store.rb:41-42 | caching the stored value of an uncached key keeps the invariant and changes no lookup |
| Store.FlushAllProgress | lib/kvstore/store.rb:79-86 | flushing the dirty keys one after another, in any order, keeps the loop invariant after every key: the file invariant holds, flushed keys are stored, other keys are untouched, and the files grow by at most one entry and one block per key |
| Store.FlushDone | lib/kvstore/store.rb:78-93 | a whole flush leaves the invariant with nothing dirty and the table's keys the old keys plus the dirty ones. Other keys are untouched, no lookup changes, the files alone give every lookup, and the files grow by at most one block per dirty key |
| Store.FlushKeepsView | lib/kvstore/store.rb:78-93 | a flush changes no lookup |
| Store.ReopenFacts | lib/kvstore/store.rb:166-177 | the files of a store with nothing dirty scan back to its table and make a valid store with an empty cache and the same lookups |
| Store.BasicStore.Attach | lib/kvstore/store.rb:17-30 | a new store has empty tables over its two files |
| Store.BasicStore.Put | lib/kvstore/store.rb:32-35 | the value is cached and the key marked dirty; no file changes; the lookup of the key becomes the value and no other lookup changes |
| Store.BasicStore.Get | lib/kvstore/store.rb:37-45 | `get` gives the key's lookup, or `NoKeyError` for a key in neither the cache nor the table. A value read from the data file is then cached, and no lookup changes |
| Store.BasicStore.LoadKey | lib/kvstore/store.rb:40-43 | for an uncached key with an entry, the value read is the stored one and is cached |
| Store.BasicStore.CacheStored | lib/kvstore/store.rb:42 | caching the value read keeps the invariant and every lookup |
| Store.BasicStore.ReadKeyFromFile | lib/kvstore/store.rb:69-76 | the seeks and reads give exactly `ValueAt` at the key's block offset |
| Store.BasicStore.WriteFullEntry | lib/kvstore/store.rb:144-155 | writing at the end of the data file appends exactly the key's full block with the reservation its entry names |
| Store.BasicStore.WriteEntryIndex | lib/kvstore/store.rb:135-142 | the three writes put the key's record at the cursor and leave the cursor after it |
| Store.BasicStore.JustWrite | lib/kvstore/store.rb:102-107 | the seeks and writes are exactly the in-place update |
| Store.BasicStore.FlushExistingEntry | lib/kvstore/store.rb:95-124 | the files and table change exactly as the branch for the value's length says: in place, or relocated |
| Store.BasicStore.FlushAddEntry | lib/kvstore/store.rb:126-133 | the files and table change exactly as adding a new entry says |
| Store.BasicStore.FlushEntry | lib/kvstore/store.rb:79-86 | one turn of the flush loop: add for a key without an entry, else update |
| Store.BasicStore.FlushDirty | lib/kvstore/store.rb:78-93 | each dirty key is flushed exactly once, in some order, and then the dirty set is cleared and both counts are rewritten |
| Store.BasicStore.WriteCountFields | lib/kvstore/store.rb:89-92 | both counts are overwritten with the number of entries |
| Store.BasicStore.Flush | lib/kvstore/store.rb:47-49 | `flush` keeps the invariant, empties the dirty set and keeps the cache. The table's keys become the old keys plus the dirty ones, and keys that were not dirty keep their entries and values. Both files start with the u32 count of entries. No lookup changes, and the files alone now give every lookup |
| Store.BasicStore.Close | lib/kvstore/store.rb:51-57 | `close` flushes, with the same guarantees as `flush`. It keeps the invariant, empties the dirty set and keeps the cache. The table's keys become the old keys plus the dirty ones, and keys that were not dirty keep their entries and values. Both files start with the current count. No lookup changes, the files alone give every lookup, and the files grow by at most one entry and one block per dirty key |
| Store.BasicStore.LoadAllIndices | lib/kvstore/store.rb:166-177 | the loop fills the table exactly as the index-file scan does, and fails exactly when that scan does |
| Store.BasicStore.ReadRecord | lib/kvstore/store.rb:171-174 | one loop turn reads exactly one record and advances past it |
| Store.Open | lib/kvstore/store.rb:157-164 | with a file missing, both are created holding a zero count and the store is empty and valid. Otherwise the index file is loaded, and opening fails exactly when its scan fails |
| Store.Reopen | lib/kvstore/store.rb:166-177 | closing and opening the same files gives a valid store with the same table and the same lookups |
| Scenarios.PreFilled | test/database_test.rb:7-15 | three puts into a new store, then `close`, give a valid store that looks up exactly those three entries |
| Scenarios.ReadsBack | test/database_test.rb:17-36 | after reopening a pre-filled store, each key reads as the value put |
| Scenarios.MissingKey | test/database_test.rb:39-48 | a key never put is `NoKeyError` |
| Scenarios.Overwrites | test/database_test.rb:62-96 | overwriting a key with a shorter or a longer value reads the new value back before and after close and reopen, and other keys keep theirs |

## Left out

- The JSON codec (store.rb:61-67): values are byte sequences, as the engine passes them to and from the files. Symbol-to-string conversion and value types are part of the codec.
- The UTF-8 re-encoding of keys read from the index file (store.rb:173): keys are byte sequences throughout. The key is read from a binary file as raw bytes, and `encode('utf-8')` raises on any byte of 0x80 or above. So Ruby's `load_all_indices` raises when a stored key holds a non-ASCII byte, and a store holding such a key cannot be reopened. The model does not capture this failure: `Store.Open`, `Store.Reopen`, `Store.ReopenFacts` and `Scenarios.ReadsBack` hold for every key.
- Opening and closing real files (store.rb:53-56, 157-192): `Store.Open` takes the two files' contents, or `None` for a missing file, and a closed store's handles are not modelled. Errors other than a missing file are not modelled.
- `lib/kvstore/database.rb`, a delegating facade with the index path derivation, is not part of this model. `NoKeyError` (lib/kvstore.rb:3) is the error case of `Store.Result`. The `fetch` the tests call exists in no source file and is not modelled.
- Concurrency, crash atomicity and torn writes: every write completes and nothing runs in between.
- The order in which Ruby's `Set` yields the dirty keys: `Store.BasicStore.FlushDirty` picks any order, and every property is proved for every order.
- Store.BasicStore.Flush: requires `Representable`: every dirty key and value is shorter than 2^32 bytes, the table stays below 2^32 entries, and the data file stays below 2^64 bytes. Beyond those limits the Ruby code writes truncated fields; the model does not follow it there.
- Store.BasicStore.Close: the same `Representable` precondition as `Flush`.
- Store.BasicStore.LoadAllIndices: a truncated index file makes the loop return `false` (and `Store.Open` return `None`); Ruby would instead fail inside `unpack` or build a garbage table.
- Store.BasicStore.ReadKeyFromFile: a block cut short by the end of the file gives `None` where Ruby would fail in `unpack` or return a short string. A valid store never reaches that case.
- The random 2 MB value of the overwrite test: `Scenarios.Overwrites` holds for every value shorter than 2^32 bytes, both shorter than the old one (in place) and longer than its reservation (relocated).
