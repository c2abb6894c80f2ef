/** The flush coordinator as a function of the disk state: what each branch
    of a flush does to the data file, the index file and the index table, and
    why the store's invariant survives every branch. */
module Coordinator {
  import opened Bytes
  import opened Layout

  /** The data file, the index file and the in-memory index table. */
  datatype Disk = Disk(data: seq<byte>, idx: seq<byte>, index: map<Key, Entry>)

  /** The most bytes one flushed key can append to the data file: a block
      whose key and reservation are as long as a u32 length allows. */
  const MaxBlockSpan: nat := 12 + 2 * (U32Limit - 1)

  /** The blocks of two keys do not overlap. */
  ghost predicate Apart(k1: Key, e1: Entry, k2: Key, e2: Entry) {
    e1.dataOffset + BlockSpan(k1, e1.reserved) <= e2.dataOffset ||
    e2.dataOffset + BlockSpan(k2, e2.reserved) <= e1.dataOffset
  }

  /** Every entry fits its fields and reserves at least the minimum block. */
  ghost predicate EntriesFit(index: map<Key, Entry>) {
    forall k | k in index :: EntryFits(k, index[k]) && MinBlockSize <= index[k].reserved
  }

  /** Every entry points past the data file's count at a live block of its
      key, and no two live blocks overlap. */
  ghost predicate BlocksLive(data: seq<byte>, index: map<Key, Entry>) {
    |data| >= 4 &&
    (forall k | k in index ::
       4 <= index[k].dataOffset && BlockAt(data, index[k].dataOffset, k, index[k].reserved)) &&
    (forall k1, k2 | k1 in index && k2 in index && k1 != k2 :: Apart(k1, index[k1], k2, index[k2]))
  }

  /** The store's invariant over its files and table, except the two counts
      at the head of the files (those are brought up to date at the end of
      each flush). `order` is the order of the records in the index file. */
  ghost predicate WellFormed(d: Disk, order: seq<Key>) {
    EntriesFit(d.index) && |d.index| < U32Limit &&
    BlocksLive(d.data, d.index) &&
    IndexImage(d.idx, d.index, order)
  }

  /** Both files start with the number of entries of the table. */
  ghost predicate CountsCurrent(d: Disk) {
    |d.data| >= 4 && |d.idx| >= 4 &&
    d.data[..4] == U32(|d.index|) && d.idx[..4] == U32(|d.index|)
  }

  /** The value the data file holds for `key`. */
  function Stored(d: Disk, key: Key): seq<byte>
    requires key in d.index
  {
    match ValueAt(d.data, d.index[key].dataOffset)
    case Some(v) => v
    case None => []
  }

  // ------------------------------------------------------------ the steps

  /** The files of a new store: each holds only a zero count. */
  function FreshDisk(): Disk {
    Disk(U32(0), U32(0), map[])
  }

  /** A key that has no entry yet: its block is appended to the data file,
      reserving the value's length but at least the minimum block, and its
      record is appended to the index file. */
  function AddEntry(d: Disk, key: Key, val: seq<byte>): Disk {
    var e := Entry(|d.data|, |d.idx|, Max(|val|, MinBlockSize));
    Disk(d.data + BlockBytes(key, val, e.reserved), d.idx + RecordBytes(key, e), d.index[key := e])
  }

  /** A value written into its existing block: the value-length field, then
      the value right after the key. Nothing else is written. */
  function UpdateInPlace(data: seq<byte>, off: nat, key: Key, val: seq<byte>): seq<byte> {
    Overwrite(Overwrite(data, off + 4, U32(|val|)), off + 12 + |key|, val)
  }

  /** A value too large for its block: the first 8 bytes of the old block
      are zeroed, a block reserving exactly the value's length is appended,
      and the key's record is rewritten where it already is. */
  function Relocate(d: Disk, key: Key, val: seq<byte>): Disk
    requires key in d.index
  {
    var e := d.index[key];
    var dead := Overwrite(d.data, e.dataOffset, Zeros(8));
    var moved := Entry(|dead|, e.indexOffset, |val|);
    Disk(dead + BlockBytes(key, val, |val|),
         Overwrite(d.idx, e.indexOffset, RecordBytes(key, moved)),
         d.index[key := moved])
  }

  /** A key that has an entry: short values and values that fit are written
      in place, the rest relocated. */
  function FlushExisting(d: Disk, key: Key, val: seq<byte>): Disk
    requires key in d.index
  {
    var e := d.index[key];
    if |val| <= MinBlockSize then d.(data := UpdateInPlace(d.data, e.dataOffset, key, val))
    else if |val| <= e.reserved then d.(data := UpdateInPlace(d.data, e.dataOffset, key, val))
    else Relocate(d, key, val)
  }

  /** One dirty key flushed. */
  function FlushKey(d: Disk, key: Key, val: seq<byte>): Disk {
    if key in d.index then FlushExisting(d, key, val) else AddEntry(d, key, val)
  }

  /** The record order after flushing `key`: a new key's record comes last. */
  function NextOrder(d: Disk, order: seq<Key>, key: Key): seq<Key> {
    if key in d.index then order else order + [key]
  }

  /** Both counts rewritten with the number of entries. */
  function WriteCounts(d: Disk): Disk {
    Disk(Overwrite(d.data, 0, U32(|d.index|)), Overwrite(d.idx, 0, U32(|d.index|)), d.index)
  }

  // ------------------------------------------------------- the properties

  /** The files of a new store satisfy the invariant and scan as empty. */
  lemma FreshDiskWellFormed()
    ensures WellFormed(FreshDisk(), []) && CountsCurrent(FreshDisk())
    ensures ParseIndexFile(FreshDisk().idx) == Some(Parsed([], map[]))
  {
    var d := FreshDisk();
    assert d.idx[4..] == [] == Records([], d.index);
    assert d.data[..4] == d.data;
    assert d.idx[..4] == d.idx;
    U32RoundTrip(0);
  }

  /** Bytes that agree outside `[lo, hi)`, the second possibly longer. */
  ghost predicate SameOutside(a: seq<byte>, b: seq<byte>, lo: nat, hi: nat) {
    |a| <= |b| && forall i | 0 <= i < |a| && !(lo <= i < hi) :: a[i] == b[i]
  }

  /** A live block that lies outside the bytes a write changed is still live
      and reads the same. */
  lemma KeepsBlock(a: seq<byte>, b: seq<byte>, lo: nat, hi: nat, off: nat, key: Key, reserved: nat)
    requires BlockAt(a, off, key, reserved) && |key| < U32Limit
    requires SameOutside(a, b, lo, hi)
    requires off + BlockSpan(key, reserved) <= lo || hi <= off
    ensures BlockAt(b, off, key, reserved)
    ensures ValueAt(b, off) == ValueAt(a, off)
  {
    var n := BlockSpan(key, reserved);
    assert forall i | off <= i < off + n :: a[i] == b[i];
    assert a[off..off + n] == b[off..off + n];
    BlockFrame(a, b, off, key, reserved);
  }

  /** Every other key's block survives a change confined to `[lo, hi)` when
      that range lies within `key`'s block or beyond the end of the file. */
  lemma KeepsOtherBlocks(d: Disk, data': seq<byte>, key: Key, lo: nat, hi: nat)
    requires EntriesFit(d.index) && BlocksLive(d.data, d.index)
    requires SameOutside(d.data, data', lo, hi)
    requires (key in d.index && d.index[key].dataOffset <= lo && lo <= hi
              && hi <= d.index[key].dataOffset + BlockSpan(key, d.index[key].reserved))
             || |d.data| <= lo
    ensures forall k | k in d.index && k != key ::
      BlockAt(data', d.index[k].dataOffset, k, d.index[k].reserved) &&
      ValueAt(data', d.index[k].dataOffset) == ValueAt(d.data, d.index[k].dataOffset)
  {
    forall k | k in d.index && k != key
      ensures BlockAt(data', d.index[k].dataOffset, k, d.index[k].reserved)
      ensures ValueAt(data', d.index[k].dataOffset) == ValueAt(d.data, d.index[k].dataOffset)
    {
      if |d.data| > lo {
        assert Apart(key, d.index[key], k, d.index[k]);
      }
      KeepsBlock(d.data, data', lo, hi, d.index[k].dataOffset, k, d.index[k].reserved);
    }
  }

  /** What an in-place write changes: the value-length field and the first
      `|val|` bytes after the key, nothing else; the file keeps its length,
      the block stays live and now reads as `val`. */
  lemma InPlaceEffects(data: seq<byte>, off: nat, key: Key, reserved: nat, val: seq<byte>)
    requires BlockAt(data, off, key, reserved) && |key| < U32Limit
    requires |val| <= reserved < U32Limit
    ensures var r := UpdateInPlace(data, off, key, val);
      |r| == |data| &&
      r[off + 4..off + 8] == U32(|val|) &&
      r[off + 12 + |key|..off + 12 + |key| + |val|] == val &&
      (forall i | 0 <= i < |data| && !(off + 4 <= i < off + 8)
                  && !(off + 12 + |key| <= i < off + 12 + |key| + |val|) :: r[i] == data[i]) &&
      SameOutside(data, r, off, off + BlockSpan(key, reserved)) &&
      BlockAt(r, off, key, reserved) &&
      ValueAt(r, off) == Some(val)
  {
    var r := UpdateInPlace(data, off, key, val);
    InPlaceBytes(data, off, key, reserved, val);
    U32RoundTrip(|val|);
    assert LeValue(r[off + 4..off + 8]) == |val|;
    assert BlockAt(r, off, key, reserved);
    BlockValue(r, off, key, reserved);
  }

  /** The pieces of a block after an in-place write. */
  lemma InPlaceBytes(data: seq<byte>, off: nat, key: Key, reserved: nat, val: seq<byte>)
    requires BlockAt(data, off, key, reserved)
    requires |val| <= reserved
    ensures var r, start := UpdateInPlace(data, off, key, val), off + 12 + |key|;
      |r| == |data| &&
      r[off..off + 4] == data[off..off + 4] &&
      r[off + 4..off + 8] == U32(|val|) &&
      r[off + 8..off + 12] == data[off + 8..off + 12] &&
      r[off + 12..start] == data[off + 12..start] &&
      r[start..start + |val|] == val &&
      (forall i | 0 <= i < |data| && !(off + 4 <= i < off + 8)
                  && !(start <= i < start + |val|) :: r[i] == data[i])
  {
    var start := off + 12 + |key|;
    var r1 := Overwrite(data, off + 4, U32(|val|));
    var r := Overwrite(r1, start, val);
    assert |r1| == |data| && |r| == |data|;
    OverwriteKeeps(data, off + 4, U32(|val|), off, off + 4);
    OverwriteKeeps(data, off + 4, U32(|val|), off + 8, off + 12);
    OverwriteKeeps(data, off + 4, U32(|val|), off + 12, start);
    OverwriteKeeps(r1, start, val, off, off + 4);
    OverwriteKeeps(r1, start, val, off + 4, off + 8);
    OverwriteKeeps(r1, start, val, off + 8, off + 12);
    OverwriteKeeps(r1, start, val, off + 12, start);
    Written(data, off + 4, U32(|val|));
    Written(r1, start, val);
  }

  /** What flushing `key` with `val` promises about the table and the data
      file: the key has an entry that reads back as `val`, every other key
      keeps its entry and its value, and the data file grows by at most one
      block and never shrinks. */
  ghost predicate Flushed(d: Disk, d': Disk, key: Key, val: seq<byte>) {
    d'.index.Keys == d.index.Keys + {key} &&
    |d'.index| == (if key in d.index then |d.index| else |d.index| + 1) &&
    ValueAt(d'.data, d'.index[key].dataOffset) == Some(val) &&
    (forall k | k in d.index && k != key ::
       d'.index[k] == d.index[k] &&
       ValueAt(d'.data, d.index[k].dataOffset) == ValueAt(d.data, d.index[k].dataOffset)) &&
    |d.data| <= |d'.data| <= |d.data| + MaxBlockSpan
  }

  /** `Flushed`, one conjunct at a time. */
  lemma FlushedIntro(d: Disk, d': Disk, key: Key, val: seq<byte>)
    requires d'.index.Keys == d.index.Keys + {key}
    requires |d'.index| == (if key in d.index then |d.index| else |d.index| + 1)
    requires key in d'.index && ValueAt(d'.data, d'.index[key].dataOffset) == Some(val)
    requires forall k | k in d.index && k != key :: d'.index[k] == d.index[k]
    requires forall k | k in d.index && k != key ::
      ValueAt(d'.data, d.index[k].dataOffset) == ValueAt(d.data, d.index[k].dataOffset)
    requires |d.data| <= |d'.data| <= |d.data| + MaxBlockSpan
    ensures Flushed(d, d', key, val)
  {
  }

  /** One dirty key flushed, whatever the branch: the invariant holds, with
      a new key's record last, and the key's value is stored as `Flushed`
      says. */
  lemma FlushKeyPreserves(d: Disk, order: seq<Key>, key: Key, val: seq<byte>)
    requires WellFormed(d, order)
    requires |key| < U32Limit && |val| < U32Limit
    requires |d.data| + MaxBlockSpan <= U64Limit && |d.index| + 1 < U32Limit
    ensures WellFormed(FlushKey(d, key, val), NextOrder(d, order, key))
    ensures Flushed(d, FlushKey(d, key, val), key, val)
  {
    FlushKeyWellFormed(d, order, key, val);
    FlushKeyStores(d, key, val);
  }

  lemma FlushKeyWellFormed(d: Disk, order: seq<Key>, key: Key, val: seq<byte>)
    requires WellFormed(d, order)
    requires |key| < U32Limit && |val| < U32Limit
    requires |d.data| < U64Limit && |d.index| + 1 < U32Limit
    ensures WellFormed(FlushKey(d, key, val), NextOrder(d, order, key))
  {
    if key !in d.index {
      assert FlushKey(d, key, val) == AddEntry(d, key, val);
      AddEntryWellFormed(d, order, key, val);
    } else if |val| <= MinBlockSize || |val| <= d.index[key].reserved {
      assert FlushKey(d, key, val) == FlushExisting(d, key, val);
      InPlaceBranch(d, order, key, val);
    } else {
      assert FlushKey(d, key, val) == Relocate(d, key, val);
      RelocateWellFormed(d, order, key, val);
    }
  }

  lemma FlushKeyStores(d: Disk, key: Key, val: seq<byte>)
    requires EntriesFit(d.index) && BlocksLive(d.data, d.index)
    requires |key| < U32Limit && |val| < U32Limit
    ensures Flushed(d, FlushKey(d, key, val), key, val)
  {
    if key !in d.index {
      AddEntryStores(d, key, val);
    } else if |val| <= MinBlockSize || |val| <= d.index[key].reserved {
      InPlaceStores(d, key, val);
    } else {
      RelocateStores(d, key, val);
    }
  }

  // ------------------------------------------------------ in-place branch

  /** The in-place branch of an existing key. The shortcut for values no
      longer than the minimum block is safe because every entry reserves at
      least that much, so the write stays within the block. Only the data
      file changes, keeping its length, and the invariant holds. */
  lemma InPlaceBranch(d: Disk, order: seq<Key>, key: Key, val: seq<byte>)
    requires WellFormed(d, order) && key in d.index && |val| < U32Limit
    requires |val| <= MinBlockSize || |val| <= d.index[key].reserved
    ensures |val| <= d.index[key].reserved
    ensures var d' := FlushExisting(d, key, val);
      d'.index == d.index && d'.idx == d.idx && |d'.data| == |d.data| &&
      WellFormed(d', order)
  {
    var e := d.index[key];
    assert FlushExisting(d, key, val) == d.(data := UpdateInPlace(d.data, e.dataOffset, key, val));
    InPlaceWellFormed(d, order, key, val);
  }

  lemma InPlaceWellFormed(d: Disk, order: seq<Key>, key: Key, val: seq<byte>)
    requires WellFormed(d, order) && key in d.index && |val| <= d.index[key].reserved
    ensures WellFormed(d.(data := UpdateInPlace(d.data, d.index[key].dataOffset, key, val)), order)
  {
    var e := d.index[key];
    var data' := UpdateInPlace(d.data, e.dataOffset, key, val);
    InPlaceData(d.data, d.index, key, val);
    LiveAfter(d, data', key, e);
  }

  lemma InPlaceStores(d: Disk, key: Key, val: seq<byte>)
    requires EntriesFit(d.index) && BlocksLive(d.data, d.index) && key in d.index
    requires |val| <= MinBlockSize || |val| <= d.index[key].reserved
    ensures Flushed(d, FlushKey(d, key, val), key, val)
  {
    var e := d.index[key];
    assert FlushKey(d, key, val) == d.(data := UpdateInPlace(d.data, e.dataOffset, key, val));
    InPlaceData(d.data, d.index, key, val);
  }

  /** The data file after an in-place write: every block, the written one
      included, is still live, and only the written one reads differently. */
  lemma InPlaceData(data: seq<byte>, index: map<Key, Entry>, key: Key, val: seq<byte>)
    requires EntriesFit(index) && BlocksLive(data, index) && key in index
    requires |val| <= index[key].reserved
    ensures var e := index[key];
      var data' := UpdateInPlace(data, e.dataOffset, key, val);
      |data'| == |data| &&
      BlockAt(data', e.dataOffset, key, e.reserved) &&
      ValueAt(data', e.dataOffset) == Some(val) &&
      (forall k | k in index && k != key ::
         BlockAt(data', index[k].dataOffset, k, index[k].reserved) &&
         ValueAt(data', index[k].dataOffset) == ValueAt(data, index[k].dataOffset))
  {
    var e := index[key];
    var data' := UpdateInPlace(data, e.dataOffset, key, val);
    InPlaceEffects(data, e.dataOffset, key, e.reserved, val);
    KeepsOtherBlocks(Disk(data, [], index), data', key, e.dataOffset, e.dataOffset + BlockSpan(key, e.reserved));
  }

  /** The live blocks after a step that moves `key` to the entry `e'`: the
      same entry, or a block past the old end of the file. */
  lemma LiveAfter(d: Disk, data': seq<byte>, key: Key, e': Entry)
    requires EntriesFit(d.index) && BlocksLive(d.data, d.index) && |data'| >= 4
    requires forall k | k in d.index && k != key ::
      BlockAt(data', d.index[k].dataOffset, k, d.index[k].reserved)
    requires 4 <= e'.dataOffset && BlockAt(data', e'.dataOffset, key, e'.reserved)
    requires (key in d.index && e' == d.index[key]) || |d.data| <= e'.dataOffset
    ensures BlocksLive(data', d.index[key := e'])
    ensures key in d.index && e' == d.index[key] ==> d.index[key := e'] == d.index
  {
    var index' := d.index[key := e'];
    forall k1, k2 | k1 in index' && k2 in index' && k1 != k2
      ensures Apart(k1, index'[k1], k2, index'[k2])
    {
      if k1 != key && k2 != key {
        assert Apart(k1, d.index[k1], k2, d.index[k2]);
      } else if key in d.index && e' == d.index[key] {
        assert Apart(k1, d.index[k1], k2, d.index[k2]);
      } else if k1 == key {
        assert BlockAt(d.data, d.index[k2].dataOffset, k2, d.index[k2].reserved);
      } else {
        assert BlockAt(d.data, d.index[k1].dataOffset, k1, d.index[k1].reserved);
      }
    }
  }

  // ------------------------------------------------------- new-key branch

  /** A new key: its block starts at the old end of the data file and its
      record at the old end of the index file, it reserves the value's
      length but at least the minimum block, and both files only grow: the
      bytes already there are kept. */
  lemma AddEntryLayout(d: Disk, key: Key, val: seq<byte>)
    ensures var d' := AddEntry(d, key, val);
      var e := d'.index[key];
      e.dataOffset == |d.data| && e.indexOffset == |d.idx| &&
      e.reserved == Max(|val|, MinBlockSize) &&
      |d'.data| == |d.data| + BlockSpan(key, e.reserved) &&
      |d'.idx| == |d.idx| + 16 + |key| &&
      d'.data[..|d.data|] == d.data && d'.idx[..|d.idx|] == d.idx
  {
    var e := Entry(|d.data|, |d.idx|, Max(|val|, MinBlockSize));
    assert |BlockBytes(key, val, e.reserved)| == BlockSpan(key, e.reserved);
  }

  /** The invariant holds after a new key is added, with its record last. */
  lemma AddEntryWellFormed(d: Disk, order: seq<Key>, key: Key, val: seq<byte>)
    requires WellFormed(d, order) && key !in d.index
    requires |key| < U32Limit && |val| < U32Limit
    requires |d.data| < U64Limit && |d.index| + 1 < U32Limit
    ensures WellFormed(AddEntry(d, key, val), order + [key])
  {
    var d' := AddEntry(d, key, val);
    var e := d'.index[key];
    assert |d'.index| == |d.index| + 1;
    assert EntriesFit(d'.index);
    AppendData(d.data, d.index, key, val, e.reserved);
    LiveAfter(d, d'.data, key, e);
    IndexAppend(d.idx, d.index, order, key, e);
  }

  lemma AddEntryStores(d: Disk, key: Key, val: seq<byte>)
    requires EntriesFit(d.index) && BlocksLive(d.data, d.index) && key !in d.index
    requires |key| < U32Limit && |val| < U32Limit
    ensures Flushed(d, FlushKey(d, key, val), key, val)
  {
    var reserved := Max(|val|, MinBlockSize);
    var d' := AddEntry(d, key, val);
    assert FlushKey(d, key, val) == d';
    assert d'.data == d.data + BlockBytes(key, val, reserved);
    assert d'.index == d.index[key := Entry(|d.data|, |d.idx|, reserved)];
    AppendData(d.data, d.index, key, val, reserved);
    FlushedIntro(d, d', key, val);
  }

  /** The data file after a block is appended: the new block is live at the
      old end of the file and reads back as `val`, and every other block is
      untouched. */
  lemma AppendData(data: seq<byte>, index: map<Key, Entry>, key: Key, val: seq<byte>, reserved: nat)
    requires EntriesFit(index) && BlocksLive(data, index)
    requires |key| < U32Limit && |val| <= reserved < U32Limit
    ensures var data' := data + BlockBytes(key, val, reserved);
      |data'| == |data| + BlockSpan(key, reserved) && data'[..|data|] == data &&
      BlockAt(data', |data|, key, reserved) &&
      ValueAt(data', |data|) == Some(val) &&
      (forall k | k in index && k != key ::
         BlockAt(data', index[k].dataOffset, k, index[k].reserved) &&
         ValueAt(data', index[k].dataOffset) == ValueAt(data, index[k].dataOffset))
  {
    var block := BlockBytes(key, val, reserved);
    var data' := data + block;
    assert data'[|data|..|data| + |block|] == block;
    BlockRoundTrip(data', |data|, key, val, reserved);
    assert SameOutside(data, data', |data|, |data|);
    KeepsOtherBlocks(Disk(data, [], index), data', key, |data|, |data|);
  }

  // ---------------------------------------------------- relocation branch

  // A value larger than both the minimum block and its reservation: the
  // key-length and value-length fields of the old block become zero while
  // its reserved field stays (so its header is not all zero), the new block
  // starts at the old end of the data file and reserves exactly the value's
  // length, and the record keeps its place and length in the index file
  // (every record lies within the index file, by `RecordWithin`).

  /** The invariant holds after a relocation, with the same record order. */
  lemma RelocateWellFormed(d: Disk, order: seq<Key>, key: Key, val: seq<byte>)
    requires WellFormed(d, order) && key in d.index && |val| < U32Limit
    requires |val| > MinBlockSize && |d.data| < U64Limit
    ensures WellFormed(Relocate(d, key, val), order)
  {
    var e := Entry(|d.data|, d.index[key].indexOffset, |val|);
    var d' := Relocate(d, key, val);
    assert |d'.index| == |d.index|;
    assert EntriesFit(d'.index);
    RelocateData(d.data, d.index, key, val);
    LiveAfter(d, d'.data, key, e);
    IndexRewrite(d.idx, d.index, order, key, e);
  }

  lemma RelocateStores(d: Disk, key: Key, val: seq<byte>)
    requires EntriesFit(d.index) && BlocksLive(d.data, d.index) && key in d.index
    requires |val| < U32Limit && |val| > MinBlockSize && |val| > d.index[key].reserved
    ensures Flushed(d, FlushKey(d, key, val), key, val)
  {
    var d' := Relocate(d, key, val);
    assert FlushKey(d, key, val) == d';
    assert d'.index == d.index[key := Entry(|d.data|, d.index[key].indexOffset, |val|)];
    RelocateData(d.data, d.index, key, val);
    assert |key| < U32Limit;
    FlushedIntro(d, d', key, val);
  }

  /** A relocation moves the block to the old end of the data file but keeps
      the key's record where it is: the entry keeps its index offset and the
      rewritten record leaves the index file's length unchanged. */
  lemma RelocateIndexFile(d: Disk, order: seq<Key>, key: Key, val: seq<byte>)
    requires WellFormed(d, order) && key in d.index
    ensures var d' := Relocate(d, key, val);
      d'.index[key] == Entry(|d.data|, d.index[key].indexOffset, |val|) && |d'.idx| == |d.idx|
  {
    RecordWithin(d.idx, d.index, order, key);
    assert BlockAt(d.data, d.index[key].dataOffset, key, d.index[key].reserved);
  }

  /** A key's record lies within the index file. */
  lemma RecordWithin(idx: seq<byte>, index: map<Key, Entry>, order: seq<Key>, key: Key)
    requires IndexImage(idx, index, order) && key in index
    ensures index[key].indexOffset + 16 + |key| <= |idx|
  {
    assert key in order;
    var i :| 0 <= i < |order| && order[i] == key;
    RecordAt(idx, index, order, i);
  }

  /** The data file after a relocation: the first 8 bytes of the old block
      are zero and its reserved field is intact, the new block is live at the
      old end of the file and reads back as `val`, and every other block is
      untouched. */
  lemma RelocateData(data: seq<byte>, index: map<Key, Entry>, key: Key, val: seq<byte>)
    requires EntriesFit(index) && BlocksLive(data, index) && key in index
    requires |val| < U32Limit
    ensures var off := index[key].dataOffset;
      var data' := Overwrite(data, off, Zeros(8)) + BlockBytes(key, val, |val|);
      |data'| == |data| + BlockSpan(key, |val|) &&
      data'[off..off + 8] == Zeros(8) &&
      data'[off + 8..off + 12] == U32(index[key].reserved) &&
      BlockAt(data', |data|, key, |val|) &&
      ValueAt(data', |data|) == Some(val) &&
      (forall k | k in index && k != key ::
         BlockAt(data', index[k].dataOffset, k, index[k].reserved) &&
         ValueAt(data', index[k].dataOffset) == ValueAt(data, index[k].dataOffset))
  {
    RelocateOld(data, index[key].dataOffset, index[key].reserved, key, val);
    RelocateNew(data, index[key].dataOffset, key, val);
    RelocateOthers(data, index, key, val);
  }

  lemma RelocateOld(data: seq<byte>, off: nat, reserved: nat, key: Key, val: seq<byte>)
    requires BlockAt(data, off, key, reserved)
    ensures var data' := Overwrite(data, off, Zeros(8)) + BlockBytes(key, val, |val|);
      data'[off..off + 8] == Zeros(8) &&
      data'[off + 8..off + 12] == U32(reserved)
  {
    var dead := Overwrite(data, off, Zeros(8));
    DeadHeader(data, off, reserved, key);
    AppendSlices(dead, BlockBytes(key, val, |val|), off, off + 8);
    AppendSlices(dead, BlockBytes(key, val, |val|), off + 8, off + 12);
  }

  lemma RelocateNew(data: seq<byte>, off: nat, key: Key, val: seq<byte>)
    requires off + 8 <= |data| && |key| < U32Limit && |val| < U32Limit
    ensures var data' := Overwrite(data, off, Zeros(8)) + BlockBytes(key, val, |val|);
      |data'| == |data| + BlockSpan(key, |val|) &&
      BlockAt(data', |data|, key, |val|) &&
      ValueAt(data', |data|) == Some(val)
  {
    var dead := Overwrite(data, off, Zeros(8));
    var block := BlockBytes(key, val, |val|);
    assert |dead| == |data|;
    AppendSlices(dead, block, 0, 0);
    BlockRoundTrip(dead + block, |data|, key, val, |val|);
  }

  lemma RelocateOthers(data: seq<byte>, index: map<Key, Entry>, key: Key, val: seq<byte>)
    requires EntriesFit(index) && BlocksLive(data, index) && key in index
    ensures var off := index[key].dataOffset;
      var data' := Overwrite(data, off, Zeros(8)) + BlockBytes(key, val, |val|);
      forall k | k in index && k != key ::
        BlockAt(data', index[k].dataOffset, k, index[k].reserved) &&
        ValueAt(data', index[k].dataOffset) == ValueAt(data, index[k].dataOffset)
  {
    var e := index[key];
    var off := e.dataOffset;
    var data' := Overwrite(data, off, Zeros(8)) + BlockBytes(key, val, |val|);
    assert SameOutside(data, data', off, off + BlockSpan(key, e.reserved));
    KeepsOtherBlocks(Disk(data, [], index), data', key, off, off + BlockSpan(key, e.reserved));
  }

  /** Zeroing the first 8 bytes of a live block keeps the file's length and
      the block's reserved field. */
  lemma DeadHeader(data: seq<byte>, off: nat, reserved: nat, key: Key)
    requires BlockAt(data, off, key, reserved)
    ensures var dead := Overwrite(data, off, Zeros(8));
      |dead| == |data| && dead[off..off + 8] == Zeros(8) &&
      dead[off + 8..off + 12] == U32(reserved)
  {
    Written(data, off, Zeros(8));
    OverwriteKeeps(data, off, Zeros(8), off + 8, off + 12);
  }

  /** Rewriting the two counts leaves every block and record alone and
      brings the counts up to date. */
  lemma WriteCountsPreserves(d: Disk, order: seq<Key>)
    requires WellFormed(d, order)
    ensures var d' := WriteCounts(d);
      WellFormed(d', order) && CountsCurrent(d') && d'.index == d.index &&
      (forall k | k in d.index ::
         ValueAt(d'.data, d.index[k].dataOffset) == ValueAt(d.data, d.index[k].dataOffset))
  {
    CountKeepsBlocks(d.data, d.index, U32(|d.index|));
    WriteCountsWellFormed(d, order);
    WriteCountsCurrent(d);
  }

  lemma WriteCountsWellFormed(d: Disk, order: seq<Key>)
    requires WellFormed(d, order)
    ensures WellFormed(WriteCounts(d), order)
  {
    CountKeepsBlocks(d.data, d.index, U32(|d.index|));
    IndexSameTail(d.idx, WriteCounts(d).idx, d.index, order);
  }

  lemma WriteCountsCurrent(d: Disk)
    requires |d.data| >= 4 && |d.idx| >= 4
    ensures CountsCurrent(WriteCounts(d))
  {
    Written(d.data, 0, U32(|d.index|));
    Written(d.idx, 0, U32(|d.index|));
  }

  /** Rewriting the data file's count keeps every block live and its value. */
  lemma CountKeepsBlocks(data: seq<byte>, index: map<Key, Entry>, count: seq<byte>)
    requires EntriesFit(index) && BlocksLive(data, index) && |count| == 4
    ensures BlocksLive(Overwrite(data, 0, count), index)
    ensures forall k | k in index ::
      ValueAt(Overwrite(data, 0, count), index[k].dataOffset) == ValueAt(data, index[k].dataOffset)
  {
    var data' := Overwrite(data, 0, count);
    assert SameOutside(data, data', 0, 4);
    forall k | k in index
      ensures BlockAt(data', index[k].dataOffset, k, index[k].reserved)
      ensures ValueAt(data', index[k].dataOffset) == ValueAt(data, index[k].dataOffset)
    {
      KeepsBlock(data, data', 0, 4, index[k].dataOffset, k, index[k].reserved);
    }
  }

  /** The index image does not depend on the count. */
  lemma IndexSameTail(idx: seq<byte>, idx': seq<byte>, index: map<Key, Entry>, order: seq<Key>)
    requires IndexImage(idx, index, order)
    requires idx' == Overwrite(idx, 0, U32(|index|))
    ensures IndexImage(idx', index, order)
  {
    assert idx'[4..] == idx[4..];
  }

  /** Reopening files the store flushed rebuilds exactly its index table. */
  lemma ReopenRebuildsIndex(d: Disk, order: seq<Key>)
    requires WellFormed(d, order) && CountsCurrent(d)
    ensures ParseIndexFile(d.idx) == Some(Parsed(order, d.index))
  {
    IndexFileRoundTrip(d.idx, d.index, order);
  }

  // ------------------------------------------------------ index file steps

  /** Appending a new key's record keeps the index image. */
  lemma IndexAppend(idx: seq<byte>, index: map<Key, Entry>, order: seq<Key>, key: Key, e: Entry)
    requires IndexImage(idx, index, order) && key !in index && e.indexOffset == |idx|
    ensures IndexImage(idx + RecordBytes(key, e), index[key := e], order + [key])
  {
    var index' := index[key := e];
    var order' := order + [key];
    var idx' := idx + RecordBytes(key, e);
    assert key !in order;
    assert forall i | 0 <= i < |order| :: order[i] in index;
    RecordsAppend(order, index, key, e);
    DropAppend(idx, RecordBytes(key, e), 4);
    OffsetsAppend(index, order, key, e);
    DistinctAppend(order, key);
    assert |order'| == |index'|;
    assert forall k | k in index' :: k in order';
    forall i | 0 <= i < |order'| ensures order'[i] in index' {
      if i < |order| {
        assert order'[i] == order[i];
      }
    }
    IndexImageIntro(idx', index', order');
  }

  lemma IndexImageIntro(idx: seq<byte>, index: map<Key, Entry>, order: seq<Key>)
    requires |idx| >= 4
    requires |order| == |index|
    requires Distinct(order)
    requires forall i | 0 <= i < |order| :: order[i] in index
    requires forall k | k in index :: k in order
    requires forall i | 0 <= i < |order| :: index[order[i]].indexOffset == 4 + RecordsLen(order[..i])
    requires idx[4..] == Records(order, index)
    ensures IndexImage(idx, index, order)
  {
  }

  lemma DistinctAppend(order: seq<Key>, key: Key)
    requires Distinct(order) && key !in order
    ensures Distinct(order + [key])
  {
    var order' := order + [key];
    forall i, j | 0 <= i < j < |order'| ensures order'[i] != order'[j] {
      if j < |order| {
        assert order[i] != order[j];
      } else {
        assert order'[i] == order[i] && order'[j] == key;
      }
    }
  }

  /** The records of the keys of `order` followed by a new key's. */
  lemma RecordsAppend(order: seq<Key>, index: map<Key, Entry>, key: Key, e: Entry)
    requires forall i | 0 <= i < |order| :: order[i] in index
    requires key !in order
    ensures Records(order + [key], index[key := e]) == Records(order, index) + RecordBytes(key, e)
    ensures |Records(order, index)| == RecordsLen(order)
  {
    var index' := index[key := e];
    RecordsFrame(order, index, index');
    RecordsConcat(order, [key], index');
    assert Records([key], index') == RecordBytes(key, e) + Records([], index');
    RecordsLength(order, index);
  }

  /** After appending, every record still sits where its entry says. */
  lemma OffsetsAppend(index: map<Key, Entry>, order: seq<Key>, key: Key, e: Entry)
    requires forall i | 0 <= i < |order| :: order[i] in index
    requires forall i | 0 <= i < |order| :: index[order[i]].indexOffset == 4 + RecordsLen(order[..i])
    requires |Records(order, index)| == RecordsLen(order) && key !in order
    requires e.indexOffset == 4 + |Records(order, index)|
    ensures forall i | 0 <= i < |order + [key]| ::
      index[key := e][(order + [key])[i]].indexOffset == 4 + RecordsLen((order + [key])[..i])
  {
    var order' := order + [key];
    forall i | 0 <= i < |order'|
      ensures index[key := e][order'[i]].indexOffset == 4 + RecordsLen(order'[..i])
    {
      if i < |order| {
        assert order'[..i] == order[..i];
        assert order'[i] == order[i] != key;
      } else {
        assert order'[..i] == order;
      }
    }
  }

  /** Rewriting a key's record in place, with the same offset, keeps the
      index image. */
  lemma IndexRewrite(idx: seq<byte>, index: map<Key, Entry>, order: seq<Key>, key: Key, e: Entry)
    requires IndexImage(idx, index, order) && key in index
    requires e.indexOffset == index[key].indexOffset
    ensures IndexImage(Overwrite(idx, e.indexOffset, RecordBytes(key, e)), index[key := e], order)
  {
    var index' := index[key := e];
    assert key in order;
    var i :| 0 <= i < |order| && order[i] == key;
    assert forall j | 0 <= j < |order| :: order[j] in index;
    RewriteRecordBytes(idx, index, order, i, e);
    forall j | 0 <= j < |order|
      ensures index'[order[j]].indexOffset == 4 + RecordsLen(order[..j])
    {
    }
  }

  /** The bytes of the index file after rewriting the `i`-th record. */
  lemma RewriteRecordBytes(idx: seq<byte>, index: map<Key, Entry>, order: seq<Key>, i: nat, e: Entry)
    requires forall j | 0 <= j < |order| :: order[j] in index
    requires Distinct(order) && i < |order|
    requires |idx| >= 4 && idx[4..] == Records(order, index)
    requires e.indexOffset == 4 + RecordsLen(order[..i])
    ensures var idx' := Overwrite(idx, e.indexOffset, RecordBytes(order[i], e));
      |idx'| >= 4 && idx'[4..] == Records(order, index[order[i] := e])
  {
    var key := order[i];
    RecordsReplace(order, index, i, e);
    var pre, post := Records(order[..i], index), Records(order[i + 1..], index);
    var h, rOld, rNew := idx[..4], RecordBytes(key, index[key]), RecordBytes(key, e);
    assert idx == h + idx[4..];
    ConcatAssoc(h, pre, rOld, post);
    assert idx == (h + pre) + rOld + post;
    assert |h + pre| == e.indexOffset;
    OverwriteMiddle(h + pre, rOld, post, rNew);
    ConcatAssoc(h, pre, rNew, post);
    var idx' := Overwrite(idx, e.indexOffset, rNew);
    assert idx' == h + (pre + rNew + post);
    DropAppend(h, pre + rNew + post, 4);
    assert h[4..] == [];
  }

  /** The records of `order` split around its `i`-th key, before and after
      that key's entry is replaced. */
  lemma RecordsReplace(order: seq<Key>, index: map<Key, Entry>, i: nat, e: Entry)
    requires forall j | 0 <= j < |order| :: order[j] in index
    requires Distinct(order) && i < |order|
    ensures var k := order[i];
      Records(order, index)
        == Records(order[..i], index) + RecordBytes(k, index[k]) + Records(order[i + 1..], index) &&
      Records(order, index[k := e])
        == Records(order[..i], index) + RecordBytes(k, e) + Records(order[i + 1..], index) &&
      |Records(order[..i], index)| == RecordsLen(order[..i])
  {
    var k := order[i];
    var index' := index[k := e];
    assert k !in order[..i] && k !in order[i + 1..] by {
      forall j | 0 <= j < |order| && j != i ensures order[j] != k {
        if j < i {
          assert order[j] != order[i];
        } else {
          assert order[i] != order[j];
        }
      }
    }
    RecordsSplit(order, index, i);
    RecordsSplit(order, index', i);
    RecordsFrame(order[..i], index, index');
    RecordsFrame(order[i + 1..], index, index');
    RecordsLength(order[..i], index);
  }
}
