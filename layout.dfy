/** The two on-disk formats of the store and the readers that decode them.

    Data file: a 4-byte record count, then blocks, each laid out as
      u32 key length, u32 value length, u32 reserved length,
      the key bytes, the value bytes, (reserved - value length) zero bytes.
    Index file: a 4-byte record count, then one record per key:
      u32 key length, the key bytes, u64 block offset, u32 reserved length.
    All integers are little-endian. */
module Layout {
  import opened Bytes

  type Key = seq<byte>

  datatype Option<T> = None | Some(value: T)

  /** An index-table entry: where the key's current block starts in the data
      file, where its own record starts in the index file, and how many value
      bytes the block reserves. */
  datatype Entry = Entry(dataOffset: nat, indexOffset: nat, reserved: nat)

  /** The least number of value bytes a brand-new block reserves. */
  const MinBlockSize: nat := 1024

  /** Bytes a block of `key` reserving `reserved` value bytes occupies. */
  function BlockSpan(key: Key, reserved: nat): nat {
    12 + |key| + reserved
  }

  /** The fields of an entry fit the widths they are stored in. */
  ghost predicate EntryFits(key: Key, e: Entry) {
    |key| < U32Limit && e.reserved < U32Limit && e.dataOffset < U64Limit
  }

  // ---------------------------------------------------------------- blocks

  /** The bytes of a full block: header, key, value, then zero padding up to
      the reserved size when the value is shorter. */
  function BlockBytes(key: Key, val: seq<byte>, reserved: nat): (r: seq<byte>)
    ensures |val| <= reserved ==> |r| == BlockSpan(key, reserved)
    ensures |val| <= reserved ==> forall i | 12 + |key| + |val| <= i < |r| :: r[i] == 0
  {
    U32(|key|) + U32(|val|) + U32(reserved) + key + val
      + Padding(|val|, reserved)
  }

  /** The zero bytes that fill a block after a value shorter than its
      reservation. */
  function Padding(valLen: nat, reserved: nat): (r: seq<byte>)
    ensures valLen <= reserved ==> |r| == reserved - valLen
    ensures forall i | 0 <= i < |r| :: r[i] == 0
  {
    if valLen < reserved then Zeros(reserved - valLen) else []
  }

  /** The value read back from the block at `off`: the key and value lengths
      from the first 8 header bytes, then the value bytes that follow the
      reserved field and the key. Padding is never read. `None` when the
      file ends before the header or a non-empty value does; reading zero
      bytes gives the empty value wherever the cursor is. */
  function ValueAt(data: seq<byte>, off: nat): Option<seq<byte>>
  {
    if off + 8 > |data| then None
    else
      var keyLen := LeValue(data[off..off + 4]);
      var valLen := LeValue(data[off + 4..off + 8]);
      var start := off + 12 + keyLen;
      if start + valLen <= |data| then Some(data[start..start + valLen])
      else if valLen == 0 then Some([])
      else None
  }

  /** A live block of `key` reserving `reserved` bytes starts at `off`: its
      whole span lies in the file, the key-length field, the reserved field
      and the key are in place, and the value length is within the
      reservation. The value bytes and the padding are not constrained. */
  ghost predicate BlockAt(data: seq<byte>, off: nat, key: Key, reserved: nat) {
    off + BlockSpan(key, reserved) <= |data| &&
    data[off..off + 4] == U32(|key|) &&
    LeValue(data[off + 4..off + 8]) <= reserved &&
    data[off + 8..off + 12] == U32(reserved) &&
    data[off + 12..off + 12 + |key|] == key
  }

  /** A live block always reads back as its value field's many bytes after
      the key, within the block. */
  lemma BlockValue(data: seq<byte>, off: nat, key: Key, reserved: nat)
    requires BlockAt(data, off, key, reserved) && |key| < U32Limit
    ensures ValueAt(data, off).Some?
    ensures var start := off + 12 + |key|;
      ValueAt(data, off).value == data[start..start + LeValue(data[off + 4..off + 8])]
  {
    U32RoundTrip(|key|);
  }

  /** A full block written at `off` is a live block there, and reading it
      gives back exactly the value written: neither the padding nor any byte
      after the block. */
  lemma BlockRoundTrip(data: seq<byte>, off: nat, key: Key, val: seq<byte>, reserved: nat)
    requires |key| < U32Limit && |val| <= reserved < U32Limit
    requires off + BlockSpan(key, reserved) <= |data|
    requires data[off..off + BlockSpan(key, reserved)] == BlockBytes(key, val, reserved)
    ensures BlockAt(data, off, key, reserved)
    ensures ValueAt(data, off) == Some(val)
  {
    BlockPieces(data, off, key, val, reserved);
    U32RoundTrip(|val|);
    assert LeValue(data[off + 4..off + 8]) == |val|;
    assert BlockAt(data, off, key, reserved);
    BlockValue(data, off, key, reserved);
  }

  /** The fields of a full block written at `off`, read from the file. */
  lemma BlockPieces(data: seq<byte>, off: nat, key: Key, val: seq<byte>, reserved: nat)
    requires |val| <= reserved
    requires off + BlockSpan(key, reserved) <= |data|
    requires data[off..off + BlockSpan(key, reserved)] == BlockBytes(key, val, reserved)
    ensures var k := off + 12 + |key|;
      data[off..off + 4] == U32(|key|) && data[off + 4..off + 8] == U32(|val|) &&
      data[off + 8..off + 12] == U32(reserved) && data[off + 12..k] == key &&
      data[k..k + |val|] == val
  {
    var b := BlockBytes(key, val, reserved);
    var k := 12 + |key|;
    BlockFields(key, val, reserved);
    SliceOf(data, off, b, 0, 4);
    SliceOf(data, off, b, 4, 8);
    SliceOf(data, off, b, 8, 12);
    SliceOf(data, off, b, 12, k);
    SliceOf(data, off, b, k, k + |val|);
  }

  /** Where each field of a full block sits. */
  lemma BlockFields(key: Key, val: seq<byte>, reserved: nat)
    ensures var b := BlockBytes(key, val, reserved);
      |b| >= 12 + |key| + |val| &&
      b[..4] == U32(|key|) && b[4..8] == U32(|val|) && b[8..12] == U32(reserved) &&
      b[12..12 + |key|] == key && b[12 + |key|..12 + |key| + |val|] == val
  {
    var pad := Padding(|val|, reserved);
    var h := U32(|key|) + U32(|val|) + U32(reserved);
    var b := BlockBytes(key, val, reserved);
    assert b == h + key + val + pad;
    assert b[..12] == h;
    assert h[..4] == U32(|key|) && h[4..8] == U32(|val|) && h[8..12] == U32(reserved);
  }

  /** A piece of a file that holds `b` at `off` is the same piece of `b`. */
  lemma SliceOf(data: seq<byte>, off: nat, b: seq<byte>, lo: nat, hi: nat)
    requires off + |b| <= |data| && data[off..off + |b|] == b
    requires lo <= hi <= |b|
    ensures data[off + lo..off + hi] == b[lo..hi]
  {
    var l, r := data[off + lo..off + hi], b[lo..hi];
    forall t | 0 <= t < |l| ensures l[t] == r[t] {
      assert l[t] == data[off + lo + t] == data[off..off + |b|][lo + t];
    }
  }

  /** A live block keeps its reading when the bytes of its span do not change. */
  lemma BlockFrame(d1: seq<byte>, d2: seq<byte>, off: nat, key: Key, reserved: nat)
    requires BlockAt(d1, off, key, reserved) && |key| < U32Limit
    requires off + BlockSpan(key, reserved) <= |d2|
    requires d1[off..off + BlockSpan(key, reserved)] == d2[off..off + BlockSpan(key, reserved)]
    ensures BlockAt(d2, off, key, reserved)
    ensures ValueAt(d2, off) == ValueAt(d1, off)
  {
    var n := BlockSpan(key, reserved);
    var s := d1[off..off + n];
    var start := 12 + |key|;
    BlockValue(d1, off, key, reserved);
    var len := LeValue(d1[off + 4..off + 8]);
    SliceOf(d1, off, s, 0, 4);
    SliceOf(d2, off, s, 0, 4);
    SliceOf(d1, off, s, 4, 8);
    SliceOf(d2, off, s, 4, 8);
    SliceOf(d1, off, s, 8, 12);
    SliceOf(d2, off, s, 8, 12);
    SliceOf(d1, off, s, 12, start);
    SliceOf(d2, off, s, 12, start);
    SliceOf(d1, off, s, start, start + len);
    SliceOf(d2, off, s, start, start + len);
    assert BlockAt(d2, off, key, reserved);
    BlockValue(d2, off, key, reserved);
  }

  // --------------------------------------------------------- index records

  /** The bytes of one index record. */
  function RecordBytes(key: Key, e: Entry): (r: seq<byte>)
    ensures |r| == 16 + |key|
  {
    U32(|key|) + key + U64(e.dataOffset) + U32(e.reserved)
  }

  /** The records of the keys of `order`, one after the other. */
  function Records(order: seq<Key>, index: map<Key, Entry>): seq<byte>
  {
    if order == [] then []
    else
      var head := if order[0] in index then RecordBytes(order[0], index[order[0]]) else [];
      head + Records(order[1..], index)
  }

  /** The length of the records of the keys of `order`. */
  function RecordsLen(order: seq<Key>): nat
  {
    if order == [] then 0 else 16 + |order[0]| + RecordsLen(order[1..])
  }

  lemma {:induction false} RecordsLength(order: seq<Key>, index: map<Key, Entry>)
    requires forall i | 0 <= i < |order| :: order[i] in index
    ensures |Records(order, index)| == RecordsLen(order)
  {
    if order != [] {
      RecordsLength(order[1..], index);
    }
  }

  lemma RecordsConcat(o1: seq<Key>, o2: seq<Key>, index: map<Key, Entry>)
    ensures Records(o1 + o2, index) == Records(o1, index) + Records(o2, index)
    ensures RecordsLen(o1 + o2) == RecordsLen(o1) + RecordsLen(o2)
  {
    RecordsBytesConcat(o1, o2, index);
    RecordsLenConcat(o1, o2);
  }

  lemma {:induction false} RecordsBytesConcat(o1: seq<Key>, o2: seq<Key>, index: map<Key, Entry>)
    ensures Records(o1 + o2, index) == Records(o1, index) + Records(o2, index)
  {
    if o1 != [] {
      assert (o1 + o2)[1..] == o1[1..] + o2;
      assert (o1 + o2)[0] == o1[0];
      RecordsBytesConcat(o1[1..], o2, index);
      var head := if o1[0] in index then RecordBytes(o1[0], index[o1[0]]) else [];
      assert Records(o1 + o2, index) == head + (Records(o1[1..], index) + Records(o2, index));
      assert Records(o1, index) == head + Records(o1[1..], index);
    } else {
      assert o1 + o2 == o2;
    }
  }

  lemma {:induction false} RecordsLenConcat(o1: seq<Key>, o2: seq<Key>)
    ensures RecordsLen(o1 + o2) == RecordsLen(o1) + RecordsLen(o2)
  {
    if o1 != [] {
      assert (o1 + o2)[1..] == o1[1..] + o2;
      assert (o1 + o2)[0] == o1[0];
      RecordsLenConcat(o1[1..], o2);
    } else {
      assert o1 + o2 == o2;
    }
  }

  /** The records of `order` depend only on the entries of its keys. */
  lemma {:induction false} RecordsFrame(order: seq<Key>, m1: map<Key, Entry>, m2: map<Key, Entry>)
    requires forall i | 0 <= i < |order| :: order[i] in m1 && order[i] in m2
    requires forall i | 0 <= i < |order| :: m1[order[i]] == m2[order[i]]
    ensures Records(order, m1) == Records(order, m2)
  {
    if order != [] {
      RecordsFrame(order[1..], m1, m2);
    }
  }

  ghost predicate Distinct(order: seq<Key>) {
    forall i, j | 0 <= i < j < |order| :: order[i] != order[j]
  }

  /** The index file holds, after its 4-byte count, exactly one record per
      key of `index`, in the order `order`, each at the offset its entry
      names. */
  ghost predicate IndexImage(idx: seq<byte>, index: map<Key, Entry>, order: seq<Key>) {
    |idx| >= 4 && |order| == |index| && Distinct(order) &&
    (forall i | 0 <= i < |order| :: order[i] in index) &&
    (forall k | k in index :: k in order) &&
    (forall i | 0 <= i < |order| :: index[order[i]].indexOffset == 4 + RecordsLen(order[..i])) &&
    idx[4..] == Records(order, index)
  }

  // ------------------------------------------------------- index file parse

  datatype RawRecord = RawRecord(key: Key, dataOffset: nat, reserved: nat)

  /** One index record read at `pos`; `None` when the file ends first. */
  function ParseRecord(idx: seq<byte>, pos: nat): Option<RawRecord>
  {
    if pos + 4 > |idx| then None
    else
      var keyEnd := pos + 4 + LeValue(idx[pos..pos + 4]);
      if keyEnd + 12 > |idx| then None
      else Some(RawRecord(idx[pos + 4..keyEnd],
                          LeValue(idx[keyEnd..keyEnd + 8]),
                          LeValue(idx[keyEnd + 8..keyEnd + 12])))
  }

  /** What the index scan yields: the keys in file order and the table. */
  datatype Parsed = Parsed(keys: seq<Key>, table: map<Key, Entry>)

  /** `count` more records read from `pos` on, each entered in the table
      under its key with its own starting offset; a later record for the same
      key replaces an earlier one. */
  function ParseRecords(idx: seq<byte>, pos: nat, count: nat, acc: Parsed): Option<Parsed>
    decreases count
  {
    if count == 0 then Some(acc)
    else
      match ParseRecord(idx, pos)
      case None => None
      case Some(rec) =>
        ParseRecords(idx, pos + 16 + |rec.key|, count - 1,
          Parsed(acc.keys + [rec.key], acc.table[rec.key := Entry(rec.dataOffset, pos, rec.reserved)]))
  }

  /** The whole scan: the count from the header, then that many records. */
  function ParseIndexFile(idx: seq<byte>): Option<Parsed>
  {
    if |idx| < 4 then None
    else ParseRecords(idx, 4, LeValue(idx[..4]), Parsed([], map[]))
  }

  /** A record written at `pos` reads back as the same key, offset and size. */
  lemma RecordRoundTrip(idx: seq<byte>, pos: nat, key: Key, e: Entry)
    requires EntryFits(key, e)
    requires pos + 16 + |key| <= |idx|
    requires idx[pos..pos + 16 + |key|] == RecordBytes(key, e)
    ensures ParseRecord(idx, pos) == Some(RawRecord(key, e.dataOffset, e.reserved))
  {
    var r := RecordBytes(key, e);
    var keyEnd := pos + 4 + |key|;
    RecordFields(key, e);
    SliceOf(idx, pos, r, 0, 4);
    SliceOf(idx, pos, r, 4, 4 + |key|);
    SliceOf(idx, pos, r, 4 + |key|, 12 + |key|);
    SliceOf(idx, pos, r, 12 + |key|, 16 + |key|);
    U32RoundTrip(|key|);
    U64RoundTrip(e.dataOffset);
    U32RoundTrip(e.reserved);
  }

  /** Where each field of an index record sits. */
  lemma RecordFields(key: Key, e: Entry)
    ensures var r := RecordBytes(key, e);
      r[..4] == U32(|key|) && r[4..4 + |key|] == key &&
      r[4 + |key|..12 + |key|] == U64(e.dataOffset) && r[12 + |key|..16 + |key|] == U32(e.reserved)
  {
    var r := RecordBytes(key, e);
    assert r == U32(|key|) + key + U64(e.dataOffset) + U32(e.reserved);
  }

  /** The entries of `index` whose keys occur in `ks`. */
  ghost function Restrict(index: map<Key, Entry>, ks: seq<Key>): map<Key, Entry>
  {
    map k | k in index && k in ks :: index[k]
  }

  /** Scanning an index file whose records are those of `order` gives back
      the keys in that order and exactly the table `index`. */
  lemma IndexFileRoundTrip(idx: seq<byte>, index: map<Key, Entry>, order: seq<Key>)
    requires IndexImage(idx, index, order)
    requires idx[..4] == U32(|index|) && |index| < U32Limit
    requires forall k | k in index :: EntryFits(k, index[k])
    ensures ParseIndexFile(idx) == Some(Parsed(order, index))
  {
    U32RoundTrip(|index|);
    AllRecordsScan(idx, index, order);
    ScanFrom(idx, index, order, 0);
    ScanOrigin(index, order);
    ScanStart(idx, |order|);
  }

  lemma AllRecordsScan(idx: seq<byte>, index: map<Key, Entry>, order: seq<Key>)
    requires IndexImage(idx, index, order)
    requires forall k | k in index :: EntryFits(k, index[k])
    ensures forall j | 0 <= j < |order| :: RecordScans(idx, index, order, j)
  {
    forall j | 0 <= j < |order|
      ensures RecordScans(idx, index, order, j)
    {
      RecordScansAt(idx, index, order, j);
    }
  }

  /** Where the scan of the first `i` records of `order` ends. */
  ghost function ScanPos(order: seq<Key>, i: nat): nat
    requires i <= |order|
  {
    4 + RecordsLen(order[..i])
  }

  /** What the scan has gathered after the first `i` records of `order`. */
  ghost function ScanAcc(index: map<Key, Entry>, order: seq<Key>, i: nat): Parsed
    requires i <= |order|
  {
    Parsed(order[..i], Restrict(index, order[..i]))
  }

  lemma ScanOrigin(index: map<Key, Entry>, order: seq<Key>)
    ensures ScanPos(order, 0) == 4 + RecordsLen([])
    ensures ScanAcc(index, order, 0) == Parsed([], map[])
  {
    assert order[..0] == [];
  }

  lemma ScanStart(idx: seq<byte>, n: nat)
    requires |idx| >= 4 && LeValue(idx[..4]) == n
    ensures ParseIndexFile(idx) == ParseRecords(idx, 4 + RecordsLen([]), n, Parsed([], map[]))
  {
  }

  lemma ScanEnd(index: map<Key, Entry>, order: seq<Key>)
    requires forall k | k in index :: k in order
    ensures ScanAcc(index, order, |order|) == Parsed(order, index)
  {
    assert order[..|order|] == order;
  }

  /** Reading the `i`-th record moves the scan from the first `i` records
      to the first `i + 1`. */
  lemma ScanOne(idx: seq<byte>, index: map<Key, Entry>, order: seq<Key>, i: nat)
    requires i < |order| && RecordScans(idx, index, order, i)
    ensures ParseRecords(idx, ScanPos(order, i), |order| - i, ScanAcc(index, order, i))
         == ParseRecords(idx, ScanPos(order, i + 1), |order| - i - 1, ScanAcc(index, order, i + 1))
  {
    var k := order[i];
    var pos := ScanPos(order, i);
    assert index[k] == Entry(index[k].dataOffset, pos, index[k].reserved);
    RestrictStep(index, order, i);
    RecordsLenStep(order, i);
    assert order[..i] + [k] == order[..i + 1];
    var rec := RawRecord(k, index[k].dataOffset, index[k].reserved);
    ParseStep(idx, pos, |order| - i, ScanAcc(index, order, i), rec,
              ScanPos(order, i + 1), ScanAcc(index, order, i + 1));
  }

  lemma RecordScansAt(idx: seq<byte>, index: map<Key, Entry>, order: seq<Key>, j: nat)
    requires forall i | 0 <= i < |order| :: order[i] in index
    requires |idx| >= 4 && idx[4..] == Records(order, index) && j < |order|
    requires index[order[j]].indexOffset == 4 + RecordsLen(order[..j])
    requires EntryFits(order[j], index[order[j]])
    ensures RecordScans(idx, index, order, j)
  {
    var pos, key := 4 + RecordsLen(order[..j]), order[j];
    RecordInFile(idx, index, order, j);
    RecordRoundTrip(idx, pos, key, index[key]);
    RecordScansIntro(idx, index, order, j, pos, key, index[key]);
  }

  lemma RecordScansIntro(idx: seq<byte>, index: map<Key, Entry>, order: seq<Key>, j: nat,
                         pos: nat, key: Key, e: Entry)
    requires j < |order| && key == order[j] && key in index && e == index[key]
    requires pos == 4 + RecordsLen(order[..j]) && e.indexOffset == pos
    requires ParseRecord(idx, pos) == Some(RawRecord(key, e.dataOffset, e.reserved))
    ensures RecordScans(idx, index, order, j)
  {
  }

  /** The `j`-th record of `order` sits where the scan reaches it and reads
      back as that key's entry. */
  ghost predicate RecordScans(idx: seq<byte>, index: map<Key, Entry>, order: seq<Key>, j: nat)
    requires j < |order|
  {
    order[j] in index &&
    index[order[j]].indexOffset == 4 + RecordsLen(order[..j]) &&
    ParseRecord(idx, 4 + RecordsLen(order[..j]))
      == Some(RawRecord(order[j], index[order[j]].dataOffset, index[order[j]].reserved))
  }

  lemma {:induction false} ScanFrom(idx: seq<byte>, index: map<Key, Entry>, order: seq<Key>, i: nat)
    requires i <= |order|
    requires forall j | 0 <= j < |order| :: RecordScans(idx, index, order, j)
    requires forall k | k in index :: k in order
    ensures ParseRecords(idx, ScanPos(order, i), |order| - i, ScanAcc(index, order, i))
            == Some(Parsed(order, index))
    decreases |order| - i
  {
    if i == |order| {
      ScanEnd(index, order);
    } else {
      ScanOne(idx, index, order, i);
      ScanFrom(idx, index, order, i + 1);
    }
  }

  /** One turn of the scan loop. */
  lemma ParseStep(idx: seq<byte>, pos: nat, count: nat, acc: Parsed, rec: RawRecord, next: nat, acc': Parsed)
    requires count > 0 && ParseRecord(idx, pos) == Some(rec)
    requires next == pos + 16 + |rec.key|
    requires acc' == Parsed(acc.keys + [rec.key], acc.table[rec.key := Entry(rec.dataOffset, pos, rec.reserved)])
    ensures ParseRecords(idx, pos, count, acc) == ParseRecords(idx, next, count - 1, acc')
  {
  }

  lemma RecordsLenStep(order: seq<Key>, i: nat)
    requires i < |order|
    ensures RecordsLen(order[..i + 1]) == RecordsLen(order[..i]) + 16 + |order[i]|
  {
    assert order[..i + 1] == order[..i] + [order[i]];
    RecordsConcat(order[..i], [order[i]], map[]);
    assert RecordsLen([order[i]]) == 16 + |order[i]| + RecordsLen([]);
  }

  lemma RestrictStep(index: map<Key, Entry>, order: seq<Key>, i: nat)
    requires i < |order| && order[i] in index
    ensures Restrict(index, order[..i + 1]) == Restrict(index, order[..i])[order[i] := index[order[i]]]
  {
    assert order[..i + 1] == order[..i] + [order[i]];
  }

  /** The `i`-th record of an index image sits right after the ones before it. */
  lemma RecordAt(idx: seq<byte>, index: map<Key, Entry>, order: seq<Key>, i: nat)
    requires IndexImage(idx, index, order) && i < |order|
    ensures var pos := 4 + RecordsLen(order[..i]);
      pos + 16 + |order[i]| <= |idx| &&
      idx[pos..pos + 16 + |order[i]|] == RecordBytes(order[i], index[order[i]])
  {
    RecordInFile(idx, index, order, i);
  }

  lemma RecordInFile(idx: seq<byte>, index: map<Key, Entry>, order: seq<Key>, i: nat)
    requires forall j | 0 <= j < |order| :: order[j] in index
    requires |idx| >= 4 && idx[4..] == Records(order, index) && i < |order|
    ensures var pos := 4 + RecordsLen(order[..i]);
      pos + 16 + |order[i]| <= |idx| &&
      idx[pos..pos + 16 + |order[i]|] == RecordBytes(order[i], index[order[i]])
  {
    RecordInRecords(order, index, i);
    var lo := RecordsLen(order[..i]);
    SliceOf(idx, 4, Records(order, index), lo, lo + 16 + |order[i]|);
  }

  lemma RecordInRecords(order: seq<Key>, index: map<Key, Entry>, i: nat)
    requires forall j | 0 <= j < |order| :: order[j] in index
    requires i < |order|
    ensures var lo := RecordsLen(order[..i]);
      lo + 16 + |order[i]| <= |Records(order, index)| &&
      Records(order, index)[lo..lo + 16 + |order[i]|] == RecordBytes(order[i], index[order[i]])
  {
    RecordsSplit(order, index, i);
    RecordsLength(order[..i], index);
    MiddleSlice(Records(order[..i], index), RecordBytes(order[i], index[order[i]]), Records(order[i + 1..], index));
  }

  /** The records of `order` around its `i`-th key. */
  lemma RecordsSplit(order: seq<Key>, index: map<Key, Entry>, i: nat)
    requires i < |order| && order[i] in index
    ensures Records(order, index)
      == Records(order[..i], index) + RecordBytes(order[i], index[order[i]]) + Records(order[i + 1..], index)
  {
    var k := order[i];
    var a, c := order[..i], order[i + 1..];
    assert order == a + [k] + c;
    RecordsConcat(a + [k], c, index);
    RecordsConcat(a, [k], index);
    assert Records([k], index) == RecordBytes(k, index[k]) + Records([], index);
  }
}
