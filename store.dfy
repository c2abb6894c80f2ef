/** The storage engine: a cache of values, the set of keys put since the
    last flush, and the index table, over a data file and an index file. */
module Store {
  import opened Bytes
  import opened Layout
  import opened ByteFiles
  import opened Coordinator

  /** The error a lookup of an unknown key raises. */
  datatype StoreError = NoKeyError

  datatype Result<T> = Ok(value: T) | Err(error: StoreError)

  /** The value of every key the files hold. */
  ghost function DiskContents(d: Disk): map<Key, seq<byte>>
  {
    map k | k in d.index :: Stored(d, k)
  }

  /** Every dirty key is cached, and every cached key that is not dirty is
      stored in the data file with its cached value. */
  ghost predicate Coherent(d: Disk, memcache: map<Key, seq<byte>>, dirty: set<Key>) {
    dirty <= memcache.Keys &&
    (forall k | k in memcache && k !in dirty ::
       k in d.index && ValueAt(d.data, d.index[k].dataOffset) == Some(memcache[k]))
  }

  /** The store's invariant between calls. */
  ghost predicate StoreInv(d: Disk, order: seq<Key>, memcache: map<Key, seq<byte>>, dirty: set<Key>) {
    WellFormed(d, order) && CountsCurrent(d) && Coherent(d, memcache, dirty)
  }

  /** What a lookup of each key gives: the cached value, else the stored one. */
  ghost function View(d: Disk, memcache: map<Key, seq<byte>>): map<Key, seq<byte>>
  {
    map k | k in memcache.Keys + d.index.Keys ::
      if k in memcache then memcache[k] else Stored(d, k)
  }

  /** Keys outside `touched` keep their entries and read the same. */
  ghost predicate Untouched(d0: Disk, d: Disk, touched: set<Key>) {
    forall k | k in d0.index && k !in touched ::
      k in d.index && d.index[k] == d0.index[k] &&
      ValueAt(d.data, d0.index[k].dataOffset) == ValueAt(d0.data, d0.index[k].dataOffset)
  }

  /** A lookup gives the cached value when there is one, else the stored
      value when the key has an entry, else nothing. */
  lemma ViewAt(d: Disk, memcache: map<Key, seq<byte>>, key: Key)
    ensures key in View(d, memcache) <==> key in memcache || key in d.index
    ensures key in memcache ==> View(d, memcache)[key] == memcache[key]
    ensures key !in memcache && key in d.index ==> View(d, memcache)[key] == Stored(d, key)
  {
  }

  /** A live block's stored value is what reading it gives. */
  lemma StoredReads(d: Disk, order: seq<Key>, key: Key)
    requires WellFormed(d, order) && key in d.index
    ensures ValueAt(d.data, d.index[key].dataOffset) == Some(Stored(d, key))
  {
    assert EntryFits(key, d.index[key]);
    BlockValue(d.data, d.index[key].dataOffset, key, d.index[key].reserved);
  }

  /** `put` keeps the cache coherent and changes the lookup of `key` only. */
  lemma PutKeeps(d: Disk, order: seq<Key>, memcache: map<Key, seq<byte>>, dirty: set<Key>,
                  key: Key, value: seq<byte>)
    requires StoreInv(d, order, memcache, dirty)
    ensures StoreInv(d, order, memcache[key := value], dirty + {key})
    ensures View(d, memcache[key := value]) == View(d, memcache)[key := value]
  {
    PutCoherent(d, memcache, dirty, key, value);
    PutView(d, memcache, key, value);
  }

  lemma PutView(d: Disk, memcache: map<Key, seq<byte>>, key: Key, value: seq<byte>)
    ensures View(d, memcache[key := value]) == View(d, memcache)[key := value]
  {
  }

  lemma PutCoherent(d: Disk, memcache: map<Key, seq<byte>>, dirty: set<Key>, key: Key, value: seq<byte>)
    requires Coherent(d, memcache, dirty)
    ensures Coherent(d, memcache[key := value], dirty + {key})
  {
  }

  /** Caching the stored value of an uncached key keeps the cache coherent
      and changes no lookup. */
  lemma CacheKeeps(d: Disk, order: seq<Key>, memcache: map<Key, seq<byte>>, dirty: set<Key>, key: Key,
                   memcache': map<Key, seq<byte>>)
    requires StoreInv(d, order, memcache, dirty) && key in d.index && key !in memcache
    requires memcache' == memcache[key := Stored(d, key)]
    ensures StoreInv(d, order, memcache', dirty)
    ensures View(d, memcache') == View(d, memcache)
  {
    StoredReads(d, order, key);
    CacheCoherent(d, memcache, dirty, key);
    CacheView(d, memcache, key);
  }

  lemma CacheView(d: Disk, memcache: map<Key, seq<byte>>, key: Key)
    requires key in d.index && key !in memcache
    ensures View(d, memcache[key := Stored(d, key)]) == View(d, memcache)
  {
  }

  lemma CacheCoherent(d: Disk, memcache: map<Key, seq<byte>>, dirty: set<Key>, key: Key)
    requires Coherent(d, memcache, dirty) && key in d.index && key !in memcache
    requires ValueAt(d.data, d.index[key].dataOffset) == Some(Stored(d, key))
    ensures Coherent(d, memcache[key := Stored(d, key)], dirty)
  {
  }

  /** With nothing dirty, the lookups are those of the files alone. */
  lemma FlushedView(d: Disk, memcache: map<Key, seq<byte>>)
    requires Coherent(d, memcache, {})
    ensures View(d, memcache) == DiskContents(d)
  {
    assert View(d, memcache).Keys == DiskContents(d).Keys;
  }

  /** The invariant of the flush loop, from files `d0` to `d`: the store's
      invariant holds except the counts, and `LoopProgress` holds. */
  ghost predicate LoopInv(d0: Disk, d: Disk, order: seq<Key>, memcache: map<Key, seq<byte>>,
                          dirty: set<Key>, pending: set<Key>, flushed: set<Key>) {
    WellFormed(d, order) && LoopProgress(d0, d, memcache, dirty, pending, flushed)
  }

  /** The keys of `dirty` are split into those still `pending` and those
      `flushed`; every cached key that is not pending is stored; keys not
      flushed are untouched; and the table and the data file have grown by at
      most one entry and one block per flushed key. */
  ghost predicate LoopProgress(d0: Disk, d: Disk, memcache: map<Key, seq<byte>>,
                               dirty: set<Key>, pending: set<Key>, flushed: set<Key>) {
    pending <= dirty && flushed == dirty - pending && |flushed| + |pending| == |dirty| &&
    Coherent(d, memcache, pending) && Untouched(d0, d, flushed) &&
    d.index.Keys == d0.index.Keys + flushed && |d.index| <= |d0.index| + |flushed| &&
    |d.data| <= |d0.data| + |flushed| * MaxBlockSpan
  }

  /** The lengths and offsets a flush of `dirty` writes fit their fields. */
  ghost predicate Representable(d: Disk, memcache: map<Key, seq<byte>>, dirty: set<Key>) {
    (forall k | k in dirty :: |k| < U32Limit && k in memcache && |memcache[k]| < U32Limit) &&
    |d.index| + |dirty| < U32Limit &&
    |d.data| + |dirty| * MaxBlockSpan <= U64Limit
  }

  /** The keys of a sequence. */
  ghost function Elems(keys: seq<Key>): set<Key> {
    set k | k in keys
  }

  lemma ElemsSnoc(keys: seq<Key>, key: Key)
    ensures Elems(keys + [key]) == Elems(keys) + {key}
  {
  }

  /** The files after flushing `keys` one after the other, each with its
      cached value. */
  ghost function FlushAll(d: Disk, memcache: map<Key, seq<byte>>, keys: seq<Key>): Disk
    requires Elems(keys) <= memcache.Keys
  {
    if keys == [] then d
    else
      var last := keys[|keys| - 1];
      FlushKey(FlushAll(d, memcache, keys[..|keys| - 1]), last, memcache[last])
  }

  /** The record order after flushing `keys` one after the other. */
  ghost function OrderAll(d: Disk, order: seq<Key>, memcache: map<Key, seq<byte>>, keys: seq<Key>): seq<Key>
    requires Elems(keys) <= memcache.Keys
  {
    if keys == [] then order
    else
      var init := keys[..|keys| - 1];
      NextOrder(FlushAll(d, memcache, init), OrderAll(d, order, memcache, init), keys[|keys| - 1])
  }

  /** The last key of a sequence without repeats is not among the others. */
  lemma DoneSplit(done: seq<Key>)
    requires Distinct(done) && done != []
    ensures Distinct(done[..|done| - 1])
    ensures Elems(done) == Elems(done[..|done| - 1]) + {done[|done| - 1]}
    ensures done[|done| - 1] !in Elems(done[..|done| - 1])
  {
    assert done == done[..|done| - 1] + [done[|done| - 1]];
    ElemsSnoc(done[..|done| - 1], done[|done| - 1]);
  }

  /** Flushing the dirty keys in any order that lists each once keeps the
      loop invariant after every key. */
  lemma {:induction false} FlushAllProgress(d0: Disk, order: seq<Key>, memcache: map<Key, seq<byte>>,
                                            dirty: set<Key>, done: seq<Key>)
    requires WellFormed(d0, order) && Coherent(d0, memcache, dirty)
    requires Representable(d0, memcache, dirty)
    requires Distinct(done) && Elems(done) <= dirty
    ensures LoopInv(d0, FlushAll(d0, memcache, done), OrderAll(d0, order, memcache, done),
                    memcache, dirty, dirty - Elems(done), Elems(done))
  {
    if done == [] {
      FlushNoneProgress(d0, order, memcache, dirty, done);
    } else {
      var init := done[..|done| - 1];
      DoneSplit(done);
      FlushAllProgress(d0, order, memcache, dirty, init);
      FlushAllStep(d0, order, memcache, dirty, done);
    }
  }

  /** `FlushAllProgress` before any key is flushed. */
  lemma FlushNoneProgress(d0: Disk, order: seq<Key>, memcache: map<Key, seq<byte>>,
                          dirty: set<Key>, done: seq<Key>)
    requires WellFormed(d0, order) && Coherent(d0, memcache, dirty) && done == []
    ensures LoopInv(d0, FlushAll(d0, memcache, done), OrderAll(d0, order, memcache, done),
                    memcache, dirty, dirty - Elems(done), Elems(done))
  {
    LoopStart(d0, order, memcache, dirty);
    assert dirty - Elems(done) == dirty && Elems(done) == {};
  }

  lemma FlushAllSnoc(d0: Disk, order: seq<Key>, memcache: map<Key, seq<byte>>, done: seq<Key>)
    requires done != [] && Elems(done) <= memcache.Keys
    requires Elems(done[..|done| - 1]) <= memcache.Keys
    ensures FlushAll(d0, memcache, done)
         == FlushKey(FlushAll(d0, memcache, done[..|done| - 1]), done[|done| - 1], memcache[done[|done| - 1]])
    ensures OrderAll(d0, order, memcache, done)
         == NextOrder(FlushAll(d0, memcache, done[..|done| - 1]),
                      OrderAll(d0, order, memcache, done[..|done| - 1]), done[|done| - 1])
  {
  }

  lemma MinusStep(dirty: set<Key>, flushed: set<Key>, key: Key)
    ensures dirty - (flushed + {key}) == dirty - flushed - {key}
  {
  }

  /** The step of `FlushAllProgress`: from the invariant after all keys of
      `done` but the last to the invariant after the last. */
  lemma FlushAllStep(d0: Disk, order: seq<Key>, memcache: map<Key, seq<byte>>,
                     dirty: set<Key>, done: seq<Key>)
    requires Representable(d0, memcache, dirty)
    requires Distinct(done) && Elems(done) <= dirty && done != []
    requires Elems(done[..|done| - 1]) <= memcache.Keys
    requires LoopInv(d0, FlushAll(d0, memcache, done[..|done| - 1]),
                     OrderAll(d0, order, memcache, done[..|done| - 1]), memcache, dirty,
                     dirty - Elems(done[..|done| - 1]), Elems(done[..|done| - 1]))
    ensures LoopInv(d0, FlushAll(d0, memcache, done), OrderAll(d0, order, memcache, done),
                    memcache, dirty, dirty - Elems(done), Elems(done))
  {
    var init, key := done[..|done| - 1], done[|done| - 1];
    DoneSplit(done);
    FlushAllSnoc(d0, order, memcache, done);
    MinusStep(dirty, Elems(init), key);
    var d, o := FlushAll(d0, memcache, init), OrderAll(d0, order, memcache, init);
    LoopStep(d0, d, FlushAll(d0, memcache, done), o, OrderAll(d0, order, memcache, done),
             memcache, dirty, dirty - Elems(init), Elems(init), dirty - Elems(done), Elems(done), key);
  }

  /** A whole flush: once every dirty key has been flushed, in any order,
      and the counts rewritten, the store's invariant holds with nothing
      dirty, keys that were not dirty are untouched and no lookup changed. */
  lemma FlushDone(d0: Disk, order: seq<Key>, memcache: map<Key, seq<byte>>,
                  dirty: set<Key>, done: seq<Key>, d: Disk, order': seq<Key>)
    requires StoreInv(d0, order, memcache, dirty) && Representable(d0, memcache, dirty)
    requires Distinct(done) && Elems(done) == dirty
    requires d == WriteCounts(FlushAll(d0, memcache, done))
    requires order' == OrderAll(d0, order, memcache, done)
    ensures StoreInv(d, order', memcache, {})
    ensures d.index.Keys == d0.index.Keys + dirty
    ensures Untouched(d0, d, dirty)
    ensures View(d, memcache) == View(d0, memcache)
    ensures View(d, memcache) == DiskContents(d)
    ensures |d.index| <= |d0.index| + |dirty| && |d.data| <= |d0.data| + |dirty| * MaxBlockSpan
  {
    var dn := FlushAll(d0, memcache, done);
    FlushAllProgress(d0, order, memcache, dirty, done);
    assert |dn.data| <= |d0.data| + |dirty| * MaxBlockSpan;
    LoopEnd(d0, dn, order', memcache, dirty, Elems(done));
    CountsKeep(d0, dn, order', memcache, dirty);
    FlushKeepsView(d0, d, memcache, dirty);
    FlushedView(d, memcache);
  }

  /** The loop starts with nothing flushed. */
  lemma LoopStart(d: Disk, order: seq<Key>, memcache: map<Key, seq<byte>>, dirty: set<Key>)
    requires WellFormed(d, order) && Coherent(d, memcache, dirty)
    ensures LoopInv(d, d, order, memcache, dirty, dirty, {})
  {
  }

  /** One turn of the flush loop: flushing a pending key from `d` gives
      `d'`, the next record order and the loop invariant with that key moved
      to `flushed`. */
  lemma LoopStep(d0: Disk, d: Disk, d': Disk, order: seq<Key>, order': seq<Key>,
                 memcache: map<Key, seq<byte>>, dirty: set<Key>,
                 pending: set<Key>, flushed: set<Key>, pending': set<Key>, flushed': set<Key>, key: Key)
    requires LoopInv(d0, d, order, memcache, dirty, pending, flushed)
    requires Representable(d0, memcache, dirty) && key in pending && key in memcache
    requires d' == FlushKey(d, key, memcache[key]) && order' == NextOrder(d, order, key)
    requires pending' == pending - {key} && flushed' == flushed + {key}
    ensures LoopInv(d0, d', order', memcache, dirty, pending', flushed')
  {
    LoopBudget(d0, d, memcache, dirty, pending, flushed, key);
    FlushKeyPreserves(d, order, key, memcache[key]);
    ProgressStep(d0, d, d', memcache, dirty, pending, flushed, key);
  }

  /** Before each turn there is room for one more entry and one more block. */
  lemma LoopBudget(d0: Disk, d: Disk, memcache: map<Key, seq<byte>>,
                   dirty: set<Key>, pending: set<Key>, flushed: set<Key>, key: Key)
    requires LoopProgress(d0, d, memcache, dirty, pending, flushed)
    requires Representable(d0, memcache, dirty) && key in pending
    ensures key in memcache && |key| < U32Limit && |memcache[key]| < U32Limit
    ensures |d.data| + MaxBlockSpan <= U64Limit && |d.index| + 1 < U32Limit
  {
    GrowthBound(|d.data|, |d0.data|, |flushed|, |dirty|, MaxBlockSpan);
  }

  /** The progress a turn makes once `key` is flushed from `d` to `d'`. */
  lemma ProgressStep(d0: Disk, d: Disk, d': Disk, memcache: map<Key, seq<byte>>,
                     dirty: set<Key>, pending: set<Key>, flushed: set<Key>, key: Key)
    requires LoopProgress(d0, d, memcache, dirty, pending, flushed) && key in pending
    requires key in memcache && Flushed(d, d', key, memcache[key])
    ensures LoopProgress(d0, d', memcache, dirty, pending - {key}, flushed + {key})
  {
    MoveKey(dirty, pending, flushed, key);
    GrowthBound(|d.data|, |d0.data|, |flushed|, |dirty|, MaxBlockSpan);
    FlushedCoherent(d, d', memcache, pending, key);
    FlushedUntouched(d0, d, d', flushed, key, memcache[key]);
    FlushedGrowth(d0, d, d', flushed, key, memcache[key]);
    ProgressIntro(d0, d', memcache, dirty, pending - {key}, flushed + {key});
  }

  /** `LoopProgress`, one conjunct at a time. */
  lemma ProgressIntro(d0: Disk, d: Disk, memcache: map<Key, seq<byte>>,
                      dirty: set<Key>, pending: set<Key>, flushed: set<Key>)
    requires pending <= dirty && flushed == dirty - pending && |flushed| + |pending| == |dirty|
    requires Coherent(d, memcache, pending)
    requires Untouched(d0, d, flushed)
    requires d.index.Keys == d0.index.Keys + flushed
    requires |d.index| <= |d0.index| + |flushed|
    requires |d.data| <= |d0.data| + |flushed| * MaxBlockSpan
    ensures LoopProgress(d0, d, memcache, dirty, pending, flushed)
  {
  }

  /** Moving a pending key to the flushed ones keeps the split of `dirty`. */
  lemma MoveKey(dirty: set<Key>, pending: set<Key>, flushed: set<Key>, key: Key)
    requires pending <= dirty && flushed == dirty - pending && |flushed| + |pending| == |dirty|
    requires key in pending
    ensures pending - {key} <= dirty && flushed + {key} == dirty - (pending - {key})
    ensures |flushed + {key}| == |flushed| + 1 && |pending - {key}| == |pending| - 1
  {
  }

  /** The table and the data file grow by at most one entry and one block. */
  lemma FlushedGrowth(d0: Disk, d: Disk, d': Disk, flushed: set<Key>, key: Key, val: seq<byte>)
    requires Flushed(d, d', key, val) && key !in flushed
    requires d.index.Keys == d0.index.Keys + flushed && |d.index| <= |d0.index| + |flushed|
    requires |d.data| + MaxBlockSpan <= |d0.data| + (|flushed| + 1) * MaxBlockSpan
    ensures d'.index.Keys == d0.index.Keys + (flushed + {key})
    ensures |d'.index| <= |d0.index| + |flushed| + 1
    ensures |d'.data| <= |d0.data| + (|flushed| + 1) * MaxBlockSpan
  {
  }

  /** A flushed key is stored with its cached value; the other keys read as
      before, so the cache stays coherent with one key fewer pending. */
  lemma FlushedCoherent(d: Disk, d': Disk, memcache: map<Key, seq<byte>>, pending: set<Key>, key: Key)
    requires key in memcache && Flushed(d, d', key, memcache[key]) && Coherent(d, memcache, pending)
    ensures Coherent(d', memcache, pending - {key})
  {
  }

  /** Flushing `key` leaves every key other than it untouched. */
  lemma FlushedUntouched(d0: Disk, d: Disk, d': Disk, flushed: set<Key>, key: Key, val: seq<byte>)
    requires Flushed(d, d', key, val) && Untouched(d0, d, flushed)
    ensures Untouched(d0, d', flushed + {key})
  {
  }

  /** The data file stays within its budget of one block per flushed key. */
  lemma GrowthBound(x: nat, base: nat, f: nat, n: nat, m: nat)
    requires x <= base + f * m && f < n
    ensures x + m <= base + n * m
    ensures x + m <= base + (f + 1) * m
  {
    assert (f + 1) * m == f * m + m;
    MulMono(f + 1, n, m);
  }

  /** When nothing is pending every dirty key has been flushed. */
  lemma LoopEnd(d0: Disk, d: Disk, order: seq<Key>, memcache: map<Key, seq<byte>>,
                dirty: set<Key>, flushed: set<Key>)
    requires LoopInv(d0, d, order, memcache, dirty, {}, flushed)
    ensures WellFormed(d, order) && Coherent(d, memcache, {})
    ensures d.index.Keys == d0.index.Keys + dirty && Untouched(d0, d, dirty)
  {
  }

  /** Writing the counts keeps every cached value stored and every untouched
      key untouched. */
  lemma CountsKeep(d0: Disk, d: Disk, order: seq<Key>, memcache: map<Key, seq<byte>>, touched: set<Key>)
    requires WellFormed(d, order) && Coherent(d, memcache, {}) && Untouched(d0, d, touched)
    ensures StoreInv(WriteCounts(d), order, memcache, {})
    ensures Untouched(d0, WriteCounts(d), touched)
    ensures WriteCounts(d).index == d.index
  {
    WriteCountsPreserves(d, order);
  }

  /** Files that hold a well-formed table with current counts make a valid
      store with an empty cache. */
  lemma LoadedInv(d: Disk, order: seq<Key>)
    requires WellFormed(d, order) && CountsCurrent(d)
    ensures StoreInv(d, order, map[], {})
  {
  }

  /** A flush changes no lookup: dirty keys were cached before and are
      stored after, the other keys are untouched. */
  lemma FlushKeepsView(d0: Disk, d: Disk, memcache: map<Key, seq<byte>>, dirty: set<Key>)
    requires Coherent(d0, memcache, dirty) && Coherent(d, memcache, {})
    requires d.index.Keys == d0.index.Keys + dirty && Untouched(d0, d, dirty)
    ensures View(d, memcache) == View(d0, memcache)
  {
    assert View(d, memcache).Keys == View(d0, memcache).Keys;
  }

  /** A store that has just been opened on its own files looks up what the
      files hold. */
  lemma EmptyCacheView(d: Disk)
    ensures View(d, map[]) == DiskContents(d)
  {
  }

  lemma AppendAssoc(c: seq<byte>, a: seq<byte>, b: seq<byte>, v: seq<byte>, p: seq<byte>)
    ensures c + a + b + v + p == c + (a + b + v + p)
  {
  }

  lemma MulMono(a: nat, b: nat, m: nat)
    requires a <= b
    ensures a * m <= b * m
  {
  }

  class BasicStore {
    /** Values put or read since the store was opened. */
    var memcache: map<Key, seq<byte>>
    /** Keys put since the last flush. */
    var dirty: set<Key>
    /** Where each key's block and record are, and its reservation. */
    var index: map<Key, Entry>
    /** The keys in the order of their records in the index file. */
    ghost var order: seq<Key>
    const dataF: ByteFile
    const indexF: ByteFile

    ghost function DiskNow(): Disk
      reads this`index, dataF`content, indexF`content
    {
      Disk(dataF.content, indexF.content, index)
    }

    ghost predicate Valid()
      reads this, dataF`content, indexF`content
    {
      dataF != indexF && StoreInv(DiskNow(), order, memcache, dirty)
    }

    ghost function Contents(): map<Key, seq<byte>>
      reads this`memcache, this`index, dataF`content, indexF`content
    {
      View(DiskNow(), memcache)
    }

    /** The store is valid after the stored value of an uncached key has
        been cached, and every lookup is as before. */
    lemma CachedSettle(d: Disk, o: seq<Key>, mc: map<Key, seq<byte>>, dy: set<Key>, key: Key)
      requires DiskNow() == d && order == o && dirty == dy && dataF != indexF
      requires StoreInv(d, o, mc, dy) && key in d.index && key !in mc
      requires memcache == mc[key := Stored(d, key)]
      ensures Valid() && Contents() == View(d, mc)
    {
      CacheKeeps(d, o, mc, dy, key, memcache);
    }

    /** A store over two files, with empty tables and nothing loaded. */
    constructor Attach(data: seq<byte>, idx: seq<byte>)
      ensures fresh(dataF) && fresh(indexF) && dataF != indexF
      ensures dataF.content == data && indexF.content == idx
      ensures memcache == map[] && dirty == {} && index == map[] && order == []
    {
      memcache := map[];
      dirty := {};
      index := map[];
      order := [];
      dataF := new ByteFile(data);
      indexF := new ByteFile(idx);
    }

    /** `put`: the value is cached and the key marked dirty; no file is
        touched. */
    method Put(key: Key, value: seq<byte>)
      requires Valid()
      modifies this`memcache, this`dirty
      ensures Valid()
      ensures memcache == old(memcache)[key := value] && dirty == old(dirty) + {key}
      ensures Contents() == old(Contents())[key := value]
    {
      ghost var d := DiskNow();
      PutKeeps(d, order, memcache, dirty, key, value);
      dirty := dirty + {key};
      memcache := memcache[key := value];
    }

    /** `get`: the cached value; else `NoKeyError` for a key without an
        entry; else the value read from the key's block, which is then
        cached. */
    method Get(key: Key) returns (r: Result<seq<byte>>)
      requires Valid()
      modifies this`memcache, dataF`cursor
      ensures Valid() && Contents() == old(Contents())
      ensures r == if key in old(Contents()) then Ok(old(Contents())[key]) else Err(NoKeyError)
      ensures memcache == if key in old(memcache) || key !in old(index) then old(memcache)
                          else old(memcache)[key := r.value]
    {
      ghost var d := DiskNow();
      ViewAt(d, memcache, key);
      if key in memcache {
        r := Ok(memcache[key]);
      } else if key !in index {
        r := Err(NoKeyError);
      } else {
        var v := LoadKey(key);
        r := Ok(v);
      }
    }

    /** The branch of `get` for a key that is not cached: its value is read
        from its block and cached. */
    method LoadKey(key: Key) returns (v: seq<byte>)
      requires Valid() && key !in memcache && key in index
      modifies this`memcache, dataF`cursor
      ensures Valid() && Contents() == old(Contents())
      ensures v == old(Contents())[key] && memcache == old(memcache)[key := v]
    {
      ghost var d := DiskNow();
      StoredReads(d, order, key);
      ViewAt(d, memcache, key);
      var r := ReadKeyFromFile(key);
      CacheStored(key, r.value);
      v := r.value;
    }

    /** The last step of `get` for a key read from its block: the value read
        is cached, which changes no lookup. */
    method CacheStored(key: Key, v: seq<byte>)
      requires Valid() && key !in memcache && key in index && v == Stored(DiskNow(), key)
      modifies this`memcache
      ensures Valid() && Contents() == old(Contents())
      ensures memcache == old(memcache)[key := v]
    {
      ghost var d, o, mc, dy := DiskNow(), order, memcache, dirty;
      memcache := memcache[key := v];
      CachedSettle(d, o, mc, dy, key);
    }

    /** `read_key_from_file`: the two lengths from the block header, then
        the value after the reserved field and the key. */
    method ReadKeyFromFile(key: Key) returns (r: Option<seq<byte>>)
      requires key in index
      modifies dataF`cursor
      ensures r == ValueAt(dataF.content, index[key].dataOffset)
    {
      var off := index[key].dataOffset;
      dataF.Seek(off);
      var header := dataF.Read(8);
      if |header| < 8 {
        return None;
      }
      assert header[..4] == dataF.content[off..off + 4];
      assert header[4..] == dataF.content[off + 4..off + 8];
      var keyLen := LeValue(header[..4]);
      var valLen := LeValue(header[4..]);
      dataF.SeekForward(4 + keyLen);
      var bytes := dataF.Read(valLen);
      if |bytes| < valLen {
        return None;
      }
      return Some(bytes);
    }

    /** `write_full_entry`, at the end of the data file: the block of `key`
        with the reservation its entry names. */
    method WriteFullEntry(key: Key, val: seq<byte>)
      requires key in index && dataF.cursor == |dataF.content|
      modifies dataF
      ensures dataF.content == old(dataF.content) + BlockBytes(key, val, index[key].reserved)
      ensures dataF.cursor == |dataF.content|
    {
      var blockSize := index[key].reserved;
      var header := U32(|key|) + U32(|val|) + U32(blockSize);
      ghost var c0 := dataF.content;
      OverwriteAppends(c0, header);
      dataF.Write(header);
      OverwriteAppends(c0 + header, key);
      dataF.Write(key);
      OverwriteAppends(c0 + header + key, val);
      dataF.Write(val);
      if |val| < blockSize {
        OverwriteAppends(c0 + header + key + val, Zeros(blockSize - |val|));
        dataF.Write(Zeros(blockSize - |val|));
      }
      assert dataF.content == c0 + header + key + val + Padding(|val|, blockSize);
      AppendAssoc(c0, header, key, val, Padding(|val|, blockSize));
    }

    /** Three writes back to back are one write of all three. */
    static lemma ThreeWrites(c0: seq<byte>, pos: nat, a: seq<byte>, b: seq<byte>, c: seq<byte>)
      ensures Overwrite(Overwrite(Overwrite(c0, pos, a), pos + |a|, b), pos + |a| + |b|, c)
           == Overwrite(c0, pos, a + b + c)
    {
      OverwriteTwice(c0, pos, a, b);
      assert pos + |a| + |b| == pos + |a + b|;
      OverwriteTwice(c0, pos, a + b, c);
    }

    /** A record is its key length, its key, then the rest of its fields. */
    static lemma RecordParts(key: Key, e: Entry, len: seq<byte>, tail: seq<byte>)
      requires len == U32(|key|) && tail == U64(e.dataOffset) + U32(e.reserved)
      ensures len + key + tail == RecordBytes(key, e)
    {
    }

    /** `write_entry_index`: the record of `key` at the index file's cursor. */
    method WriteEntryIndex(key: Key)
      requires key in index
      modifies indexF
      ensures indexF.content == Overwrite(old(indexF.content), old(indexF.cursor), RecordBytes(key, index[key]))
      ensures indexF.cursor == old(indexF.cursor) + 16 + |key|
    {
      var e := index[key];
      var pos := indexF.cursor;
      ghost var c0 := indexF.content;
      var len := U32(|key|);
      var tail := U64(e.dataOffset) + U32(e.reserved);
      assert |len| == 4 && |tail| == 12;
      indexF.Write(len);
      indexF.Write(key);
      assert indexF.cursor == pos + |len| + |key|;
      indexF.Write(tail);
      assert indexF.content == Overwrite(c0, pos, RecordBytes(key, e)) by {
        ThreeWrites(c0, pos, len, key, tail);
        RecordParts(key, e, len, tail);
      }
    }

    /** The in-place write of `flush_existing_entry`: the value length, then
        the value after the key. */
    method JustWrite(off: nat, key: Key, val: seq<byte>)
      modifies dataF
      ensures dataF.content == UpdateInPlace(old(dataF.content), off, key, val)
    {
      dataF.Seek(off + 4);
      dataF.Write(U32(|val|));
      dataF.SeekForward(|key| + 4);
      dataF.Write(val);
    }

    /** `flush_existing_entry`: a value of at most the minimum block size, or
        one within the reservation, is written in place; a longer one gets a
        new block at the end of the data file and its record is rewritten. */
    method FlushExistingEntry(key: Key)
      requires key in index && key in memcache && dataF != indexF
      modifies this`index, dataF, indexF
      ensures DiskNow() == FlushExisting(old(DiskNow()), key, memcache[key])
    {
      var val := memcache[key];
      var e := index[key];
      if |val| <= MinBlockSize {
        JustWrite(e.dataOffset, key, val);
      } else {
        if |val| <= e.reserved {
          JustWrite(e.dataOffset, key, val);
        } else {
          dataF.Seek(e.dataOffset);
          dataF.Write(Zeros(8));
          dataF.SeekEnd();
          var pos := dataF.Tell();
          index := index[key := Entry(pos, e.indexOffset, |val|)];
          WriteFullEntry(key, val);
          indexF.Seek(e.indexOffset);
          WriteEntryIndex(key);
        }
      }
    }

    /** `flush_add_entry`: the block is appended to the data file and the
        record to the index file, reserving at least the minimum block. */
    method FlushAddEntry(key: Key)
      requires key !in index && key in memcache && dataF != indexF
      modifies this`index, dataF, indexF
      ensures DiskNow() == AddEntry(old(DiskNow()), key, memcache[key])
    {
      var val := memcache[key];
      dataF.SeekEnd();
      indexF.SeekEnd();
      var dataPos := dataF.Tell();
      var indexPos := indexF.Tell();
      index := index[key := Entry(dataPos, indexPos, Max(|val|, MinBlockSize))];
      WriteFullEntry(key, val);
      OverwriteAppends(indexF.content, RecordBytes(key, index[key]));
      WriteEntryIndex(key);
    }

    /** `flush`: `flush_dirty`. What a lookup gives does not change, and
        afterwards the files alone give it. */
    method Flush()
      requires Valid() && Representable(DiskNow(), memcache, dirty)
      modifies this`index, this`dirty, this`order, dataF, indexF
      ensures Valid() && dirty == {} && memcache == old(memcache)
      ensures index.Keys == old(index.Keys) + old(dirty)
      ensures Untouched(old(DiskNow()), DiskNow(), old(dirty))
      ensures dataF.content[..4] == U32(|index|) && indexF.content[..4] == U32(|index|)
      ensures Contents() == old(Contents())
      ensures Contents() == DiskContents(DiskNow())
      ensures |index| <= old(|index|) + |old(dirty)|
      ensures |dataF.content| <= old(|dataF.content|) + |old(dirty)| * MaxBlockSpan
    {
      ghost var d0, o0, dy := DiskNow(), order, dirty;
      ghost var done := FlushDirty();
      FlushDone(d0, o0, memcache, dy, done, DiskNow(), order);
    }

    /** `flush_dirty`: each dirty key is flushed once, in an order the model
        leaves open (`done` is that order); then the dirty set is cleared and
        both counts are rewritten. */
    method FlushDirty() returns (ghost done: seq<Key>)
      requires dataF != indexF && dirty <= memcache.Keys
      modifies this`index, this`dirty, this`order, dataF, indexF
      ensures Distinct(done) && Elems(done) == old(dirty) && dirty == {}
      ensures DiskNow() == WriteCounts(FlushAll(old(DiskNow()), memcache, done))
      ensures order == OrderAll(old(DiskNow()), old(order), memcache, done)
    {
      var pending := dirty;
      done := [];
      ghost var d0, o0 := DiskNow(), order;
      while pending != {}
        modifies this`index, this`order, dataF, indexF
        invariant pending !! Elems(done) && pending + Elems(done) == dirty
        invariant Distinct(done)
        invariant DiskNow() == FlushAll(d0, memcache, done)
        invariant order == OrderAll(d0, o0, memcache, done)
        decreases pending
      {
        var key :| key in pending;
        ghost var before := DiskNow();
        FlushEntry(key);
        order := NextOrder(before, order, key);
        ElemsSnoc(done, key);
        done := done + [key];
        pending := pending - {key};
      }
      ghost var d, o := DiskNow(), order;
      assert Elems(done) == old(dirty);
      dirty := {};
      WriteCountFields();
      assert DiskNow() == WriteCounts(d) && order == o;
    }

    /** The end of `flush_dirty`: the number of entries over the count at
        the head of the index file, then of the data file. */
    method WriteCountFields()
      requires dataF != indexF
      modifies dataF, indexF
      ensures DiskNow() == WriteCounts(old(DiskNow()))
    {
      indexF.Seek(0);
      indexF.Write(U32(|index|));
      dataF.Seek(0);
      dataF.Write(U32(|index|));
    }

    /** One key of `flush_dirty`: a key without an entry is added, one with
        an entry is updated. */
    method FlushEntry(key: Key)
      requires key in memcache && dataF != indexF
      modifies this`index, dataF, indexF
      ensures DiskNow() == FlushKey(old(DiskNow()), key, memcache[key])
    {
      if key in index {
        FlushExistingEntry(key);
      } else {
        FlushAddEntry(key);
      }
    }

    /** `close`: a flush; releasing the two file handles is not modelled. */
    method Close()
      requires Valid() && Representable(DiskNow(), memcache, dirty)
      modifies this`index, this`dirty, this`order, dataF, indexF
      ensures Valid() && dirty == {} && memcache == old(memcache)
      ensures Contents() == old(Contents()) && Contents() == DiskContents(DiskNow())
      ensures index.Keys == old(index.Keys) + old(dirty) && |index| <= old(|index|) + |old(dirty)|
      ensures Untouched(old(DiskNow()), DiskNow(), old(dirty))
      ensures dataF.content[..4] == U32(|index|) && indexF.content[..4] == U32(|index|)
      ensures |dataF.content| <= old(|dataF.content|) + |old(dirty)| * MaxBlockSpan
    {
      Flush();
    }

    /** `load_all_indices`: the count, then that many records, each entered
        in the table under its key with the offset it was read at. `false`
        when the file ends before the records do. */
    method LoadAllIndices() returns (ok: bool)
      modifies this`index, this`order, indexF`cursor
      ensures ok <==> ParseIndexFile(indexF.content).Some?
      ensures ok ==> Parsed(order, index) == ParseIndexFile(indexF.content).value
    {
      ghost var c := indexF.content;
      index := map[];
      order := [];
      indexF.Seek(0);
      var countBytes := indexF.Read(4);
      if |countBytes| < 4 {
        return false;
      }
      var n := LeValue(countBytes);
      var i := 0;
      while i < n
        invariant i <= n && indexF.content == c
        invariant ParseIndexFile(c) == ParseRecords(c, indexF.cursor, n - i, Parsed(order, index))
      {
        var at := indexF.Tell();
        ghost var acc := Parsed(order, index);
        var rec := ReadRecord();
        if rec.None? {
          return false;
        }
        index := index[rec.value.key := Entry(rec.value.dataOffset, at, rec.value.reserved)];
        order := order + [rec.value.key];
        ParseStep(c, at, n - i, acc, rec.value, indexF.cursor, Parsed(order, index));
        i := i + 1;
      }
      ok := true;
    }

    /** One turn of the loop of `load_all_indices`: the key length, the key,
        then the block offset and the reservation. */
    method ReadRecord() returns (rec: Option<RawRecord>)
      modifies indexF`cursor
      ensures rec == ParseRecord(indexF.content, old(indexF.cursor))
      ensures rec.Some? ==> indexF.cursor == old(indexF.cursor) + 16 + |rec.value.key|
    {
      ghost var c := indexF.content;
      var at := indexF.Tell();
      var lenBytes := indexF.Read(4);
      if |lenBytes| < 4 {
        return None;
      }
      var keyLen := LeValue(lenBytes);
      var key := indexF.Read(keyLen);
      if |key| < keyLen {
        return None;
      }
      var tail := indexF.Read(12);
      if |tail| < 12 {
        return None;
      }
      assert tail[..8] == c[at + 4 + keyLen..at + 12 + keyLen];
      assert tail[8..] == c[at + 12 + keyLen..at + 16 + keyLen];
      return Some(RawRecord(key, LeValue(tail[..8]), LeValue(tail[8..])));
    }
  }

  /** Opening a store, as the constructor does: when either file is missing
      both are created holding only a zero count and nothing is loaded;
      otherwise the index file is loaded, which fails when it is truncated. */
  method Open(data: Option<seq<byte>>, idx: Option<seq<byte>>) returns (r: Option<BasicStore>)
    ensures data.None? || idx.None? ==>
      r.Some? && fresh(r.value) && fresh(r.value.dataF) && fresh(r.value.indexF) && r.value.Valid() &&
      r.value.DiskNow() == FreshDisk() && r.value.memcache == map[] && r.value.dirty == {} &&
      r.value.Contents() == map[]
    ensures data.Some? && idx.Some? ==> (r.Some? <==> ParseIndexFile(idx.value).Some?)
    ensures data.Some? && idx.Some? && r.Some? ==>
      fresh(r.value) && fresh(r.value.dataF) && fresh(r.value.indexF) && r.value.dataF != r.value.indexF &&
      r.value.dataF.content == data.value && r.value.indexF.content == idx.value &&
      Parsed(r.value.order, r.value.index) == ParseIndexFile(idx.value).value &&
      r.value.memcache == map[] && r.value.dirty == {}
  {
    if data.None? || idx.None? {
      var s := new BasicStore.Attach(U32(0), U32(0));
      FreshDiskWellFormed();
      LoadedInv(FreshDisk(), []);
      EmptyCacheView(FreshDisk());
      assert s.DiskNow() == FreshDisk();
      return Some(s);
    }
    var s := new BasicStore.Attach(data.value, idx.value);
    var ok := s.LoadAllIndices();
    if !ok {
      return None;
    }
    return Some(s);
  }

  /** Closing a store and opening its files again gives a store with the
      same table that looks up every key as before. */
  method Reopen(s: BasicStore) returns (t: BasicStore)
    requires s.Valid() && s.dirty == {}
    ensures fresh(t) && fresh(t.dataF) && fresh(t.indexF)
    ensures t.Valid() && t.index == s.index && t.Contents() == s.Contents()
    ensures t.dataF.content == s.dataF.content && t.dirty == {}
  {
    ghost var d := s.DiskNow();
    ReopenFacts(d, s.order, s.memcache);
    var r := Open(Some(s.dataF.content), Some(s.indexF.content));
    t := r.value;
    assert t.DiskNow() == d;
  }

  /** The files of a store with nothing dirty scan back to its table, and
      make a valid store with an empty cache that looks up the same values. */
  lemma ReopenFacts(d: Disk, order: seq<Key>, memcache: map<Key, seq<byte>>)
    requires StoreInv(d, order, memcache, {})
    ensures ParseIndexFile(d.idx) == Some(Parsed(order, d.index))
    ensures StoreInv(d, order, map[], {})
    ensures View(d, map[]) == View(d, memcache)
  {
    ReopenRebuildsIndex(d, order);
    FlushedView(d, memcache);
    EmptyCacheView(d);
  }
}
