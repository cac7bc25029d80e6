/**
 kvstore_cache.c, kvstore_nv_psa_its.c and kvstore.c: the cache in RAM, whose entries keep
 short values in place of the pointer and long ones in heap blocks, the records in trusted
 storage behind it, and the typed interface on top.
 */
module KvStore {
  import opened Bytes
  import opened KvSpec
  import opened KvRecord

  const POINTER_SIZE: nat := 4

  /** The union of a cache entry: a heap pointer, or the octets that lie in its place. */
  datatype Union = Raw(bytes: seq<byte>) | Ptr(addr: nat)

  datatype Entry = Entry(type_: ValueType, length: nat, data: Union, pending: bool)

  const ZERO: Entry := Entry(TNone, 0, Raw([0, 0, 0, 0]), false)

  type Heap = map<nat, seq<byte>>

  /** A row of kvStoreDefaults: a scalar in `word`, or `target` behind the pointer in `word`. */
  datatype Default = Default(type_: ValueType, length: nat, word: seq<byte>, target: seq<byte>)

  predicate IsScalar(t: ValueType) {
    t == TBase || t == TUBase || t == TInt32 || t == TUInt32
  }

  predicate DefaultOk(d: Default) {
    && d.type_ != TNone && |d.word| == POINTER_SIZE && d.length < SIZE_LIMIT
    && d.length == if IsScalar(d.type_) then POINTER_SIZE else |d.target|
  }

  // ---------------------------------------------------------------- the cache's representation

  predicate OnHeap(e: Entry) {
    e.length > POINTER_SIZE
  }

  /** Long values own a live block that is big enough; short ones lie in the entry. */
  predicate EntryOk(e: Entry, heap: Heap) {
    if OnHeap(e) then e.data.Ptr? && e.data.addr in heap && e.length <= |heap[e.data.addr]|
    else e.data.Raw? && |e.data.bytes| == POINTER_SIZE
  }

  /** No two entries share a block. */
  predicate Unshared(cache: seq<Entry>) {
    forall i, j | 0 <= i < j < |cache| && OnHeap(cache[i]) && OnHeap(cache[j]) :: cache[i].data != cache[j].data
  }

  predicate RepOk(cache: seq<Entry>, heap: Heap) {
    (forall i | 0 <= i < |cache| :: EntryOk(cache[i], heap)) && Unshared(cache)
  }

  /** The representation in the middle of a write: entry k may be short and still hold a pointer. */
  predicate RepBut(cache: seq<Entry>, heap: Heap, k: Key) {
    && k < |cache| && Unshared(cache)
    && (forall i | 0 <= i < |cache| && (i != k || OnHeap(cache[i]) || cache[i].data.Raw?) :: EntryOk(cache[i], heap))
  }

  /** Every other entry is as it was, and so is the block it owns. */
  predicate OthersKept(c0: seq<Entry>, h0: Heap, c1: seq<Entry>, h1: Heap, k: Key) {
    && |c0| == |c1|
    && forall i | 0 <= i < |c0| && i != k ::
         c1[i] == c0[i] && (OnHeap(c0[i]) && c0[i].data.Ptr? && c0[i].data.addr in h0 ==>
           c0[i].data.addr in h1 && h1[c0[i].data.addr] == h0[c0[i].data.addr])
  }

  function DataOf(e: Entry, heap: Heap): (d: seq<byte>)
    requires EntryOk(e, heap)
    ensures |d| == e.length
  {
    if OnHeap(e) then heap[e.data.addr][..e.length] else e.data.bytes[..e.length]
  }

  lemma SomeAddressFree(used: set<nat>) returns (a: nat)
    ensures a != 0 && a !in used
  {
    a := 1;
    var left := used;
    while a in used
      invariant a >= 1 && left <= used && forall x | x in used && x >= a :: x in left
      decreases left
    {
      left := left - {a};
      a := a + 1;
    }
  }

  // ---------------------------------------------------------------- the store's two maps

  /** What the cache holds, as a map. */
  function VolOf(cache: seq<Entry>, heap: Heap): map<Key, Value>
    requires RepOk(cache, heap)
  {
    map k: nat | k < |cache| && cache[k].type_ != TNone :: Value(cache[k].type_, DataOf(cache[k], heap))
  }

  /** Trusted storage holds a whole record, or nothing, for each of the n keys. */
  predicate ItsOk(its: map<nat, seq<byte>>, n: nat) {
    forall k: nat | k < n && KeyToUid(k) in its ::
      var v := ParseRecord(its[KeyToUid(k)]); v.Some? && Storable(v.value)
  }

  /** What trusted storage holds, as a map. */
  function DurOf(its: map<nat, seq<byte>>, n: nat): map<Key, Value>
    requires ItsOk(its, n)
  {
    map k: nat | k < n && KeyToUid(k) in its :: ParseRecord(its[KeyToUid(k)]).value
  }

  predicate SameAt(a: map<Key, Value>, b: map<Key, Value>, k: Key) {
    (k in a <==> k in b) && (k in a ==> a[k] == b[k])
  }

  /** An entry is empty exactly when it has no type, and an empty one has nothing to write. */
  predicate Shaped(e: Entry) {
    && (e.type_ == TNone <==> e.length == 0) && e.length < SIZE_LIMIT
    && (e.type_ == TNone ==> !e.pending)
  }

  /** With no change pending, cache and storage agree. */
  predicate Coherent(cache: seq<Entry>, heap: Heap, its: map<nat, seq<byte>>)
    requires RepOk(cache, heap) && ItsOk(its, |cache|)
  {
    forall k: nat | k < |cache| && !cache[k].pending :: SameAt(VolOf(cache, heap), DurOf(its, |cache|), k)
  }

  lemma OthersKeptTwice(c0: seq<Entry>, h0: Heap, c1: seq<Entry>, h1: Heap, c2: seq<Entry>, h2: Heap, k: Key)
    requires OthersKept(c0, h0, c1, h1, k) && OthersKept(c1, h1, c2, h2, k)
    ensures OthersKept(c0, h0, c2, h2, k)
  {
  }

  lemma OthersSame(c0: seq<Entry>, h0: Heap, c1: seq<Entry>, h1: Heap, k: Key)
    requires OthersKept(c0, h0, c1, h1, k)
    ensures |c1| == |c0| && forall i: Key | i < |c0| && i != k :: c1[i] == c0[i]
  {
  }

  lemma VolAt(cache: seq<Entry>, heap: Heap, i: Key)
    requires RepOk(cache, heap)
    ensures i in VolOf(cache, heap) <==> i < |cache| && cache[i].type_ != TNone
    ensures i in VolOf(cache, heap) ==>
            EntryOk(cache[i], heap) && VolOf(cache, heap)[i] == Value(cache[i].type_, DataOf(cache[i], heap))
  {
  }

  /** A write that leaves the other entries alone changes one key of the map. */
  lemma WriteEffect(c0: seq<Entry>, h0: Heap, c1: seq<Entry>, h1: Heap, k: Key, v: Value)
    requires RepOk(c0, h0) && RepOk(c1, h1) && OthersKept(c0, h0, c1, h1, k) && k < |c0| && Storable(v)
    requires EntryOk(c1[k], h1) && c1[k].type_ == v.type_ && DataOf(c1[k], h1) == v.bytes
    ensures VolOf(c1, h1) == VolOf(c0, h0)[k := v]
  {
  }

  /** And it keeps cache and storage coherent, if the change is marked or there was none. */
  lemma WriteCoherent(c0: seq<Entry>, h0: Heap, c1: seq<Entry>, h1: Heap, its: map<nat, seq<byte>>, k: Key, v: Value)
    requires RepOk(c0, h0) && RepOk(c1, h1) && OthersKept(c0, h0, c1, h1, k) && k < |c0| == |c1|
    requires VolOf(c1, h1) == VolOf(c0, h0)[k := v] && ItsOk(its, |c0|) && Coherent(c0, h0, its)
    requires c1[k].pending || (!c0[k].pending && k in VolOf(c0, h0) && VolOf(c0, h0)[k] == v)
    ensures Coherent(c1, h1, its)
  {
  }

  /** Storing a record changes what one key durably holds, and nothing else. */
  lemma DurSet(its: map<nat, seq<byte>>, n: nat, k: Key, v: Value)
    requires ItsOk(its, n) && k < n && Storable(v)
    ensures var its' := its[KeyToUid(k) := Record(v)];
            ItsOk(its', n) && DurOf(its', n) == DurOf(its, n)[k := v]
  {
    hide Record, ParseRecord;
    RecordRoundTrip(v, Record(v));
    var its' := its[KeyToUid(k) := Record(v)];
    forall j: nat | j < n && KeyToUid(j) in its'
      ensures ParseRecord(its'[KeyToUid(j)]) == if j == k then Some(v) else ParseRecord(its[KeyToUid(j)])
    {
    }
  }

  lemma DurAt(its: map<nat, seq<byte>>, n: nat, k: Key)
    requires ItsOk(its, n)
    ensures k in DurOf(its, n) <==> k < n && KeyToUid(k) in its
    ensures k in DurOf(its, n) ==> Storable(DurOf(its, n)[k])
  {
  }

  /** Where and how a value lies in trusted storage: as its record, under the key's number above 0x1234. */
  lemma StoredAs(its: map<nat, seq<byte>>, n: nat, k: Key)
    requires ItsOk(its, n)
    ensures k in DurOf(its, n) <==> k < n && 0x1234 + k in its
    ensures k in DurOf(its, n) ==>
            |DurOf(its, n)[k].bytes| < SIZE_LIMIT && its[0x1234 + k] == Record(DurOf(its, n)[k])
  {
    if k in DurOf(its, n) {
      assert ItsOk(its, n) && KeyToUid(k) == 0x1234 + k;
      RecordRoundTrip(DurOf(its, n)[k], its[KeyToUid(k)]);
    }
  }

  /** A stored record's header is told from its first octets, and the value follows. */
  lemma RecordParts(its: map<nat, seq<byte>>, n: nat, k: Key)
    requires ItsOk(its, n) && k in DurOf(its, n)
    ensures KeyToUid(k) in its
    ensures var v, record := DurOf(its, n)[k], its[KeyToUid(k)];
            && |record| == HEADER_SIZE + |v.bytes| && record[HEADER_SIZE..] == v.bytes
            && HeaderLength(record[..HEADER_SIZE]) == |v.bytes| && HeaderType(record[..HEADER_SIZE]) == Some(v.type_)
  {
    var record := its[KeyToUid(k)];
    var header := record[..HEADER_SIZE];
    assert header[..4] == record[..4] && header[4..8] == record[4..8];
  }

  /** How far a commit has come: pending keys below i are stored unless their write failed. */
  ghost predicate Progress(m: Maps, dur: map<Key, Value>, pending: set<Key>, faults: set<Key>, i: nat) {
    && (forall k: Key | k in pending && k !in faults && k < i :: SameAt(dur, m.vol, k))
    && (forall k: Key | !(k in pending && k !in faults && k < i) :: SameAt(dur, m.dur, k))
  }

  lemma ProgressStep(m: Maps, dur: map<Key, Value>, pending: set<Key>, faults: set<Key>, i: nat)
    requires Progress(m, dur, pending, faults, i) && pending <= m.vol.Keys
    ensures if i in pending && i !in faults then Progress(m, dur[i := m.vol[i]], pending, faults, i + 1)
            else Progress(m, dur, pending, faults, i + 1)
  {
  }

  /** Writing the pending entries alone commits everything: the others are stored already. */
  lemma CommitEffect(m: Maps, dur: map<Key, Value>, pending: set<Key>, faults: set<Key>, n: nat)
    requires pending <= m.vol.Keys && forall k: Key | k !in pending :: SameAt(m.vol, m.dur, k)
    requires Progress(m, dur, pending, faults, n) && forall k | k in pending :: k < n
    ensures dur == Committed(m, faults)
    ensures (forall k | k in pending :: k !in faults) ==> dur == m.vol
  {
    forall k: Key
      ensures SameAt(dur, Committed(m, faults), k)
      ensures k !in pending || k !in faults ==> SameAt(dur, m.vol, k)
    {
      assert SameAt(dur, if k in pending && k !in faults then m.vol else m.dur, k);
    }
    SameMaps(dur, Committed(m, faults));
    if forall k | k in pending :: k !in faults { SameMaps(dur, m.vol); }
  }

  lemma NoProgress(m: Maps, pending: set<Key>, faults: set<Key>)
    ensures Progress(m, m.dur, pending, faults, 0)
  {
  }

  /** A commit keeps coherence: what was not pending is stored as it was. */
  lemma CommitCoherent(cache: seq<Entry>, heap: Heap, its: map<nat, seq<byte>>, m: Maps, pending: set<Key>, faults: set<Key>)
    requires RepOk(cache, heap) && ItsOk(its, |cache|) && VolOf(cache, heap) == m.vol
    requires Progress(m, DurOf(its, |cache|), pending, faults, |cache|)
    requires pending == set k: Key | k < |cache| && cache[k].pending
    requires forall k: Key | k !in pending :: SameAt(m.vol, m.dur, k)
    ensures Coherent(cache, heap, its)
  {
    hide RepOk, ItsOk, DurOf, VolOf;
    forall k: nat | k < |cache| && !cache[k].pending
      ensures SameAt(VolOf(cache, heap), DurOf(its, |cache|), k)
    {
      assert k !in pending;
    }
  }

  lemma SameMaps(a: map<Key, Value>, b: map<Key, Value>)
    requires forall k: Key :: SameAt(a, b, k)
    ensures a == b
  {
    assert forall k: Key :: (k in a <==> k in b) && (k in a ==> a[k] == b[k]) by {
      forall k: Key ensures (k in a <==> k in b) && (k in a ==> a[k] == b[k]) { assert SameAt(a, b, k); }
    }
  }

  lemma EmptyIsRepBut(cache: seq<Entry>, heap: Heap, k: Key)
    requires RepOk(cache, heap) && k < |cache|
    ensures RepBut(cache, heap, k)
  {
  }

  lemma Retyped(c0: seq<Entry>, h0: Heap, c1: seq<Entry>, h1: Heap, k: Key, t: ValueType)
    requires RepBut(c1, h1, k) && OthersKept(c0, h0, c1, h1, k)
    ensures var c2 := c1[k := c1[k].(type_ := t)]; RepBut(c2, h1, k) && OthersKept(c0, h0, c2, h1, k)
  {
  }

  // ---------------------------------------------------------------- what getters give back

  function Min(a: nat, b: nat): nat {
    if a < b then a else b
  }

  /** What a read puts in the caller's buffer, and the length it reports. */
  datatype Reading = Reading(length: nat, copied: seq<byte>)

  /** The octets the default row yields: up to a pointer's size they are taken from the union itself. */
  function DefaultRead(d: Default, n: nat): seq<byte>
    requires DefaultOk(d) && n <= d.length
  {
    if n > POINTER_SIZE then d.target[..n] else d.word[..n]
  }

  function Read(vol: map<Key, Value>, d: Default, k: Key, bufSize: nat): (r: Reading)
    requires DefaultOk(d)
    ensures |r.copied| == Min(bufSize, r.length)
  {
    if k in vol then Reading(|vol[k].bytes|, vol[k].bytes[..Min(bufSize, |vol[k].bytes|)])
    else Reading(d.length, DefaultRead(d, Min(bufSize, d.length)))
  }

  /** A C string in memory, up to its NUL. */
  function CString(b: seq<byte>): seq<byte> {
    if b == [] || b[0] == 0 then [] else [b[0]] + CString(b[1..])
  }

  function Signed(n: nat): int {
    if n < 0x8000_0000 then n else n - 0x1_0000_0000
  }

  function Unsigned(i: int): (n: nat)
    requires -0x8000_0000 <= i < 0x8000_0000
    ensures n < 0x1_0000_0000
  {
    if i >= 0 then i else i + 0x1_0000_0000
  }

  class Store {
    const defaults: seq<Default>
    var cache: seq<Entry>
    var heap: Heap
    var its: map<nat, seq<byte>>

    // -------------------------------------------------------------- heap and union

    /** pvPortMalloc, which is taken to succeed: any address not in use; callers know no contents. */
    method Malloc(n: nat) returns (a: nat)
      modifies this`heap
      ensures a != 0 && a !in old(heap) && heap.Keys == old(heap).Keys + {a} && |heap[a]| == n
      ensures forall x | x in old(heap) :: heap[x] == old(heap)[x]
    {
      ghost var w := SomeAddressFree(heap.Keys);
      assert w != 0 && w !in heap;
      a :| a != 0 && a !in heap;
      heap := heap[a := seq(n, _ => 0)];
    }

    /** vPortFree: only a live block can be freed, so never one twice. */
    method Free(a: nat)
      requires a in heap
      modifies this`heap
      ensures heap == old(heap) - {a}
    {
      heap := heap - {a};
    }
  
    /** vAllocateDataBuffer. */
    method AllocateDataBuffer(k: Key, n: nat)
      requires RepBut(cache, heap, k)
      modifies this`cache, this`heap
      ensures RepBut(cache, heap, k) && OthersKept(old(cache), old(heap), cache, heap, k)
      ensures cache[k].length == n && cache[k].type_ == old(cache[k].type_) && cache[k].pending == old(cache[k].pending)
      ensures if n > POINTER_SIZE
              then cache[k].data.Ptr? && var a := cache[k].data.addr;
                   a !in old(heap) && heap.Keys == old(heap).Keys + {a} && |heap[a]| == n
              else cache[k].data == Raw([0, 0, 0, 0]) && heap == old(heap)
    {
      if n > POINTER_SIZE {
        var a := Malloc(n);
        cache := cache[k := cache[k].(data := Ptr(a), length := n)];
      } else {
        cache := cache[k := cache[k].(data := Raw([0, 0, 0, 0]), length := n)];
      }
    }

    /** vClearDataBuffer. */
    method ClearDataBuffer(k: Key)
      requires RepBut(cache, heap, k)
      modifies this`cache, this`heap
      ensures RepBut(cache, heap, k) && OthersKept(old(cache), old(heap), cache, heap, k)
      ensures cache[k].length == 0 && cache[k].type_ == old(cache[k].type_) && cache[k].pending == old(cache[k].pending)
      ensures cache[k].data == Raw([0, 0, 0, 0])
      ensures heap == if old(OnHeap(cache[k])) then old(heap) - {old(cache[k].data.addr)} else old(heap)
    {
      if cache[k].length > POINTER_SIZE {
        Free(cache[k].data.addr);
      }
      cache := cache[k := cache[k].(data := Raw([0, 0, 0, 0]), length := 0)];
    }

    /** vReallocDataBuffer: a value that is not longer than the last reuses what is there. */
    method ReallocDataBuffer(k: Key, n: nat)
      requires RepBut(cache, heap, k)
      modifies this`cache, this`heap
      ensures RepBut(cache, heap, k) && OthersKept(old(cache), old(heap), cache, heap, k)
      ensures cache[k].length == n && cache[k].type_ == old(cache[k].type_) && cache[k].pending == old(cache[k].pending)
      ensures n <= old(cache[k].length) ==> cache[k].data == old(cache[k].data) && heap == old(heap)
      ensures n > old(cache[k].length) && old(OnHeap(cache[k])) ==>
              cache[k].data.Ptr? && heap.Keys == old(heap).Keys - {old(cache[k].data.addr)} + {cache[k].data.addr}
    {
      if n > cache[k].length {
        ClearDataBuffer(k);
        AllocateDataBuffer(k, n);
      } else {
        cache := cache[k := cache[k].(length := n)];
      }
    }

    /** memcpy to pvGetDataWritePtr: into the block, or over the union's first octets. */
    method WriteData(k: Key, v: seq<byte>)
      requires RepBut(cache, heap, k) && cache[k].length == |v|
      modifies this`cache, this`heap
      ensures RepOk(cache, heap) && OthersKept(old(cache), old(heap), cache, heap, k)
      ensures cache[k].type_ == old(cache[k].type_) && cache[k].pending == old(cache[k].pending)
      ensures DataOf(cache[k], heap) == v
    {
      var e := cache[k];
      if e.length > POINTER_SIZE {
        var a := e.data.addr;
        heap := heap[a := v + heap[a][|v|..]];
      } else {
        var word := match e.data case Raw(b) => b case Ptr(a) => Le32(a % SIZE_LIMIT);
        cache := cache[k := e.(data := Raw(v + word[|v|..]))];
      }
    }
  
    // -------------------------------------------------------------- the store's invariant

    ghost predicate Valid()
      reads this
    {
      && |cache| == |defaults| && (forall k | 0 <= k < |defaults| :: DefaultOk(defaults[k]))
      && RepOk(cache, heap) && (forall k | 0 <= k < |cache| :: Shaped(cache[k]))
      && ItsOk(its, |cache|) && Coherent(cache, heap, its)
    }

    ghost function Abs(): Maps
      reads this
      requires Valid()
    {
      Maps(VolOf(cache, heap), DurOf(its, |cache|))
    }

    // -------------------------------------------------------------- the cache

    /** The first half of xprvWriteCacheEntry: make room, and find out whether anything changes. */
    method PrepareEntry(k: Key, t: ValueType, v: seq<byte>)
      requires RepOk(cache, heap) && k < |cache| && Storable(Value(t, v))
      modifies this`cache, this`heap
      ensures RepBut(cache, heap, k) && OthersKept(old(cache), old(heap), cache, heap, k)
      ensures cache[k].length == |v| && cache[k].type_ == t
      ensures var same := old(cache[k].type_ == t && DataOf(cache[k], heap) == v);
              && (cache[k].pending <==> old(cache[k].pending) || !same)
              && (same ==> cache == old(cache) && heap == old(heap))
    {
      var e := cache[k];
      if e.type_ == TNone {
        AllocateDataBuffer(k, |v|);
        cache := cache[k := cache[k].(type_ := t, pending := true)];
      } else if e.length != |v| {
        ReallocDataBuffer(k, |v|);
        cache := cache[k := cache[k].(type_ := t, pending := true)];
      } else if e.type_ != t {
        cache := cache[k := e.(type_ := t, pending := true)];
      } else if DataOf(e, heap) != v {
        cache := cache[k := e.(pending := true)];
      }
    }

    /** xprvWriteCacheEntry: after it, the key reads as the given value, and only that key has changed. */
    method WriteCacheEntry(k: Key, t: ValueType, v: seq<byte>)
      requires Valid() && k < |cache| && Storable(Value(t, v))
      modifies this`cache, this`heap
      ensures Valid() && Abs() == Do(old(Abs()), Set(k, Value(t, v)))
      ensures cache[k].pending <==> old(cache[k].pending || cache[k].type_ != t || DataOf(cache[k], heap) != v)
    {
      hide RepBut, OthersKept, Coherent, VolOf, DurOf, ItsOk;
      ghost var c0, h0 := cache, heap;
      PrepareEntry(k, t, v);
      ghost var c1, h1 := cache, heap;
      if cache[k].pending {
        WriteData(k, v);
      }
      assert OthersKept(c0, h0, cache, heap, k) by {
        if c1[k].pending { OthersKeptTwice(c0, h0, c1, h1, cache, heap, k); }
      }
      OthersSame(c0, h0, cache, heap, k);
      assert EntryOk(cache[k], heap);
      VolAt(c0, h0, k);
      WriteEffect(c0, h0, cache, heap, k, Value(t, v));
      WriteCoherent(c0, h0, cache, heap, its, k, Value(t, v));
    }
  
    // -------------------------------------------------------------- trusted storage

    /** psa_its_get: the part of the record that lies in the range asked for. */
    method ItsGet(uid: nat, offset: nat, size: nat) returns (found: bool, data: seq<byte>)
      ensures found <==> uid in its && offset <= |its[uid]|
      ensures data == if !found then []
                      else if offset + size <= |its[uid]| then its[uid][offset..offset + size] else its[uid][offset..]
    {
      found := uid in its && offset <= |its[uid]|;
      data := [];
      if found {
        data := if offset + size <= |its[uid]| then its[uid][offset..offset + size] else its[uid][offset..];
      }
    }

    /** xprvGetValueLengthFromImpl. */
    method GetValueLengthFromImpl(k: Key) returns (n: nat)
      requires ItsOk(its, |cache|) && k < |cache|
      ensures n == if k in DurOf(its, |cache|) then |DurOf(its, |cache|)[k].bytes| else 0
    {
      n := 0;
      if KeyToUid(k) in its {
        n := |its[KeyToUid(k)]| - HEADER_SIZE;
      }
    }

    /** xprvReadValueFromImpl: the stored type, and as much of the value as the buffer takes. */
    method ReadValueFromImpl(k: Key, buffer: array<byte>, bufSize: nat) returns (ok: bool, t: ValueType, n: nat)
      requires ItsOk(its, |cache|) && k < |cache| && bufSize <= buffer.Length
      modifies buffer
      ensures ok <==> bufSize > 0 && k in DurOf(its, |cache|)
      ensures !ok ==> t == TNone && n == 0 && buffer[..] == old(buffer[..])
      ensures ok ==>
              var v := DurOf(its, |cache|)[k];
              && t == v.type_ && n == (if bufSize < |v.bytes| then bufSize else |v.bytes|)
              && buffer[..n] == v.bytes[..n] && buffer[n..] == old(buffer[n..])
    {
      hide ItsOk, DurOf, HeaderLength, HeaderType;
      ok, t, n := false, TNone, 0;
      if bufSize == 0 { return; }
      DurAt(its, |cache|, k);
      if k in DurOf(its, |cache|) { RecordParts(its, |cache|, k); }
      var found, header := ItsGet(KeyToUid(k), 0, HEADER_SIZE);
      if !found || |header| != HEADER_SIZE { return; }
      ghost var v := DurOf(its, |cache|)[k];
      assert header == its[KeyToUid(k)][..HEADER_SIZE];
      var length := HeaderLength(header);
      var data;
      found, data := ItsGet(KeyToUid(k), HEADER_SIZE, if bufSize < length then bufSize else length);
      assert data == v.bytes[..if bufSize < length then bufSize else length];
      CopyInto(buffer, 0, data);
      ok, t, n := true, HeaderType(header).value, |data|;
      assert buffer[..n] == buffer[0..0 + n];
    }

    /** xprvWriteValueToImpl; `fault` is a failure of psa_its_set, which replaces a record whole or not at all. */
    method WriteValueToImpl(k: Key, t: ValueType, v: seq<byte>, fault: bool) returns (ok: bool)
      requires |v| < SIZE_LIMIT
      modifies this`its
      ensures ok <==> k <= |cache| && t != TNone && !fault
      ensures its == if ok then old(its)[KeyToUid(k) := Record(Value(t, v))] else old(its)
    {
      ok := !(k > |cache| || t == TNone || fault);
      if ok { its := its[KeyToUid(k) := Record(Value(t, v))]; }
    }

    /** KVStore_xCommitChanges: writes the entries with a change pending; the pending flags stay. */
    method CommitChanges(faults: set<Key>) returns (ok: bool)
      requires Valid()
      modifies this`its
      ensures Valid() && Abs() == Do(old(Abs()), Commit(faults))
      ensures ok <==> forall k: Key | k < |cache| && cache[k].pending :: k !in faults
      ensures ok ==> Abs().dur == Abs().vol
      ensures forall u: nat | u < KVSTORE_UID_OFFSET || u >= KVSTORE_UID_OFFSET + |cache| ::
                (u in its <==> u in old(its)) && (u in its ==> its[u] == old(its)[u])
    {
      hide RepOk, ItsOk, DurOf, VolOf, Record, Progress;
      ok := true;
      var n := |cache|;
      ghost var m := Abs();
      ghost var pending := set k: Key | k < n && cache[k].pending;
      forall k | k in pending ensures k in m.vol { VolAt(cache, heap, k); }
      NoProgress(m, pending, faults);
      for i := 0 to n
        invariant ItsOk(its, n) && Progress(m, DurOf(its, n), pending, faults, i)
        invariant ok <==> forall k: Key | k in pending && k < i :: k !in faults
        invariant forall u: nat | u < KVSTORE_UID_OFFSET || u >= KVSTORE_UID_OFFSET + n ::
                    (u in its <==> u in old(its)) && (u in its ==> its[u] == old(its)[u])
      {
        ProgressStep(m, DurOf(its, n), pending, faults, i);
        if cache[i].pending {
          VolAt(cache, heap, i);
          DurSet(its, n, i, m.vol[i]);
          var written := WriteValueToImpl(i, cache[i].type_, DataOf(cache[i], heap), i in faults);
          ok := ok && written;
        }
      }
      forall k: Key | k !in pending ensures SameAt(m.vol, m.dur, k) {
        VolAt(cache, heap, k);
        DurAt(old(its), n, k);
      }
      CommitEffect(m, DurOf(its, n), pending, faults, n);
      CommitCoherent(cache, heap, its, m, pending, faults);
    }

    // -------------------------------------------------------------- start-up

    /** The part of a start that has been done: keys below i hold what storage holds, the rest nothing. */
    ghost predicate Loaded(i: nat)
      reads this
    {
      && RepOk(cache, heap) && ItsOk(its, |cache|)
      && (forall k: Key | k < |cache| :: Shaped(cache[k]) && !cache[k].pending)
      && (forall k: Key | k < |cache| && i <= k :: cache[k] == ZERO)
      && (forall k: Key | k < i && k < |cache| :: SameAt(VolOf(cache, heap), DurOf(its, |cache|), k))
    }

    /** One key of vprvCacheInit: the value is read straight into the space made for it. */
    method LoadKey(k: Key)
      requires k < |cache| && Loaded(k)
      modifies this`cache, this`heap
      ensures Loaded(k + 1) && |cache| == |old(cache)|
    {
      hide RepBut, OthersKept, VolOf, DurOf, ItsOk;
      ghost var c0, h0, dur := cache, heap, DurOf(its, |cache|);
      cache := cache[k := cache[k].(pending := false, type_ := TNone)];
      assert cache == c0;
      DurAt(its, |cache|, k);
      VolAt(c0, h0, k);
      var n := GetValueLengthFromImpl(k);
      if n > 0 {
        ghost var v := dur[k];
        assert RepBut(cache, heap, k) by { EmptyIsRepBut(cache, heap, k); }
        AllocateDataBuffer(k, n);
        ghost var c1, h1 := cache, heap;
        OthersSame(c0, h0, c1, h1, k);
        var buffer := new byte[n](_ => 0);
        var ok, t, length := ReadValueFromImpl(k, buffer, n);
        assert ok && t == v.type_ && buffer[..length] == v.bytes;
        cache := cache[k := cache[k].(type_ := t, length := length)];
        assert RepBut(cache, heap, k) && OthersKept(c0, h0, cache, heap, k) by { Retyped(c0, h0, c1, h1, k, t); }
        ghost var c2, h2 := cache, heap;
        WriteData(k, buffer[..length]);
        OthersKeptTwice(c0, h0, c2, h2, cache, heap, k);
        OthersSame(c0, h0, cache, heap, k);
        WriteEffect(c0, h0, cache, heap, k, v);
        assert Shaped(cache[k]) && !cache[k].pending;
        forall j: Key | j < k + 1 && j < |cache|
          ensures SameAt(VolOf(cache, heap), dur, j)
        {
          assert j < k ==> SameAt(VolOf(c0, h0), dur, j);
        }
      }
    }

    /** vprvCacheInit. */
    method CacheInit()
      requires Loaded(0)
      modifies this`cache, this`heap
      ensures Loaded(|cache|) && |cache| == |old(cache)|
    {
      hide Loaded;
      for i := 0 to |cache|
        invariant Loaded(i) && |cache| == |old(cache)|
      {
        LoadKey(i);
      }
    }

    /** Loss of power and KVStore_init: RAM starts as zeros, storage is what it was. */
    method PowerCycle()
      requires Valid()
      modifies this`cache, this`heap
      ensures Valid() && Abs() == Do(old(Abs()), Reboot)
    {
      hide VolOf, DurOf, ItsOk;
      cache := seq(|defaults|, _ => ZERO);
      heap := map[];
      CacheInit();
      ghost var m := Abs();
      forall k: Key ensures SameAt(m.vol, m.dur, k) {
        VolAt(cache, heap, k);
        DurAt(its, |cache|, k);
      }
      assert m.vol == m.dur by { SameMaps(m.vol, m.dur); }
    }
  
    /** First start on a device whose storage holds `stored`. */
    constructor (rows: seq<Default>, stored: map<nat, seq<byte>>)
      requires (forall k | 0 <= k < |rows| :: DefaultOk(rows[k])) && ItsOk(stored, |rows|)
      ensures Valid() && defaults == rows && its == stored
      ensures Abs() == Maps(DurOf(stored, |rows|), DurOf(stored, |rows|))
    {
      defaults, its := rows, stored;
      cache, heap := seq(|rows|, _ => ZERO), map[];
      new;
      CacheInit();
      forall k: Key ensures SameAt(Abs().vol, Abs().dur, k) {
        VolAt(cache, heap, k);
        DurAt(its, |cache|, k);
      }
      SameMaps(Abs().vol, Abs().dur);
    }

    // -------------------------------------------------------------- reading

    /** xprvCopyValueFromCache; the length out-parameter, 0 before the call, is the result. */
    method CopyValueFromCache(k: Key, buffer: array<byte>, bufSize: nat) returns (ok: bool, length: nat)
      requires Valid() && k < |cache| && bufSize <= buffer.Length
      modifies buffer
      ensures ok <==> k in Abs().vol && bufSize > 0
      ensures if k in Abs().vol
              then var b := Abs().vol[k].bytes; var n := Min(bufSize, |b|);
                   length == |b| && buffer[..n] == b[..n] && buffer[n..] == old(buffer[n..])
              else length == 0 && buffer[..] == old(buffer[..])
    {
      hide VolOf, DurOf, ItsOk, Coherent;
      VolAt(cache, heap, k);
      ok, length := false, 0;
      if cache[k].type_ != TNone {
        var data := DataOf(cache[k], heap);
        var n := cache[k].length;
        if bufSize < n { n := bufSize; }
        CopyInto(buffer, 0, data[..n]);
        assert buffer[..n] == buffer[0..0 + n];
        ok, length := n > 0, cache[k].length;
      }
    }

    /** xReadEntryOrDefault. */
    method ReadEntryOrDefault(k: Key, buffer: array<byte>, bufSize: nat) returns (length: nat)
      requires Valid() && k < |cache| && bufSize <= buffer.Length
      modifies buffer
      ensures var r := Read(Abs().vol, defaults[k], k, bufSize);
              length == r.length && buffer[..] == r.copied + old(buffer[|r.copied|..])
    {
      hide VolOf, DurOf, ItsOk, Coherent;
      ghost var b0 := buffer[..];
      assert k in Abs().vol ==> |Abs().vol[k].bytes| > 0 by { VolAt(cache, heap, k); }
      var ok;
      ok, length := CopyValueFromCache(k, buffer, bufSize);
      if length == 0 {
        var d := defaults[k];
        var n := d.length;
        if bufSize < n { n := bufSize; }
        var data := if n > POINTER_SIZE then d.target[..n] else d.word[..n];
        CopyInto(buffer, 0, data);
        length := d.length;
        assert buffer[..n] == buffer[0..0 + n] == data && buffer[n..] == b0[n..];
        assert buffer[..] == buffer[..n] + buffer[n..];
      } else {
        ghost var n := Min(bufSize, length);
        assert buffer[..] == buffer[..n] + buffer[n..];
      }
    }
  }
}
