/** kvstore.c: the typed setters and getters, over the store of KvStore.dfy. */
module KvApi {
  import opened Bytes
  import opened KvSpec
  import opened KvRecord
  import opened KvStore

  /** A key that exists and whose default row has the given type. */
  predicate HasType(defaults: seq<Default>, k: Key, t: ValueType) {
    k < |defaults| && defaults[k].type_ == t
  }

  // ---------------------------------------------------------------- setters

  /** What every setter does: the one key is set if the row's type allows it, else nothing happens. */
  method SetTyped(s: Store, k: Key, t: ValueType, bytes: seq<byte>) returns (ok: bool)
    requires s.Valid() && Storable(Value(t, bytes))
    modifies s`cache, s`heap
    ensures ok <==> HasType(s.defaults, k, t)
    ensures s.Valid() && s.Abs() == if ok then Do(old(s.Abs()), Set(k, Value(t, bytes))) else old(s.Abs())
  {
    ok := false;
    if k < |s.defaults| && s.defaults[k].type_ == t {
      s.WriteCacheEntry(k, t, bytes);
      ok := true;
    }
  }

  method SetBlob(s: Store, k: Key, v: seq<byte>) returns (ok: bool)
    requires s.Valid() && |v| < SIZE_LIMIT
    modifies s`cache, s`heap
    ensures ok <==> v != [] && HasType(s.defaults, k, TBlob)
    ensures s.Valid() && s.Abs() == if ok then Do(old(s.Abs()), Set(k, Value(TBlob, v))) else old(s.Abs())
  {
    ok := false;
    if |v| > 0 { ok := SetTyped(s, k, TBlob, v); }
  }

  /** The NUL is stored with the string. */
  method SetString(s: Store, k: Key, text: seq<byte>) returns (ok: bool)
    requires s.Valid() && 0 !in text && |text| < SIZE_LIMIT - 1
    modifies s`cache, s`heap
    ensures ok <==> HasType(s.defaults, k, TString)
    ensures s.Valid() && s.Abs() == if ok then Do(old(s.Abs()), Set(k, Value(TString, text + [0]))) else old(s.Abs())
  {
    ok := SetTyped(s, k, TString, text + [0]);
  }

  method SetUInt32(s: Store, k: Key, n: nat) returns (ok: bool)
    requires s.Valid() && n < 0x1_0000_0000
    modifies s`cache, s`heap
    ensures ok <==> HasType(s.defaults, k, TUInt32)
    ensures s.Valid() && s.Abs() == if ok then Do(old(s.Abs()), Set(k, Value(TUInt32, Le32(n)))) else old(s.Abs())
  {
    ok := SetTyped(s, k, TUInt32, Le32(n));
  }

  method SetInt32(s: Store, k: Key, i: int) returns (ok: bool)
    requires s.Valid() && -0x8000_0000 <= i < 0x8000_0000
    modifies s`cache, s`heap
    ensures ok <==> HasType(s.defaults, k, TInt32)
    ensures s.Valid()
    ensures s.Abs() == if ok then Do(old(s.Abs()), Set(k, Value(TInt32, Le32(Unsigned(i))))) else old(s.Abs())
  {
    ok := SetTyped(s, k, TInt32, Le32(Unsigned(i)));
  }

  method SetBase(s: Store, k: Key, i: int) returns (ok: bool)
    requires s.Valid() && -0x8000_0000 <= i < 0x8000_0000
    modifies s`cache, s`heap
    ensures ok <==> HasType(s.defaults, k, TBase)
    ensures s.Valid()
    ensures s.Abs() == if ok then Do(old(s.Abs()), Set(k, Value(TBase, Le32(Unsigned(i))))) else old(s.Abs())
  {
    ok := SetTyped(s, k, TBase, Le32(Unsigned(i)));
  }

  // ---------------------------------------------------------------- getters

  datatype Word = Word(bytes: seq<byte>, success: bool)

  /** What a scalar getter finds in its zeroed variable. */
  function GetWord(vol: map<Key, Value>, defaults: seq<Default>, k: Key, t: ValueType): (w: Word)
    requires forall i | 0 <= i < |defaults| :: DefaultOk(defaults[i])
    ensures |w.bytes| == 4
  {
    if HasType(defaults, k, t) then
      var r := Read(vol, defaults[k], k, 4);
      Word(r.copied + [0, 0, 0, 0][|r.copied|..], r.length == 4)
    else Word([0, 0, 0, 0], false)
  }

  method ReadWord(s: Store, k: Key, t: ValueType) returns (w: Word)
    requires s.Valid()
    ensures w == GetWord(s.Abs().vol, s.defaults, k, t)
  {
    var variable := new byte[4](_ => 0);
    assert variable[..] == [0, 0, 0, 0];
    var sizeWritten := 0;
    if k < |s.defaults| && s.defaults[k].type_ == t {
      sizeWritten := s.ReadEntryOrDefault(k, variable, 4);
    }
    w := Word(variable[..], sizeWritten == 4);
  }

  method GetUInt32(s: Store, k: Key) returns (n: nat, success: bool)
    requires s.Valid()
    ensures var w := GetWord(s.Abs().vol, s.defaults, k, TUInt32); n == FromLe32(w.bytes) && success == w.success
  {
    var w := ReadWord(s, k, TUInt32);
    n, success := FromLe32(w.bytes), w.success;
  }

  method GetInt32(s: Store, k: Key) returns (i: int, success: bool)
    requires s.Valid()
    ensures var w := GetWord(s.Abs().vol, s.defaults, k, TInt32); i == Signed(FromLe32(w.bytes)) && success == w.success
  {
    var w := ReadWord(s, k, TInt32);
    i, success := Signed(FromLe32(w.bytes)), w.success;
  }

  method GetBase(s: Store, k: Key) returns (i: int, success: bool)
    requires s.Valid()
    ensures var w := GetWord(s.Abs().vol, s.defaults, k, TBase); i == Signed(FromLe32(w.bytes)) && success == w.success
  {
    var w := ReadWord(s, k, TBase);
    i, success := Signed(FromLe32(w.bytes)), w.success;
  }

  /** KVStore_getUBase asks for the signed type, so keys of its own type never read. */
  method GetUBase(s: Store, k: Key) returns (n: nat, success: bool)
    requires s.Valid()
    ensures var w := GetWord(s.Abs().vol, s.defaults, k, TBase); n == FromLe32(w.bytes) && success == w.success
    ensures HasType(s.defaults, k, TUBase) ==> n == 0 && !success
  {
    var w := ReadWord(s, k, TBase);
    n, success := FromLe32(w.bytes), w.success;
  }

  method GetBlob(s: Store, k: Key, buffer: array<byte>, maxLength: nat) returns (length: nat)
    requires s.Valid() && maxLength <= buffer.Length
    modifies buffer
    ensures if HasType(s.defaults, k, TBlob)
            then var r := Read(s.Abs().vol, s.defaults[k], k, maxLength);
                 length == r.length && buffer[..] == r.copied + old(buffer[|r.copied|..])
            else length == 0 && buffer[..] == old(buffer[..])
  {
    length := 0;
    if k < |s.defaults| && s.defaults[k].type_ == TBlob {
      length := s.ReadEntryOrDefault(k, buffer, maxLength);
    }
  }

  /** The last octet of the buffer becomes NUL; the length reported leaves the stored NUL out. */
  method GetString(s: Store, k: Key, buffer: array<byte>, maxLength: nat) returns (length: nat)
    requires s.Valid() && 0 < maxLength <= buffer.Length
    modifies buffer
    ensures if HasType(s.defaults, k, TString)
            then var r := Read(s.Abs().vol, s.defaults[k], k, maxLength);
                 && length == (if r.length > 0 then r.length - 1 else 0)
                 && buffer[..] == (r.copied + old(buffer[|r.copied|..]))[maxLength - 1 := 0]
            else length == 0 && buffer[..] == old(buffer[..])
  {
    length := 0;
    if k < |s.defaults| && s.defaults[k].type_ == TString {
      length := s.ReadEntryOrDefault(k, buffer, maxLength);
      buffer[maxLength - 1] := 0;
    }
    if length > 0 { length := length - 1; }
  }

  method GetSize(s: Store, k: Key) returns (length: nat)
    requires s.Valid()
    ensures length == if k < |s.defaults| then Read(s.Abs().vol, s.defaults[k], k, 0).length else 0
  {
    length := 0;
    if k < |s.defaults| {
      VolAt(s.cache, s.heap, k);
      length := s.cache[k].length;
      if length == 0 { length := s.defaults[k].length; }
    }
  }

  // ---------------------------------------------------------------- setters and getters together

  /** A scalar set is what the matching getter returns; getters of other keys are untouched. */
  lemma ScalarReadsBack(m: Maps, defaults: seq<Default>, k: Key, t: ValueType, i: int)
    requires (forall j | 0 <= j < |defaults| :: DefaultOk(defaults[j])) && HasType(defaults, k, t)
    requires -0x8000_0000 <= i < 0x1_0000_0000
    ensures var n := if i < 0 then Unsigned(i) else i;
            var m' := Do(m, Set(k, Value(t, Le32(n))));
            && GetWord(m'.vol, defaults, k, t).success
            && (i >= 0 ==> FromLe32(GetWord(m'.vol, defaults, k, t).bytes) == i)
            && (i < 0x8000_0000 ==> Signed(FromLe32(GetWord(m'.vol, defaults, k, t).bytes)) == i)
            && (forall k', t' | k' != k :: GetWord(m'.vol, defaults, k', t') == GetWord(m.vol, defaults, k', t'))
  {
    var n := if i < 0 then Unsigned(i) else i;
    Le32RoundTrip(n);
    assert Le32(n)[..4] + [0, 0, 0, 0][4..] == Le32(n);
  }

  /**
   When a scalar getter reports success: the key's row has its type and four octets are there,
   those set or the default's. Of shorter values the first octets are read, of longer ones
   the first four, and of a key of another type zeros.
   */
  lemma ScalarSucceedsExactly(vol: map<Key, Value>, defaults: seq<Default>, k: Key, t: ValueType)
    requires (forall j | 0 <= j < |defaults| :: DefaultOk(defaults[j])) && t in {TBase, TUBase, TInt32, TUInt32}
    ensures var w := GetWord(vol, defaults, k, t);
            && (w.success <==> k < |defaults| && defaults[k].type_ == t && (k in vol ==> |vol[k].bytes| == 4))
            && (k >= |defaults| || defaults[k].type_ != t ==> w.bytes == [0, 0, 0, 0])
            && (w.success ==> w.bytes == if k in vol then vol[k].bytes else defaults[k].word)
            && (k < |defaults| && defaults[k].type_ == t && k in vol ==>
                  forall i | 0 <= i < 4 :: w.bytes[i] == if i < |vol[k].bytes| then vol[k].bytes[i] else 0)
  {
  }

  /** A signed number is stored as the 32-bit word that equals it modulo 2^32, lowest octet first. */
  lemma StoredInTwosComplement(i: int)
    requires -0x8000_0000 <= i < 0x8000_0000
    ensures var b := Le32(Unsigned(i));
            var n := b[0] as int + 0x100 * b[1] as int + 0x1_0000 * b[2] as int + 0x100_0000 * b[3] as int;
            n == if i < 0 then 0x1_0000_0000 + i else i
  {
    Le32RoundTrip(Unsigned(i));
  }

  /** The length reported for a key never set, whatever the buffer's size. */
  lemma UnsetLength(vol: map<Key, Value>, d: Default, k: Key, bufSize: nat)
    requires DefaultOk(d) && k !in vol
    ensures Read(vol, d, k, bufSize).length == if d.type_ == TString || d.type_ == TBlob then |d.target| else 4
    ensures |Read(vol, d, k, bufSize).copied| == Min(bufSize, Read(vol, d, k, bufSize).length)
  {
  }

  lemma CStringPrefix(b: seq<byte>, n: nat)
    requires n < |b| && b[n] == 0 && 0 !in b[..n]
    ensures CString(b) == b[..n]
  {
    if n > 0 {
      assert b[0] == b[..n][0];
      assert b[1..][..n - 1] == b[..n][1..];
      CStringPrefix(b[1..], n - 1);
    }
  }

  /**
   A string set comes back whole if the buffer takes it with its NUL, and otherwise as the
   prefix that fits before one; the length reported is the whole string's either way.
   */
  lemma StringReadsBack(m: Maps, d: Default, k: Key, text: seq<byte>, maxLength: nat, before: seq<byte>)
    requires DefaultOk(d) && 0 !in text && 0 < maxLength <= |before|
    ensures var r := Read(Do(m, Set(k, Value(TString, text + [0]))).vol, d, k, maxLength);
            && r.length - 1 == |text|
            && CString((r.copied + before[|r.copied|..])[maxLength - 1 := 0]) == text[..Min(|text|, maxLength - 1)]
  {
    var stored := text + [0];
    var r := Read(Do(m, Set(k, Value(TString, stored))).vol, d, k, maxLength);
    var n := Min(|text|, maxLength - 1);
    var b := (r.copied + before[|r.copied|..])[maxLength - 1 := 0];
    assert b[..n] == text[..n];
    CStringPrefix(b, n);
  }

  /** A blob set comes back as the prefix that fits, under its whole length. */
  lemma BlobReadsBack(m: Maps, d: Default, k: Key, v: seq<byte>, maxLength: nat)
    requires DefaultOk(d)
    ensures Read(Do(m, Set(k, Value(TBlob, v))).vol, d, k, maxLength) == Reading(|v|, v[..Min(maxLength, |v|)])
  {
  }

  /** A NUL put at n ends the string there, if it has not ended before. */
  lemma {:induction false} CStringCut(b: seq<byte>, n: nat)
    requires n < |b|
    ensures CString(b[n := 0]) == CString(b[..n])
  {
    if n > 0 && b[0] != 0 {
      CStringCut(b[1..], n - 1);
      assert b[n := 0][1..] == b[1..][n - 1 := 0] && b[..n][1..] == b[1..][..n - 1];
    }
  }

  /**
   A string key that was never set, its default empty: the length reported is 0, but only the
   buffer's last octet is written, so as a C string the buffer still says what it said before,
   cut at its end. It is empty exactly when it began with a NUL or has one octet.
   */
  lemma UnsetStringReads(vol: map<Key, Value>, d: Default, k: Key, maxLength: nat, before: seq<byte>)
    requires DefaultOk(d) && d.type_ == TString && d.target == [] && k !in vol && 0 < maxLength <= |before|
    ensures var r := Read(vol, d, k, maxLength);
            var text := CString((r.copied + before[|r.copied|..])[maxLength - 1 := 0]);
            && r == Reading(0, [])
            && text == CString(before[..maxLength - 1])
            && (text == [] <==> maxLength == 1 || before[0] == 0)
  {
    var r := Read(vol, d, k, maxLength);
    assert r.copied + before[|r.copied|..] == before;
    CStringCut(before, maxLength - 1);
  }

  /**
   A default behind a pointer, read before any set: it comes back right whatever the pointer's
   own octets are exactly when more than four octets are taken, or none. With one to four the
   octets are taken from the pointer instead. Scalar defaults always read right.
   */
  lemma DefaultReadsRight(d: Default, k: Key, vol: map<Key, Value>, bufSize: nat)
    requires DefaultOk(d) && k !in vol
    ensures IsScalar(d.type_) ==> Read(vol, d, k, 4) == Reading(4, d.word)
    ensures !IsScalar(d.type_) ==>
            var n := Min(bufSize, |d.target|);
            && ((forall w: seq<byte> | |w| == POINTER_SIZE :: Read(vol, d.(word := w), k, bufSize).copied == d.target[..n])
                <==> n == 0 || n > POINTER_SIZE)
            && (0 < n <= POINTER_SIZE ==> Read(vol, d, k, bufSize).copied == d.word[..n])
  {
    var n := Min(bufSize, |d.target|);
    if !IsScalar(d.type_) && 0 < n <= POINTER_SIZE {
      var other: byte := if d.target[0] == 0 then 1 else 0;
      var w := [other, other, other, other];
      assert Read(vol, d.(word := w), k, bufSize).copied[0] == other != d.target[..n][0];
    }
  }

  /** Such a row: a blob of three octets at address 0x08001234 of a little-endian target. */
  lemma ShortBlobDefault(k: Key, bufSize: nat)
    requires bufSize >= 3
    ensures var d := Default(TBlob, 3, [0x34, 0x12, 0x00, 0x08], [1, 2, 3]);
            DefaultOk(d) && Read(map[], d, k, bufSize) == Reading(3, [0x34, 0x12, 0x00]) != Reading(3, d.target)
  {
    var d := Default(TBlob, 3, [0x34, 0x12, 0x00, 0x08], [1, 2, 3]);
    assert Read(map[], d, k, bufSize).copied[0] == 0x34;
  }

  /** The rows of kvstore_config.h: four empty strings, wherever they lie, and two numbers. */
  predicate Configured(rows: seq<Default>) {
    && |rows| == 6 && (forall k | 0 <= k < 6 :: DefaultOk(rows[k]))
    && (forall k | k in {0, 1, 3, 4} :: rows[k].type_ == TString && rows[k].target == [])
    && rows[2].type_ == rows[5].type_ == TUInt32 && rows[2].word == Le32(8883) && rows[5].word == Le32(0)
  }

  /** No configured row is read wrongly: unset strings have length 0, unset numbers are the defaults. */
  lemma ConfiguredRowsReadRight(rows: seq<Default>, vol: map<Key, Value>, bufSize: nat)
    requires Configured(rows) && forall k: nat | k < 6 :: k !in vol
    ensures forall k | k in {0, 1, 3, 4} :: Read(vol, rows[k], k, bufSize) == Reading(0, [])
    ensures var w := GetWord(vol, rows, 2, TUInt32); w.success && FromLe32(w.bytes) == 8883
    ensures var w := GetWord(vol, rows, 5, TUInt32); w.success && FromLe32(w.bytes) == 0
  {
    Le32RoundTrip(8883);
    Le32RoundTrip(0);
    forall k: nat | k == 2 || k == 5
      ensures GetWord(vol, rows, k, TUInt32) == Word(rows[k].word, true)
    {
      assert rows[k].word[..4] + [0, 0, 0, 0][4..] == rows[k].word;
    }
  }

  /**
   After any run and a reboot, a getter is given the last persisted set of its key, or if no
   set persisted what it would have been given at the start.
   */
  lemma ReadAfterReboot(start: map<Key, Value>, ops: seq<Op>, d: Default, k: Key, bufSize: nat)
    requires DefaultOk(d)
    ensures var r := Read(Run(start, ops + [Reboot]).vol, d, k, bufSize);
            && (NonePersisted(ops, k) ==> r == Read(start, d, k, bufSize))
            && (forall j: nat | LastPersisted(ops, k, j) ::
                  j < |ops| && ops[j].Set? && var v := ops[j].value.bytes; r == Reading(|v|, v[..Min(bufSize, |v|)]))
  {
    hide Run, DefaultRead, NonePersisted, LastPersisted;
    AfterReboot(start, ops, k);
  }

  // ---------------------------------------------------------------- runs of the store itself

  predicate OpOk(op: Op, n: nat) {
    op.Set? ==> op.key < n && Storable(op.value)
  }

  /** Any sequence of sets, commits and restarts of a started store: it goes where the two maps go. */
  method Perform(s: Store, ops: seq<Op>)
    requires s.Valid() && s.Abs().vol == s.Abs().dur
    requires forall i | 0 <= i < |ops| :: OpOk(ops[i], |s.defaults|)
    modifies s`cache, s`heap, s`its
    ensures s.Valid() && s.Abs() == Run(old(s.Abs().dur), ops)
  {
    hide VolOf, DurOf, ItsOk, Coherent, RepOk;
    assert ops[..0] == [];
    for i := 0 to |ops|
      invariant s.Valid() && s.Abs() == Run(old(s.Abs().dur), ops[..i])
    {
      assert ops[..i + 1][..i] == ops[..i] && ops[..i + 1][i] == ops[i];
      assert OpOk(ops[i], |s.defaults|);
      match ops[i] {
        case Set(k, v) => s.WriteCacheEntry(k, v.type_, v.bytes);
        case Commit(faults) => var ok := s.CommitChanges(faults);
        case Reboot => s.PowerCycle();
      }
    }
    assert ops[..|ops|] == ops;
  }
}
