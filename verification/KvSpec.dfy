/**
 What the key/value store is for: a volatile and a durable map from keys to typed values,
 and the values a getter gives back. The store itself (KvStore.dfy) is proved to be this.
 */
module KvSpec {
  import opened Bytes

  datatype ValueType = TNone | TBase | TUBase | TInt32 | TUInt32 | TString | TBlob

  datatype Value = Value(type_: ValueType, bytes: seq<byte>)

  type Key = nat

  /** A value a setter can store: typed, not empty, of a length that fits the record header. */
  predicate Storable(v: Value) {
    v.type_ != TNone && 0 < |v.bytes| < 0x1_0000_0000
  }

  // ---------------------------------------------------------------- the two maps

  datatype Maps = Maps(vol: map<Key, Value>, dur: map<Key, Value>)

  datatype Op =
    | Set(key: Key, value: Value)
    | Commit(faults: set<Key>)    // the keys whose storage write fails
    | Reboot

  function Committed(m: Maps, faults: set<Key>): map<Key, Value> {
    m.dur + (m.vol - faults)
  }

  function Do(m: Maps, op: Op): Maps {
    match op
    case Set(k, v) => m.(vol := m.vol[k := v])
    case Commit(faults) => m.(dur := Committed(m, faults))
    case Reboot => m.(vol := m.dur)
  }

  /** A run on a device that has started with what its storage held. */
  function Run(start: map<Key, Value>, ops: seq<Op>): Maps {
    if ops == [] then Maps(start, start) else Do(Run(start, ops[..|ops| - 1]), ops[|ops| - 1])
  }

  // ---------------------------------------------------------------- what a run leaves behind

  predicate SetsKey(op: Op, k: Key) {
    op.Set? && op.key == k
  }

  /** The set at j is what getters of k see: no later set of k, and no reboot since. */
  predicate Current(ops: seq<Op>, k: Key, j: nat) {
    j < |ops| && SetsKey(ops[j], k) && forall i | j < i < |ops| :: !SetsKey(ops[i], k) && !ops[i].Reboot?
  }

  /** The set at j was current when some commit's write of k succeeded. */
  ghost predicate Persisted(ops: seq<Op>, k: Key, j: nat) {
    exists i :: j < i < |ops| && ops[i].Commit? && k !in ops[i].faults && Current(ops[..i], k, j)
  }

  ghost predicate NoneCurrent(ops: seq<Op>, k: Key) {
    forall j: nat :: !Current(ops, k, j)
  }

  ghost predicate NonePersisted(ops: seq<Op>, k: Key) {
    forall j: nat :: !Persisted(ops, k, j)
  }

  /** The set at j is the latest of those that persisted. */
  ghost predicate LastPersisted(ops: seq<Op>, k: Key, j: nat) {
    Persisted(ops, k, j) && forall j': nat :: Persisted(ops, k, j') ==> j' <= j
  }

  /** k is in both maps with the same value, or in neither. */
  predicate SameFor(m: map<Key, Value>, m': map<Key, Value>, k: Key) {
    (k in m <==> k in m') && (k in m ==> m[k] == m'[k])
  }

  predicate Holds(m: map<Key, Value>, k: Key, v: Value) {
    k in m && m[k] == v
  }

  /** k is durably what the last persisted set made it, or what it was at the start if none persisted. */
  ghost predicate DurableIs(start: map<Key, Value>, ops: seq<Op>, k: Key, dur: map<Key, Value>) {
    && (NonePersisted(ops, k) ==> SameFor(dur, start, k))
    && (forall j: nat | LastPersisted(ops, k, j) :: j < |ops| && SetsKey(ops[j], k) && Holds(dur, k, ops[j].value))
  }

  /** Getters see the current set if there is one, and the durable value otherwise. */
  ghost predicate VolatileIs(ops: seq<Op>, k: Key, m: Maps) {
    && (NoneCurrent(ops, k) ==> SameFor(m.vol, m.dur, k))
    && (forall j: nat | Current(ops, k, j) :: Holds(m.vol, k, ops[j].value))
  }

  lemma CurrentStep(ops: seq<Op>, op: Op, k: Key, j: nat)
    ensures Current(ops + [op], k, j)
            <==> (j == |ops| && SetsKey(op, k)) || (Current(ops, k, j) && !SetsKey(op, k) && !op.Reboot?)
  {
    var all := ops + [op];
    assert all[|ops|] == op && forall i | 0 <= i < |ops| :: all[i] == ops[i];
  }

  lemma PersistedStep(ops: seq<Op>, op: Op, k: Key, j: nat)
    ensures Persisted(ops + [op], k, j)
            <==> Persisted(ops, k, j) || (op.Commit? && k !in op.faults && Current(ops, k, j))
  {
    var all := ops + [op];
    if Persisted(all, k, j) {
      var i :| j < i < |all| && all[i].Commit? && k !in all[i].faults && Current(all[..i], k, j);
      if i < |ops| { assert all[..i] == ops[..i]; } else { assert all[..i] == ops; }
    }
    if Persisted(ops, k, j) {
      var i :| j < i < |ops| && ops[i].Commit? && k !in ops[i].faults && Current(ops[..i], k, j);
      assert all[..i] == ops[..i] && all[i] == ops[i];
    }
    if op.Commit? && k !in op.faults && Current(ops, k, j) {
      assert all[..|ops|] == ops && all[|ops|] == op;
    }
  }

  /** A current set is the latest of all, so later than every persisted one. */
  lemma CurrentIsLatest(ops: seq<Op>, k: Key, j: nat, j': nat)
    requires Current(ops, k, j) && Persisted(ops, k, j')
    ensures j' <= j
  {
  }

  lemma OneCurrent(ops: seq<Op>, k: Key, j: nat, j': nat)
    requires Current(ops, k, j) && Current(ops, k, j')
    ensures j == j'
  {
  }

  /** How one more step changes which set is current. */
  lemma CurrentAfter(ops: seq<Op>, op: Op, k: Key)
    ensures forall j: nat :: Current(ops + [op], k, j)
              <==> if SetsKey(op, k) then j == |ops| else Current(ops, k, j) && !op.Reboot?
    ensures NoneCurrent(ops + [op], k) <==> !SetsKey(op, k) && (NoneCurrent(ops, k) || op.Reboot?)
  {
    hide Current;
    forall j: nat ensures Current(ops + [op], k, j)
                          <==> if SetsKey(op, k) then j == |ops| else Current(ops, k, j) && !op.Reboot?
    {
      CurrentStep(ops, op, k, j);
      if Current(ops, k, j) { CurrentSets(ops, k, j); }
    }
    if SetsKey(op, k) { assert Current(ops + [op], k, |ops|); }
  }

  lemma CurrentSets(ops: seq<Op>, k: Key, j: nat)
    requires Current(ops, k, j)
    ensures j < |ops| && SetsKey(ops[j], k)
  {
  }

  /** How one more step changes which set is the last persisted: a commit makes the current one it. */
  lemma PersistedAfter(ops: seq<Op>, op: Op, k: Key)
    ensures var now := op.Commit? && k !in op.faults && !NoneCurrent(ops, k);
            && (forall j: nat :: LastPersisted(ops + [op], k, j) <==> if now then Current(ops, k, j) else LastPersisted(ops, k, j))
            && (NonePersisted(ops + [op], k) <==> NonePersisted(ops, k) && !now)
  {
    hide Current, Persisted;
    var all := ops + [op];
    var now := op.Commit? && k !in op.faults && !NoneCurrent(ops, k);
    forall j: nat ensures Persisted(all, k, j) <==> Persisted(ops, k, j) || (now && Current(ops, k, j)) {
      PersistedStep(ops, op, k, j);
    }
    if now {
      var c: nat :| Current(ops, k, c);
      forall j: nat | Persisted(ops, k, j) ensures j <= c { CurrentIsLatest(ops, k, c, j); }
      forall j: nat | Current(ops, k, j) ensures j == c { OneCurrent(ops, k, c, j); }
      assert Persisted(all, k, c);
    }
  }

  lemma SetStep(start: map<Key, Value>, ops: seq<Op>, op: Op, k: Key, m: Maps)
    requires op.Set? && DurableIs(start, ops, k, m.dur) && VolatileIs(ops, k, m)
    ensures DurableIs(start, ops + [op], k, Do(m, op).dur) && VolatileIs(ops + [op], k, Do(m, op))
  {
    hide Current, LastPersisted, NonePersisted, NoneCurrent;
    CurrentAfter(ops, op, k);
    PersistedAfter(ops, op, k);
    forall j: nat | Current(ops, k, j) ensures j < |ops| { CurrentSets(ops, k, j); }
  }

  lemma RebootStep(start: map<Key, Value>, ops: seq<Op>, op: Op, k: Key, m: Maps)
    requires op.Reboot? && DurableIs(start, ops, k, m.dur)
    ensures DurableIs(start, ops + [op], k, Do(m, op).dur) && VolatileIs(ops + [op], k, Do(m, op))
  {
    hide Current, LastPersisted, NonePersisted, NoneCurrent;
    CurrentAfter(ops, op, k);
    PersistedAfter(ops, op, k);
  }

  lemma CommitStep(start: map<Key, Value>, ops: seq<Op>, op: Op, k: Key, m: Maps)
    requires op.Commit? && DurableIs(start, ops, k, m.dur) && VolatileIs(ops, k, m)
    ensures DurableIs(start, ops + [op], k, Do(m, op).dur) && VolatileIs(ops + [op], k, Do(m, op))
  {
    hide Current, LastPersisted, NonePersisted;
    CurrentAfter(ops, op, k);
    PersistedAfter(ops, op, k);
    forall j: nat | Current(ops, k, j) ensures j < |ops| && SetsKey(ops[j], k) { CurrentSets(ops, k, j); }
  }

  /** Of the sets that persisted, if any, one is the last. */
  lemma {:induction false} SomeLast(ops: seq<Op>, k: Key)
    ensures NonePersisted(ops, k) || exists j: nat :: LastPersisted(ops, k, j)
  {
    hide Current, LastPersisted;
    if ops != [] {
      var before, op := ops[..|ops| - 1], ops[|ops| - 1];
      assert ops == before + [op];
      SomeLast(before, k);
      PersistedAfter(before, op, k);
      if j: nat :| LastPersisted(before, k, j) { assert LastPersisted(ops, k, j) || !NoneCurrent(before, k); }
    }
  }

  /**
   Over every run of sets, commits whose per-key writes may fail, and reboots, from any stored
   values: each key is durably what the last persisted set made it, or else what it was at
   the start, and a getter sees the set made since the last reboot or else that durable value.
   */
  lemma {:induction false} RunMeans(start: map<Key, Value>, ops: seq<Op>, k: Key)
    ensures DurableIs(start, ops, k, Run(start, ops).dur) && VolatileIs(ops, k, Run(start, ops))
    ensures NonePersisted(ops, k) || exists j: nat :: LastPersisted(ops, k, j)
  {
    SomeLast(ops, k);
    if ops != [] {
      var before, op := ops[..|ops| - 1], ops[|ops| - 1];
      assert ops == before + [op];
      RunMeans(start, before, k);
      match op
      case Set(_, _) => SetStep(start, before, op, k, Run(start, before));
      case Commit(_) => CommitStep(start, before, op, k, Run(start, before));
      case Reboot => RebootStep(start, before, op, k, Run(start, before));
    }
  }

  /** After a reboot a getter sees the last persisted set of its key, or what was stored at the start. */
  lemma AfterReboot(start: map<Key, Value>, ops: seq<Op>, k: Key)
    ensures DurableIs(start, ops, k, Run(start, ops + [Reboot]).vol)
  {
    RunMeans(start, ops, k);
    assert (ops + [Reboot])[..|ops|] == ops;
  }
}
