/** kvstore_nv_psa_its.c: a typed value as one record of trusted storage, header first. */
module KvRecord {
  import opened Bytes
  import opened KvSpec

  const KVSTORE_UID_OFFSET: nat := 0x1234
  const HEADER_SIZE: nat := 8
  const SIZE_LIMIT: nat := 0x1_0000_0000

  function KeyToUid(k: Key): nat {
    KVSTORE_UID_OFFSET + k
  }

  function TypeCode(t: ValueType): (c: nat)
    ensures c < 7
  {
    match t
    case TNone => 0
    case TBase => 1
    case TUBase => 2
    case TInt32 => 3
    case TUInt32 => 4
    case TString => 5
    case TBlob => 6
  }

  function TypeOfCode(c: nat): Option<ValueType> {
    match c
    case 0 => Some(TNone)
    case 1 => Some(TBase)
    case 2 => Some(TUBase)
    case 3 => Some(TInt32)
    case 4 => Some(TUInt32)
    case 5 => Some(TString)
    case 6 => Some(TBlob)
    case _ => None
  }

  /** Header (type, length) and value, as psa_its_set receives them. */
  function Record(v: Value): (b: seq<byte>)
    requires |v.bytes| < SIZE_LIMIT
    ensures |b| == HEADER_SIZE + |v.bytes|
  {
    Le32(TypeCode(v.type_)) + Le32(|v.bytes|) + v.bytes
  }

  /** The header's two fields. */
  function HeaderType(b: seq<byte>): Option<ValueType>
    requires |b| >= HEADER_SIZE
  {
    TypeOfCode(FromLe32(b[..4]))
  }

  function HeaderLength(b: seq<byte>): nat
    requires |b| >= HEADER_SIZE
  {
    FromLe32(b[4..8])
  }

  /** The value a whole record holds. */
  function ParseRecord(b: seq<byte>): Option<Value> {
    if |b| < HEADER_SIZE || HeaderType(b).None? || |b| != HEADER_SIZE + HeaderLength(b) then None
    else Some(Value(HeaderType(b).value, b[HEADER_SIZE..]))
  }

  /** Records read back, and only a record reads as the value it was made from. */
  lemma RecordRoundTrip(v: Value, b: seq<byte>)
    requires |v.bytes| < SIZE_LIMIT
    ensures ParseRecord(b) == Some(v) <==> b == Record(v)
  {
    var c, n := TypeCode(v.type_), |v.bytes|;
    Le32RoundTrip(c);
    Le32RoundTrip(n);
    var r := Record(v);
    assert r[..4] == Le32(c) && r[4..8] == Le32(n) && r[HEADER_SIZE..] == v.bytes;
    if ParseRecord(b) == Some(v) {
      FromLe32Injective(b[..4], Le32(c));
      FromLe32Injective(b[4..8], Le32(n));
      assert b == b[..4] + b[4..8] + b[8..];
    }
  }

  /** The record octet by octet: type code, length with its lowest octet first, then the value. */
  lemma RecordLayout(v: Value)
    requires |v.bytes| < SIZE_LIMIT
    ensures var b := Record(v);
            && |b| == 8 + |v.bytes| && b[8..] == v.bytes
            && b[0] < 7 && [TNone, TBase, TUBase, TInt32, TUInt32, TString, TBlob][b[0]] == v.type_
            && b[1] == b[2] == b[3] == 0
            && b[4] as int + 0x100 * b[5] as int + 0x1_0000 * b[6] as int + 0x100_0000 * b[7] as int == |v.bytes|
  {
    Le32RoundTrip(|v.bytes|);
    var b := Record(v);
    assert b[..4] == Le32(TypeCode(v.type_)) && b[4..8] == Le32(|v.bytes|);
    assert b[4] == b[4..8][0] && b[5] == b[4..8][1] && b[6] == b[4..8][2] && b[7] == b[4..8][3];
    assert b[0] == b[..4][0] && b[1] == b[..4][1] && b[2] == b[..4][2] && b[3] == b[..4][3];
  }

  lemma FromLe32Injective(a: seq<byte>, b: seq<byte>)
    requires |a| == |b| == 4 && FromLe32(a) == FromLe32(b)
    ensures a == b
  {
    Le32OfFromLe32(a);
    Le32OfFromLe32(b);
  }

  lemma Le32OfFromLe32(b: seq<byte>)
    requires |b| == 4
    ensures Le32(FromLe32(b)) == b
  {
    var n := FromLe32(b);
    var m1, m2, m3 := b[1] as int + b[2] as int * 0x100 + b[3] as int * 0x1_0000, b[2] as int + b[3] as int * 0x100, b[3];
    LastDigit(n, m1, b[0]);
    LastDigit(m1, m2, b[1]);
    LastDigit(m2, m3, b[2]);
    assert n / 0x1_0000 == n / 0x100 / 0x100 && n / 0x100_0000 == n / 0x100 / 0x100 / 0x100;
  }

  lemma LastDigit(n: nat, m: nat, b: byte)
    requires n == m * 0x100 + b
    ensures n / 0x100 == m && n % 0x100 == b
  {
  }
}
