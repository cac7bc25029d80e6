/**
 PkiObjectPsa.c: a public key as SubjectPublicKeyInfo (section 4.1 of RFC 5280, section 2 of
 RFC 5480), built backwards in one buffer with the length kept in separate counters, and the
 key generation that later cuts the point back off the end.
 */
module Spki {
  import opened Bytes
  import opened Der
  import opened DerWriter

  /** id-ecPublicKey, 1.2.840.10045.2.1, and secp256r1, 1.2.840.10045.3.1.7. */
  const EC_PUBLIC_KEY: seq<byte> := [0x2A, 0x86, 0x48, 0xCE, 0x3D, 0x02, 0x01]
  const SECP256R1: seq<byte> := [0x2A, 0x86, 0x48, 0xCE, 0x3D, 0x03, 0x01, 0x07]

  /** The octets of an uncompressed P-256 point. */
  const P256_POINT_LEN: nat := 65

  const PSA_SUCCESS: int := 0
  const PSA_ERROR_GENERIC_ERROR: int := -132
  const PSA_ERROR_NOT_SUPPORTED: int := -134
  const PSA_ERROR_INVALID_ARGUMENT: int := -135
  const PSA_ERROR_INVALID_HANDLE: int := -136
  const PSA_ERROR_BUFFER_TOO_SMALL: int := -138
  const PSA_ERROR_ALREADY_EXISTS: int := -139
  const PSA_ERROR_INSUFFICIENT_MEMORY: int := -141
  const PSA_ERROR_STORAGE_FAILURE: int := -146
  const PSA_ERROR_INSUFFICIENT_ENTROPY: int := -148
  const PSA_ERROR_CORRUPTION_DETECTED: int := -151
  const FEATURE_UNAVAILABLE: int := -0x3980

  // ---------------------------------------------------------------- the format

  function AlgorithmIdentifier(curve: seq<byte>): seq<byte> {
    Tlv(TAG_SEQUENCE, Tlv(TAG_OID, EC_PUBLIC_KEY) + Tlv(TAG_OID, curve))
  }

  function SubjectPublicKeyInfo(curve: seq<byte>, point: seq<byte>): seq<byte> {
    Tlv(TAG_SEQUENCE, AlgorithmIdentifier(curve) + Tlv(TAG_BIT_STRING, [0] + point))
  }

  /** The curve and the point of a SubjectPublicKeyInfo for an elliptic curve key. */
  function ParseSpki(b: seq<byte>): Option<(seq<byte>, seq<byte>)> {
    match ParseTlv(0x30, b)
    case None => None
    case Some((c, rest)) =>
      match ParseTlv(0x30, c)
      case None => None
      case Some((alg, key)) =>
        match (ParseAlgorithm(alg), ParseTlv(0x03, key))
        case (Some(curve), Some((bits, tail))) =>
          if rest == [] && tail == [] && bits != [] && bits[0] == 0 then Some((curve, bits[1..])) else None
        case _ => None
  }

  function ParseAlgorithm(alg: seq<byte>): Option<seq<byte>> {
    match ParseTlv(0x06, alg)
    case None => None
    case Some((oid, params)) =>
      match ParseTlv(0x06, params)
      case None => None
      case Some((curve, tail)) =>
        if oid == [0x2A, 0x86, 0x48, 0xCE, 0x3D, 0x02, 0x01] && tail == [] then Some(curve) else None
  }

  lemma AlgorithmCanonical(alg: seq<byte>, curve: seq<byte>)
    requires |curve| < 0x80
    ensures ParseAlgorithm(alg) == Some(curve) <==> alg == Tlv(TAG_OID, EC_PUBLIC_KEY) + Tlv(TAG_OID, curve)
  {
    hide Tlv, ParseTlv;
    var e, c := Tlv(TAG_OID, EC_PUBLIC_KEY), Tlv(TAG_OID, curve);
    ParseTlvOfTlv(TAG_OID, EC_PUBLIC_KEY, c);
    assert c == c + [];
    ParseTlvOfTlv(TAG_OID, curve, []);
    if ParseAlgorithm(alg) == Some(curve) {
      TlvOfParseTlv(TAG_OID, alg);
      var params := ParseTlv(TAG_OID, alg).value.1;
      TlvOfParseTlv(TAG_OID, params);
    }
  }

  /** SubjectPublicKeyInfo is the one octet string that reads as the given curve and point. */
  lemma SpkiIsCanonical(b: seq<byte>, curve: seq<byte>, point: seq<byte>)
    requires |curve| < 0x80 && |point| < 0x1_0000
    ensures ParseSpki(b) == Some((curve, point)) <==> b == SubjectPublicKeyInfo(curve, point)
  {
    hide Tlv, ParseTlv, ParseAlgorithm, Length;
    var params := Tlv(TAG_OID, EC_PUBLIC_KEY) + Tlv(TAG_OID, curve);
    var bits := [0] + point;
    var alg, key := Tlv(TAG_SEQUENCE, params), Tlv(TAG_BIT_STRING, bits);
    Sizes(curve, point);
    assert SubjectPublicKeyInfo(curve, point) == Tlv(TAG_SEQUENCE, alg + key);
    if b == SubjectPublicKeyInfo(curve, point) {
      assert b == b + [];
      ParseTlvOfTlv(TAG_SEQUENCE, alg + key, []);
      ParseTlvOfTlv(TAG_SEQUENCE, params, key);
      AlgorithmCanonical(params, curve);
      assert key == key + [];
      ParseTlvOfTlv(TAG_BIT_STRING, bits, []);
      assert bits[1..] == point;
    }
    if ParseSpki(b) == Some((curve, point)) {
      TlvOfParseTlv(TAG_SEQUENCE, b);
      var c := ParseTlv(TAG_SEQUENCE, b).value.0;
      TlvOfParseTlv(TAG_SEQUENCE, c);
      var (a, k) := ParseTlv(TAG_SEQUENCE, c).value;
      AlgorithmCanonical(a, curve);
      TlvOfParseTlv(TAG_BIT_STRING, k);
      var d := ParseTlv(TAG_BIT_STRING, k).value.0;
      assert d == [0] + point;
      assert k == key + [] == key && b == Tlv(TAG_SEQUENCE, c) + [] == Tlv(TAG_SEQUENCE, c);
    }
  }

  lemma Sizes(curve: seq<byte>, point: seq<byte>)
    requires |curve| < 0x80 && |point| < 0x1_0000
    ensures |Tlv(TAG_OID, EC_PUBLIC_KEY)| == 9
    ensures |Tlv(TAG_OID, curve)| <= |curve| + 6
    ensures |AlgorithmIdentifier(curve)| <= |curve| + 21
    ensures |Tlv(TAG_BIT_STRING, [0] + point)| <= |point| + 7
    ensures |AlgorithmIdentifier(curve) + Tlv(TAG_BIT_STRING, [0] + point)| < 0x2_0000
  {
    LengthSize(7);
    LengthSize(|curve|);
    LengthSize(|Tlv(TAG_OID, EC_PUBLIC_KEY) + Tlv(TAG_OID, curve)|);
    LengthSize(1 + |point|);
  }

  // ---------------------------------------------------------------- status translation

  /**
   mbedtls_to_psa_error, reduced to the codes of mbedTLS's low-level modules. The remainder
   mod 128 is taken of positive returns too, which are lengths and not errors.
   */
  function ToPsaError(ret: int): int {
    var low := (-ret) % 0x80;
    if low == 0 then
      if ret == FEATURE_UNAVAILABLE then PSA_ERROR_NOT_SUPPORTED
      else if ret < 0 then PSA_ERROR_GENERIC_ERROR else PSA_SUCCESS
    else if low in {0x20, 0x22, 0x24, 0x36, 0x38} then PSA_ERROR_NOT_SUPPORTED
    else if low in {0x60, 0x62, 0x64, 0x66, 0x68, 0x04, 0x06, 0x0A, 0x0C, 0x0E} then PSA_ERROR_INVALID_ARGUMENT
    else if low in {0x6A, 0x10} then PSA_ERROR_INSUFFICIENT_MEMORY
    else if low in {0x6C, 0x08} then PSA_ERROR_BUFFER_TOO_SMALL
    else if low in {0x34, 0x3A, 0x3C, 0x3D, 0x40} then PSA_ERROR_INSUFFICIENT_ENTROPY
    else if low == 0x02 then PSA_ERROR_STORAGE_FAILURE
    else if low == 0x6E then PSA_ERROR_CORRUPTION_DETECTED
    else if ret < 0 then PSA_ERROR_GENERIC_ERROR
    else PSA_SUCCESS
  }

  /** A positive return that the translation does not mistake for an error. */
  predicate ReadsAsSuccess(written: nat) {
    ToPsaError(written) == PSA_SUCCESS
  }

  lemma StatusOfOneOctet()
    ensures ToPsaError(1) == PSA_SUCCESS && ToPsaError(BUF_TOO_SMALL) == PSA_ERROR_BUFFER_TOO_SMALL
  {
  }

  // ---------------------------------------------------------------- the builder

  /** mbedtls_asn1_write_oid. */
  method WriteOid(a: array<byte>, p: nat, start: nat, oid: seq<byte>) returns (ret: int, q: nat)
    requires start <= p <= a.Length < LENGTH_LIMIT && |oid| < LENGTH_LIMIT
    modifies a
    ensures start <= q && Framed(old(a[..]), a[..], start, p)
    ensures var t := Tlv(TAG_OID, oid);
            if |t| <= p - start then ret == |t| == p - q && a[q..p] == t else ret == BUF_TOO_SMALL
  {
    hide Tlv, Length;
    ghost var s0 := a[..];
    ret, q := WriteBytes(a, p, start, oid);
    WroteIsFramed(s0, a[..], start, q, p, if ret < 0 then [] else oid);
    if ret < 0 { return; }
    ghost var s1, mid := a[..], q;
    assert a[q..q + |oid|] == oid;
    ret, q := WriteHeader(a, q, start, |oid|, TAG_OID, oid);
    FramedTwice(s0, s1, a[..], start, mid, p);
    if ret >= 0 { ret := ret + |oid|; }
  }

  /** mbedtls_asn1_write_algorithm_identifier, the parameters already written at p. */
  method WriteAlgorithmIdentifier(a: array<byte>, p: nat, parLen: nat, ghost curve: seq<byte>)
    returns (ret: int, q: nat)
    requires p + parLen <= a.Length < LENGTH_LIMIT - 9 && |curve| < 0x80
    requires parLen == |Tlv(TAG_OID, curve)| && a[p..p + parLen] == Tlv(TAG_OID, curve)
    modifies a
    ensures Framed(old(a[..]), a[..], 0, p)
    ensures var t := AlgorithmIdentifier(curve);
            if |t| <= p + parLen then ret == |t| == p + parLen - q && a[q..p + parLen] == t else ret == BUF_TOO_SMALL
  {
    hide Tlv, Length;
    ghost var s0 := a[..];
    ghost var params, oid := Tlv(TAG_OID, curve), Tlv(TAG_OID, EC_PUBLIC_KEY);
    Sizes(curve, []);
    ret, q := WriteOid(a, p, 0, EC_PUBLIC_KEY);
    if ret < 0 { return; }
    var len := ret + parLen;
    ghost var s1, mid := a[..], q;
    assert a[q..p + parLen] == oid + params by {
      assert a[q..p + parLen] == a[q..p] + a[p..p + parLen];
      assert a[p..][..parLen] == s0[p..][..parLen] == params;
    }
    ret, q := WriteHeader(a, q, 0, len, TAG_SEQUENCE, oid + params);
    FramedTwice(s0, s1, a[..], 0, mid, p);
    if ret >= 0 { ret := ret + len; }
  }

  /** psa_export_public_key to the buffer's front, the move to its end, and the zero octet. */
  method PutPoint(buf: array<byte>, point: seq<byte>) returns (p: nat)
    requires |point| + 1 <= buf.Length
    modifies buf
    ensures p == buf.Length - (|point| + 1) && buf[p..p + (|point| + 1)] == [0] + point
  {
    hide Wrote;
    var n := |point|;
    CopyInto(buf, 0, point);
    p := buf.Length - n;
    ghost var s0 := buf[..];
    assert s0[0..0 + n] == point;
    MemMove(buf, p, 0, n);
    ghost var s1 := buf[..];
    WroteTail(s0, s1, p, point);
    p := p - 1;
    buf[p] := 0;
    assert buf[..] == s1[p := 0];
    ZeroInFront(s1, p, point);
  }

  lemma WroteTail(s0: seq<byte>, s1: seq<byte>, p: nat, bytes: seq<byte>)
    requires Wrote(s0, s1, p, p + |bytes|, bytes) && p + |bytes| == |s0|
    ensures |s1| == |s0| && s1[p..] == bytes
  {
  }

  lemma ZeroInFront(s: seq<byte>, p: nat, tail: seq<byte>)
    requires p < |s| && s[p + 1..] == tail
    ensures s[p := 0][p..p + (|tail| + 1)] == [0] + tail
  {
    assert s[p := 0][p + 1..] == tail;
  }

  /** The exported point at the end of the buffer, a zero octet and the BIT STRING header before it. */
  method WriteSubjectPublicKey(buf: array<byte>, point: seq<byte>) returns (status: int, p: nat)
    requires |point| < 0x1_0000 && |point| + 1 <= buf.Length < LENGTH_LIMIT
    modifies buf
    ensures var t := Tlv(TAG_BIT_STRING, [0] + point);
            if |t| <= buf.Length then status == PSA_SUCCESS && p == buf.Length - |t| && buf[p..] == t
            else status == PSA_ERROR_BUFFER_TOO_SMALL
  {
    hide Tlv, Length, ToPsaError, Wrote;
    StatusOfOneOctet();
    var n := |point|;
    p := PutPoint(buf, point);
    var k, mid := 0, p;
    k, p := WriteHeader(buf, p, 0, n + 1, TAG_BIT_STRING, [0] + point);
    status := if k > 0 then PSA_SUCCESS else ToPsaError(k);
    if k > 0 { assert buf[p..] == buf[p..mid + (n + 1)]; }
  }

  /** The status the builder ends with, in the order in which it can fail. */
  function BuildOutcome(curve: seq<byte>, point: seq<byte>, bufLen: nat): (status: int)
    ensures status == PSA_SUCCESS <==>
            && curve != [] && |SubjectPublicKeyInfo(curve, point)| <= bufLen
            && ReadsAsSuccess(|Tlv(TAG_OID, curve)|) && ReadsAsSuccess(|AlgorithmIdentifier(curve)|)
  {
    var key, oid, alg := |Tlv(TAG_BIT_STRING, [0] + point)|, |Tlv(TAG_OID, curve)|, |AlgorithmIdentifier(curve)|;
    if key > bufLen then PSA_ERROR_BUFFER_TOO_SMALL
    else if curve == [] then PSA_ERROR_NOT_SUPPORTED
    else if oid + key > bufLen then PSA_ERROR_BUFFER_TOO_SMALL
    else if !ReadsAsSuccess(oid) then ToPsaError(oid)
    else if alg + key > bufLen then PSA_ERROR_BUFFER_TOO_SMALL
    else if !ReadsAsSuccess(alg) then ToPsaError(alg)
    else if |SubjectPublicKeyInfo(curve, point)| > bufLen then PSA_ERROR_BUFFER_TOO_SMALL
    else PSA_SUCCESS
  }

  /** The AlgorithmIdentifier in front of the key that starts at p, curve first. */
  method WriteAlgorithm(buf: array<byte>, p: nat, curve: seq<byte>) returns (status: int, len: nat, q: nat)
    requires p <= buf.Length < LENGTH_LIMIT - 9 && |curve| < 0x80
    modifies buf
    ensures Framed(old(buf[..]), buf[..], 0, p)
    ensures var oid, alg := |Tlv(TAG_OID, curve)|, |AlgorithmIdentifier(curve)|;
            if curve == [] then status == PSA_ERROR_NOT_SUPPORTED
            else if oid > p then status == PSA_ERROR_BUFFER_TOO_SMALL
            else if !ReadsAsSuccess(oid) then status == ToPsaError(oid)
            else if alg > p then status == PSA_ERROR_BUFFER_TOO_SMALL
            else status == ToPsaError(alg) && len == alg == p - q && buf[q..p] == AlgorithmIdentifier(curve)
  {
    hide Tlv, Length;
    len, q := 0, p;
    ghost var s0 := buf[..];
    var k := 0;
    if curve == [] { return ToPsaError(FEATURE_UNAVAILABLE), len, q; }
    k, q := WriteOid(buf, p, 0, curve);
    if k > 0 { len := k; }
    status := ToPsaError(k);
    if status != PSA_SUCCESS { return; }
    ghost var s1, mid := buf[..], q;
    k, q := WriteAlgorithmIdentifier(buf, q, len, curve);
    FramedTwice(s0, s1, buf[..], 0, mid, p);
    if k > 0 { len := k; }
    status := ToPsaError(k);
  }

  /**
   xReadPublicKeyFromPSACrypto for an elliptic curve key whose export succeeds. On success
   the buffer starts with exactly the SubjectPublicKeyInfo of the curve and the point, and
   the byte count is its length.
   */
  method ReadPublicKey(buf: array<byte>, curve: seq<byte>, point: seq<byte>) returns (status: int, derLen: nat)
    requires buf.Length < 0x1_0000_0000 - 9 && |curve| < 0x80 && |point| < 0x1_0000
    modifies buf
    ensures status == BuildOutcome(curve, point, buf.Length)
    ensures if status == PSA_SUCCESS
            then var e := SubjectPublicKeyInfo(curve, point);
                 derLen == |e| <= buf.Length && buf[..derLen] == e
            else derLen == 0
  {
    hide Tlv, Length, AlgorithmIdentifier, ToPsaError;
    derLen := 0;
    Sizes(curve, point);
    StatusOfOneOctet();
    if buf.Length < |point| + 1 { return PSA_ERROR_BUFFER_TOO_SMALL, 0; }
    var p;
    ghost var key, alg := Tlv(TAG_BIT_STRING, [0] + point), AlgorithmIdentifier(curve);
    status, p := WriteSubjectPublicKey(buf, point);
    if status != PSA_SUCCESS { return; }
    var bytesWritten := buf.Length - p;
    var len;
    ghost var s1, mid := buf[..], p;
    status, len, p := WriteAlgorithm(buf, p, curve);
    if status != PSA_SUCCESS { return; }
    bytesWritten := bytesWritten + len;
    assert buf[p..p + bytesWritten] == alg + key by {
      assert buf[p..p + bytesWritten] == buf[p..mid] + buf[mid..];
    }
    var k;
    k, p := WriteHeader(buf, p, 0, bytesWritten, TAG_SEQUENCE, alg + key);
    status := if k > 0 then ToPsaError(1) else ToPsaError(k);
    if k > 0 {
      bytesWritten := bytesWritten + k;
      ghost var s2 := buf[..];
      assert s2[p..p + bytesWritten] == SubjectPublicKeyInfo(curve, point);
      var derStart := buf.Length - bytesWritten;
      if derStart > 0 { MemMove(buf, 0, derStart, bytesWritten); }
      derLen := bytesWritten;
    }
  }

  // ---------------------------------------------------------------- which curves work

  /** P-256 keys convert in any buffer of at least 91 octets, and in no smaller one. */
  lemma P256Converts(point: seq<byte>, bufLen: nat)
    requires |point| == P256_POINT_LEN
    ensures |SubjectPublicKeyInfo(SECP256R1, point)| == 91
    ensures BuildOutcome(SECP256R1, point, bufLen) == PSA_SUCCESS <==> bufLen >= 91
  {
  }

  lemma P256Algorithm()
    ensures AlgorithmIdentifier(SECP256R1)
            == [0x30, 0x13, 0x06, 0x07, 0x2A, 0x86, 0x48, 0xCE, 0x3D, 0x02, 0x01,
                0x06, 0x08, 0x2A, 0x86, 0x48, 0xCE, 0x3D, 0x03, 0x01, 0x07]
  {
    hide Tlv;
    ShortTlv(TAG_OID, EC_PUBLIC_KEY);
    ShortTlv(TAG_OID, SECP256R1);
    ShortTlv(TAG_SEQUENCE, Tlv(TAG_OID, EC_PUBLIC_KEY) + Tlv(TAG_OID, SECP256R1));
  }

  /** The 91 octets of a P-256 key: 26 that never change, then the point. */
  lemma P256Octets(point: seq<byte>)
    requires |point| == 65
    ensures SubjectPublicKeyInfo(SECP256R1, point)
            == [0x30, 0x59, 0x30, 0x13, 0x06, 0x07, 0x2A, 0x86, 0x48, 0xCE, 0x3D, 0x02, 0x01,
                0x06, 0x08, 0x2A, 0x86, 0x48, 0xCE, 0x3D, 0x03, 0x01, 0x07, 0x03, 0x42, 0x00] + point
  {
    hide Tlv, AlgorithmIdentifier;
    P256Algorithm();
    ShortTlv(TAG_BIT_STRING, [0] + point);
    var alg, key := AlgorithmIdentifier(SECP256R1), Tlv(TAG_BIT_STRING, [0] + point);
    ShortTlv(TAG_SEQUENCE, alg + key);
    var head: seq<byte> := [0x30, 0x59] + alg + [0x03, 0x42, 0x00];
    assert [0x30, 0x59] + (alg + key) == head + point by { hide AlgorithmIdentifier; }
  }

  /**
   Which positive lengths are taken for error codes, and which codes matter most: 18, 20 and
   22 are what the shortest curve identifiers lead to.
   */
  lemma MisreadLengths(n: nat)
    requires 1 <= n <= 127
    ensures ReadsAsSuccess(n)
            <==> n !in {18, 20, 22, 24, 26, 28, 30, 32, 64, 67, 68, 70, 72, 74, 76, 92, 94, 96,
                        112, 114, 116, 118, 120, 122, 124, 126}
    ensures ToPsaError(18) == -151 && ToPsaError(20) == -138 && ToPsaError(22) == -141
    ensures ToPsaError(-0x6C) == -138 && ToPsaError(-0x3980) == -134
  {
  }

  /** The builder's statuses by number. */
  lemma BuildStatuses(curve: seq<byte>, point: seq<byte>, bufLen: nat)
    ensures var status := BuildOutcome(curve, point, bufLen);
            var key, alg := |Tlv(TAG_BIT_STRING, [0] + point)|, |AlgorithmIdentifier(curve)|;
            && (curve == [] ==> status == if key > bufLen then -138 else -134)
            && (1 <= |curve| <= 10 ==>
                  status == if alg + key > bufLen then -138
                            else if |curve| == 5 then -151 else if |curve| == 7 then -138 else if |curve| == 9 then -141
                            else if |SubjectPublicKeyInfo(curve, point)| > bufLen then -138 else 0)
  {
    hide SubjectPublicKeyInfo, ToPsaError;
    MisreadLengths(18);
    if 1 <= |curve| <= 10 {
      assert |Tlv(TAG_OID, curve)| == |curve| + 2 && |AlgorithmIdentifier(curve)| == |curve| + 13;
      LowCodes(|curve|);
    }
  }

  /**
   Which named curves work: an object identifier of 5, 7 or 9 octets makes the length of the
   AlgorithmIdentifier, 18, 20 or 22, read as an error code, and no buffer helps. The
   identifiers of secp384r1 and secp521r1 have 5 octets, those of the Brainpool curves 9.
   */
  lemma WhichCurvesConvert(curve: seq<byte>, point: seq<byte>, bufLen: nat)
    requires 1 <= |curve| <= 10
    ensures BuildOutcome(curve, point, bufLen) == PSA_SUCCESS
            <==> |curve| != 5 && |curve| != 7 && |curve| != 9 && |SubjectPublicKeyInfo(curve, point)| <= bufLen
  {
    hide SubjectPublicKeyInfo;
    assert |Tlv(TAG_OID, curve)| == |curve| + 2 && |AlgorithmIdentifier(curve)| == |curve| + 13;
    LowCodes(|curve|);
  }

  lemma LowCodes(n: nat)
    requires 1 <= n <= 10
    ensures ReadsAsSuccess(n + 2) && (ReadsAsSuccess(n + 13) <==> n != 5 && n != 7 && n != 9)
  {
  }

  /** The first failing case, spelled out: a P-384 key, whose curve is 1.3.132.0.34, is refused as if memory were corrupted. */
  lemma P384NeverConverts(point: seq<byte>, bufLen: nat)
    requires |Tlv(TAG_BIT_STRING, [0] + point)| + 18 <= bufLen
    ensures BuildOutcome([0x2B, 0x81, 0x04, 0x00, 0x22], point, bufLen) == -151
  {
  }

  /** The point is the tail of the value, which is what key generation imports. */
  lemma PointIsTail(point: seq<byte>)
    requires |point| < 0x1_0000
    ensures var e := SubjectPublicKeyInfo(SECP256R1, point); |point| <= |e| && e[|e| - |point|..] == point
  {
  }

  // ---------------------------------------------------------------- key generation

  datatype Key = KeyPair(point: seq<byte>) | PublicKey(point: seq<byte>)

  /** Statuses with which the secure side refuses a request; PSA_SUCCESS where it does not. */
  datatype Refusals = Refusals(destroyPrv: int, destroyPub: int, generate: int, import_: int)

  class KeyStore {
    var keys: map<nat, Key>

    constructor ()
      ensures keys == map[]
    {
      keys := map[];
    }

    /** psa_destroy_key: a missing key is reported as an invalid handle. */
    method Destroy(id: nat, refusal: int) returns (status: int)
      modifies this
      ensures status == if refusal != PSA_SUCCESS then refusal
                        else if id in old(keys) then PSA_SUCCESS else PSA_ERROR_INVALID_HANDLE
      ensures keys == if status == PSA_SUCCESS then old(keys) - {id} else old(keys)
    {
      if refusal != PSA_SUCCESS { return refusal; }
      if id !in keys { return PSA_ERROR_INVALID_HANDLE; }
      keys := keys - {id};
      status := PSA_SUCCESS;
    }

    /** psa_generate_key and psa_import_key: a fresh key under an unused identifier. */
    method Create(id: nat, key: Key, refusal: int) returns (status: int)
      modifies this
      ensures status == if refusal != PSA_SUCCESS then refusal
                        else if id in old(keys) then PSA_ERROR_ALREADY_EXISTS else PSA_SUCCESS
      ensures keys == if status == PSA_SUCCESS then old(keys)[id := key] else old(keys)
    {
      if refusal != PSA_SUCCESS { return refusal; }
      if id in keys { return PSA_ERROR_ALREADY_EXISTS; }
      keys := keys[id := key];
      status := PSA_SUCCESS;
    }

    /**
     lGenerateKeyPairECPsaCrypto, where the secure side would generate a key with the given
     point. A success leaves the pair under one identifier, its point alone under the other,
     and returns the point's SubjectPublicKeyInfo; no other key is touched in any case. A
     failure names the first step that failed, and leaves behind what was done before it.
     */
    method GenerateKeyPairEC(prvId: nat, pubId: nat, point: seq<byte>, derMax: nat, refusals: Refusals)
      returns (status: int, der: seq<byte>)
      requires |point| == P256_POINT_LEN && derMax < 0x1_0000_0000 - 9
      requires refusals.destroyPrv != PSA_ERROR_INVALID_HANDLE && refusals.destroyPub != PSA_ERROR_INVALID_HANDLE
      modifies this
      ensures status == PSA_SUCCESS <==>
              prvId != 0 && pubId != 0 && prvId != pubId && derMax >= 91 && refusals == Refusals(0, 0, 0, 0)
      ensures status == PSA_SUCCESS ==>
              && keys == old(keys)[prvId := KeyPair(point)][pubId := PublicKey(point)]
              && ParseSpki(der) == Some((SECP256R1, point))
      ensures status != PSA_SUCCESS ==> der == []
      ensures keys - {prvId, pubId} == old(keys) - {prvId, pubId}
      ensures status == if prvId == 0 || pubId == 0 then -136
                        else if refusals.destroyPrv != 0 then refusals.destroyPrv
                        else if refusals.destroyPub != 0 then refusals.destroyPub
                        else if refusals.generate != 0 then refusals.generate
                        else if derMax < 91 then -138
                        else if refusals.import_ != 0 then refusals.import_
                        else if prvId == pubId then -139 else 0
      ensures status != PSA_SUCCESS ==>
              keys == if prvId == 0 || pubId == 0 || refusals.destroyPrv != 0 then old(keys)
                      else if refusals.destroyPub != 0 then old(keys) - {prvId}
                      else if refusals.generate != 0 then old(keys) - {prvId, pubId}
                      else (old(keys) - {prvId, pubId})[prvId := KeyPair(point)]
    {
      hide SubjectPublicKeyInfo, BuildOutcome, ParseSpki;
      der := [];
      if prvId == 0 || pubId == 0 { return PSA_ERROR_INVALID_HANDLE, der; }
      status := Destroy(prvId, refusals.destroyPrv);
      if status == PSA_ERROR_INVALID_HANDLE { status := PSA_SUCCESS; }
      if status == PSA_SUCCESS { status := Destroy(pubId, refusals.destroyPub); }
      if status == PSA_ERROR_INVALID_HANDLE { status := PSA_SUCCESS; }
      if status != PSA_SUCCESS { return; }
      assert keys == old(keys) - {prvId, pubId};
      status := Create(prvId, KeyPair(point), refusals.generate);
      if status != PSA_SUCCESS { return; }

      P256Converts(point, derMax);
      BuildStatuses(SECP256R1, point, derMax);
      PointIsTail(point);
      SpkiIsCanonical(SubjectPublicKeyInfo(SECP256R1, point), SECP256R1, point);
      var buf, derLen := new byte[derMax](_ => 0), 0;
      status, derLen := ReadPublicKey(buf, SECP256R1, point);
      if status != PSA_SUCCESS { return; }
      der := buf[..derLen];
      status := Create(pubId, PublicKey(der[derLen - P256_POINT_LEN..]), refusals.import_);
      if status != PSA_SUCCESS { der := []; }
    }
  }
}
