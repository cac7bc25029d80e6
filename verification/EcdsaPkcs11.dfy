/**
 mbedtls_pk_pkcs11.c: the PKCS#11 transport's own conversion of a raw ECDSA signature. It
 builds the value in a scratch buffer, keeps leading zeros, and copies the result back.
 The second half compares it with the conversion of psa_util.c.
 */
module EcdsaPkcs11 {
  import opened Bytes
  import opened Der
  import opened DerWriter
  import EcdsaPsa

  /**
   The content octets of one component. The sign test looks at the octet where the
   component starts, which for an empty component is whatever lies there.
   */
  function Padded(first: byte, component: seq<byte>): (c: seq<byte>)
    ensures |component| <= |c| <= |component| + 1
  {
    if first > 0x7F then [0] + component else component
  }

  /** The value built from a buffer whose first sigLen octets are a raw signature. */
  function RawSig(sig: seq<byte>, sigLen: nat): seq<byte>
    requires sigLen < |sig|
  {
    var h := sigLen / 2;
    Tlv(TAG_SEQUENCE, Tlv(TAG_INTEGER, Padded(sig[0], sig[..h])) + Tlv(TAG_INTEGER, Padded(sig[h], sig[h..h + h])))
  }

  /** The octet string, and a zero octet before it where its first octet asks for one. */
  method WritePadded(buf: array<byte>, pos: nat, first: byte, component: seq<byte>) returns (q: nat)
    requires |Padded(first, component)| <= pos <= buf.Length
    modifies buf
    ensures Wrote(old(buf[..]), buf[..], q, pos, Padded(first, component))
  {
    hide Wrote;
    ghost var s0 := buf[..];
    var ret;
    ret, q := WriteBytes(buf, pos, 0, component);
    ghost var s1, mid := buf[..], q;
    WroteBounds(s0, s1, q, pos, component);
    if first > 0x7F {
      ret, q := WriteTag(buf, q, 0, 0);
      WroteTwice(s0, s1, buf[..], q, mid, pos, component, [0]);
    }
  }

  lemma WroteBounds(s0: seq<byte>, s1: seq<byte>, q: nat, pos: nat, bytes: seq<byte>)
    requires Wrote(s0, s1, q, pos, bytes)
    ensures q + |bytes| == pos <= |s0| == |s1| && s1[q..q + |bytes|] == bytes
  {
  }

  /** prvASN1WriteBigIntFromOctetStr: a component as an INTEGER that ends at `pos`. */
  method WriteBigIntFromOctetStr(buf: array<byte>, pos: nat, src: array<byte>, off: nat, n: nat)
    returns (ret: int, q: nat)
    requires buf != src && pos <= buf.Length < LENGTH_LIMIT && off < src.Length && off + n <= src.Length
    modifies buf
    ensures Framed(old(buf[..]), buf[..], 0, pos)
    ensures var tlv := Tlv(TAG_INTEGER, Padded(src[off], src[off..off + n]));
            if |tlv| <= pos then ret == |tlv| == pos - q && buf[q..pos] == tlv else ret <= 0
  {
    hide Length, Tlv, Wrote;
    var required := if src[off] > 0x7F then n + 1 else n;
    ret, q := 0, pos;
    if pos >= required {
      ghost var s0, content := buf[..], Padded(src[off], src[off..off + n]);
      q := WritePadded(buf, pos, src[off], src[off..off + n]);
      ghost var s2, low := buf[..], q;
      WroteBounds(s0, s2, q, pos, content);
      WroteIsFramed(s0, s2, 0, q, pos, content);
      ret, q := WriteHeader(buf, q, 0, required, TAG_INTEGER, content);
      FramedTwice(s0, s2, buf[..], 0, low, pos);
      if ret > 0 { ret := ret + required; }
    }
  }

  /** Both components, the second one first. */
  method WriteComponents(buf: array<byte>, sig: array<byte>, h: nat) returns (ret: int, p: nat)
    requires buf != sig && buf.Length < LENGTH_LIMIT && h + h <= sig.Length && h < sig.Length
    modifies buf
    ensures var r := Tlv(TAG_INTEGER, Padded(sig[0], sig[..h]));
            var s := Tlv(TAG_INTEGER, Padded(sig[h], sig[h..h + h]));
            if |r| + |s| <= buf.Length then ret == |r| + |s| == buf.Length - p && buf[p..] == r + s else ret <= 0
  {
    hide Tlv, Padded;
    ghost var r := Tlv(TAG_INTEGER, Padded(sig[0], sig[..h]));
    ghost var s := Tlv(TAG_INTEGER, Padded(sig[h], sig[h..h + h]));
    var len;
    len, p := WriteBigIntFromOctetStr(buf, buf.Length, sig, h, h);
    if len <= 0 { return len, p; }
    ghost var s1, mid := buf[..], p;
    assert sig[0..0 + h] == sig[..h];
    ret, p := WriteBigIntFromOctetStr(buf, p, sig, 0, h);
    if ret > 0 {
      EcdsaPsa.Adjacent(s1, buf[..], p, mid, buf.Length, r, s);
      ret := ret + len;
    }
  }

  /**
   prvEcdsaSigToASN1InPlace: succeeds exactly when the value fits both the scratch buffer
   (of scratchSize octets) and the caller's; a failure leaves the signature as it was.
   */
  method SigToAsn1InPlace(sig: array<byte>, bufSize: nat, sigLen: nat, scratchSize: nat)
    returns (ret: int, newLen: nat)
    requires sigLen < bufSize <= sig.Length && scratchSize < LENGTH_LIMIT
    modifies sig
    ensures var e := RawSig(old(sig[..]), sigLen);
            if |e| <= scratchSize && |e| <= bufSize
            then ret == 0 && newLen == |e| && sig[..newLen] == e && sig[newLen..] == old(sig[newLen..])
            else ret == -1 && newLen == sigLen && sig[..] == old(sig[..])
  {
    hide Tlv, Padded;
    var h := sigLen / 2;
    ghost var s0 := sig[..];
    assert s0[..h] == sig[..h] && s0[h..h + h] == sig[h..h + h];
    ghost var content := Tlv(TAG_INTEGER, Padded(sig[0], sig[..h])) + Tlv(TAG_INTEGER, Padded(sig[h], sig[h..h + h]));
    ghost var e := RawSig(s0, sigLen);
    assert e == Tlv(TAG_SEQUENCE, content);
    hide RawSig;
    var scratch := new byte[scratchSize](_ => 0);
    var len, p;
    len, p := WriteComponents(scratch, sig, h);
    if len > 0 {
      var k;
      k, p := WriteHeader(scratch, p, 0, len, TAG_SEQUENCE, content);
      if k > 0 {
        len := len + k;
        if len <= bufSize {
          assert scratch[p..p + len] == e;
          CopyInto(sig, 0, scratch[p..p + len]);
          assert sig[..len] == sig[0..0 + len];
          return 0, len;
        }
      }
    }
    ret, newLen := -1, sigLen;
  }

  // ---------------------------------------------------------------- the two conversions compared

  /** A first octet that adds nothing: zero, and not needed for the sign. */
  predicate RedundantZero(c: seq<byte>) {
    |c| >= 2 && c[0] == 0 && c[1] < 0x80
  }

  lemma PaddedValue(strict: bool, c: seq<byte>)
    requires c != []
    ensures ParseIntegerContent(strict, Padded(c[0], c)) == if strict && RedundantZero(c) then None else Some(BeNat(c))
  {
    hide BeNat;
    var p := Padded(c[0], c);
    if c[0] > 0x7F {
      BeNatLeadingZero(p);
      assert p[1..] == c;
    }
  }

  lemma ParseComponent(strict: bool, c: seq<byte>, rest: seq<byte>)
    requires 0 < |c| < LENGTH_LIMIT - 1
    ensures ParseInteger(strict, Tlv(TAG_INTEGER, Padded(c[0], c)) + rest)
            == if strict && RedundantZero(c) then None else Some((BeNat(c), rest))
  {
    hide Length, BeNat, Tlv, ParseTlv, Padded, ParseIntegerContent;
    ParseTlvOfTlv(TAG_INTEGER, Padded(c[0], c), rest);
    PaddedValue(strict, c);
  }

  /**
   A lenient reader always gets the two numbers back; a strict one does exactly when
   neither component starts with a redundant zero.
   */
  lemma RawSigReadsBack(strict: bool, sig: seq<byte>, sigLen: nat)
    requires 2 <= sigLen < |sig| && sigLen < 0x4000_0000
    ensures var h := sigLen / 2;
            var r, s := sig[..h], sig[h..h + h];
            ParseEcdsaSig(strict, RawSig(sig, sigLen))
            == if strict && (RedundantZero(r) || RedundantZero(s)) then None else Some((BeNat(r), BeNat(s)))
  {
    hide Tlv, Padded, BeNat, ParseInteger, ParseTlv;
    var h := sigLen / 2;
    var r, s := sig[..h], sig[h..h + h];
    var er, es := Tlv(TAG_INTEGER, Padded(r[0], r)), Tlv(TAG_INTEGER, Padded(s[0], s));
    LengthSize(|Padded(r[0], r)|);
    LengthSize(|Padded(s[0], s)|);
    assert RawSig(sig, sigLen) == Tlv(TAG_SEQUENCE, er + es);
    assert Tlv(TAG_SEQUENCE, er + es) == Tlv(TAG_SEQUENCE, er + es) + [];
    ParseTlvOfTlv(TAG_SEQUENCE, er + es, []);
    ParseComponent(strict, r, es);
    assert es == es + [];
    ParseComponent(strict, s, []);
  }

  /**
   On one raw signature the two conversions, where both succeed, mean the same numbers, and
   they write the same octets exactly when neither component starts with a redundant zero.
   */
  lemma ConversionsAgree(sig: seq<byte>, sigLen: nat)
    requires 2 <= sigLen < |sig| && sigLen < 0x4000_0000
    ensures var h := sigLen / 2;
            var r, s := sig[..h], sig[h..h + h];
            var psa, p11 := EcdsaSig(BeNat(r), BeNat(s)), RawSig(sig, sigLen);
            && ParseEcdsaSig(false, psa) == ParseEcdsaSig(false, p11) == Some((BeNat(r), BeNat(s)))
            && (psa == p11 <==> !RedundantZero(r) && !RedundantZero(s))
  {
    hide RawSig, ParseEcdsaSig, EcdsaSig, Integer, BeNat;
    var h := sigLen / 2;
    var r, s := sig[..h], sig[h..h + h];
    var vr, vs := BeNat(r), BeNat(s);
    CanonicalSize(r);
    CanonicalSize(s);
    RawSigReadsBack(true, sig, sigLen);
    RawSigReadsBack(false, sig, sigLen);
    EcdsaSigIsCanonical(RawSig(sig, sigLen), vr, vs);
    LenientReadsEcdsaSig(vr, vs);
  }

  lemma CanonicalSize(raw: seq<byte>)
    requires |raw| < 0x2000_0000
    ensures |Integer(BeNat(raw))| <= |raw| + 7
  {
    StripZerosIsCanonical(raw);
    LengthSize(|IntegerContent(BeNat(raw))|);
  }

  lemma LenientReadsEcdsaSig(r: nat, s: nat)
    requires |Integer(r)| + |Integer(s)| < LENGTH_LIMIT
    ensures ParseEcdsaSig(false, EcdsaSig(r, s)) == Some((r, s))
  {
    hide Tlv, ParseInteger, ParseTlv, IntegerContent;
    var c := Integer(r) + Integer(s);
    assert Tlv(TAG_SEQUENCE, c) == Tlv(TAG_SEQUENCE, c) + [];
    ParseTlvOfTlv(TAG_SEQUENCE, c, []);
    ParseIntegerOfInteger(false, r, Integer(s));
    assert Integer(s) == Integer(s) + [];
    ParseIntegerOfInteger(false, s, []);
  }
}
