/**
 psa_util.c: turning a raw ECDSA signature (r and s, equally long, back to back) into
 Ecdsa-Sig-Value, in the buffer that holds it. The result is built backwards from the
 buffer's end while the front still holds the part of the input not yet converted.
 */
module EcdsaPsa {
  import opened Bytes
  import opened Der
  import opened DerWriter

  /** No object is larger than a pointer difference can say. */
  const PTRDIFF_MAX: nat := 0x7FFF_FFFF

  /**
   Move the n octets at `start` so that they end at `p`, then step over their leading
   zeros. What is left between q and p is the shortest spelling of the number.
   */
  method MoveAndStrip(a: array<byte>, p: nat, start: nat, n: nat) returns (q: nat)
    requires start + n <= p <= a.Length
    modifies a
    ensures start <= q <= p && Framed(old(a[..]), a[..], start, p)
    ensures a[q..p] == BeBytes(BeNat(old(a[start..start + n])))
  {
    ghost var raw := a[start..start + n];
    var len := n;
    q := p - len;
    MemMove(a, q, start, len);
    assert a[q..p] == raw;
    WroteIsFramed(old(a[..]), a[..], start, q, p, raw);
    while len > 0 && a[q] == 0
      invariant start <= q <= p && len == p - q
      invariant StripZeros(a[q..p]) == StripZeros(raw)
    {
      assert a[q..p][1..] == a[q + 1..p];
      q := q + 1;
      len := len - 1;
    }
    StripZerosIsCanonical(raw);
  }

  /** A zero octet in front of the number where its first bit is set, if there is room. */
  method PadSign(a: array<byte>, p: nat, start: nat, q: nat) returns (ok: bool, q': nat)
    requires start <= q < p <= a.Length
    modifies a
    ensures Framed(old(a[..]), a[..], start, p)
    ensures ok <==> start + |SignPad(old(a[q..p]))| <= p
    ensures start <= q' <= p
    ensures ok ==> a[q'..p] == SignPad(old(a[q..p]))
  {
    q' := q;
    ok := true;
    ghost var s := a[..];
    if a[q] >= 0x80 {
      if q - start < 1 { return false, q; }
      q' := q - 1;
      a[q'] := 0;
      assert a[..] == s[..q'] + [0] + s[q..];
      WroteIsFramed(s, a[..], start, q', q, [0]);
      FramedTwice(s, s, a[..], start, q, p);
    }
  }

  /**
   Convert the n octets at `start` to an INTEGER that ends at `p`. Nothing below `start`
   or from `p` on is touched, whatever the outcome.
   */
  method WriteMpiBuf(a: array<byte>, p: nat, start: nat, n: nat) returns (ret: int, q: nat)
    requires start <= p <= a.Length <= PTRDIFF_MAX
    modifies a
    ensures start <= q && Framed(old(a[..]), a[..], start, p)
    ensures if p - start < n then ret == BUF_TOO_SMALL
            else
              var v := BeNat(old(a[start..start + n]));
              if v == 0 then ret == OUT_OF_DATA
              else if p - start < |Integer(v)| then ret == BUF_TOO_SMALL
              else ret == |Integer(v)| == p - q && a[q..p] == Integer(v)
  {
    hide Length, Tlv, BeBytes, BeNat;
    if p - start < n {
      return BUF_TOO_SMALL, p;
    }
    ghost var s0 := a[..];
    ghost var v := BeNat(a[start..start + n]);
    BeNatOfBeBytes(v);
    q := MoveAndStrip(a, p, start, n);
    if q == p {
      return OUT_OF_DATA, q;
    }
    ghost var s1 := a[..];
    var ok;
    ok, q := PadSign(a, p, start, q);
    FramedTwice(s0, s1, a[..], start, p, p);
    if !ok {
      return BUF_TOO_SMALL, q;
    }
    var len := p - q;
    ghost var s2, mid := a[..], q;
    ret, q := WriteHeader(a, q, start, len, TAG_INTEGER, IntegerContent(v));
    FramedTwice(s0, s2, a[..], start, mid, p);
    if ret >= 0 { ret := ret + len; }
  }

  /** The conversion's status is a function of the two numbers and the space alone. */
  function Outcome(r: nat, s: nat, half: nat, bufLen: nat): (ret: int)
    ensures ret == 0 <==> r != 0 && s != 0 && half + |Integer(s)| <= bufLen && |EcdsaSig(r, s)| <= bufLen
  {
    if s == 0 then OUT_OF_DATA
    else if half + |Integer(s)| > bufLen then BUF_TOO_SMALL
    else if r == 0 then OUT_OF_DATA
    else if |EcdsaSig(r, s)| > bufLen then BUF_TOO_SMALL
    else 0
  }

  /** The two failures by mbedTLS's number: a zero component that is reached, or too little space. */
  lemma OutcomeCodes(r: nat, s: nat, half: nat, bufLen: nat)
    ensures var ret := Outcome(r, s, half, bufLen);
            && (ret == -0x60 <==> s == 0 || (r == 0 && half + |Integer(s)| <= bufLen))
            && (ret == 0 || ret == -0x60 || ret == -0x6C)
  {
  }

  /** Two adjacent blocks, the second one written first. */
  lemma Adjacent(s1: seq<byte>, s2: seq<byte>, q: nat, mid: nat, end: nat, front: seq<byte>, back: seq<byte>)
    requires q <= mid <= end <= |s1| && Framed(s1, s2, 0, mid)
    requires s2[q..mid] == front && s1[mid..end] == back
    ensures s2[q..end] == front + back
  {
  }

  /** What writing both INTEGERs, s before r, must come to. */
  ghost predicate BothWritten(r: nat, s: nat, half: nat, bufLen: nat, ret: int, p: nat, after: seq<byte>)
    requires bufLen <= |after|
  {
    var er, es := Integer(r), Integer(s);
    if s == 0 then ret == OUT_OF_DATA
    else if half + |es| > bufLen then ret == BUF_TOO_SMALL
    else if r == 0 then ret == OUT_OF_DATA
    else if |er| + |es| > bufLen then ret == BUF_TOO_SMALL
    else ret == |er| + |es| == bufLen - p && after[p..bufLen] == er + es
  }

  /** Both INTEGERs, the second one first; the first component is read only after that. */
  method WriteBoth(sig: array<byte>, half: nat, bufLen: nat) returns (ret: int, p: nat)
    requires 2 * half <= bufLen <= sig.Length <= PTRDIFF_MAX
    modifies sig
    ensures Framed(old(sig[..]), sig[..], 0, bufLen)
    ensures BothWritten(BeNat(old(sig[..half])), BeNat(old(sig[half..half + half])), half, bufLen, ret, p, sig[..])
  {
    hide Integer, Length, Tlv, BeNat;
    ghost var s0 := sig[..];
    ghost var r, s := BeNat(sig[..half]), BeNat(sig[half..half + half]);
    var len;
    len, p := WriteMpiBuf(sig, bufLen, half, half);
    ghost var s1, mid := sig[..], p;
    assert Framed(s0, s1, 0, bufLen);
    if len < 0 { return len, p; }
    assert sig[0..0 + half] == s0[..half];
    ret, p := WriteMpiBuf(sig, p, 0, half);
    FramedTwice(s0, s1, sig[..], 0, mid, bufLen);
    if ret < 0 { return; }
    Adjacent(s1, sig[..], p, mid, bufLen, Integer(r), Integer(s));
    ret := ret + len;
  }

  /** The whole value at the end of the buffer, before it is moved to the front. */
  ghost predicate SigWritten(r: nat, s: nat, half: nat, bufLen: nat, ret: int, p: nat, after: seq<byte>)
    requires bufLen <= |after|
  {
    var e, status := EcdsaSig(r, s), Outcome(r, s, half, bufLen);
    if status != 0 then ret == status else ret == |e| == bufLen - p && after[p..bufLen] == e
  }

  method WriteSig(sig: array<byte>, half: nat, bufLen: nat) returns (ret: int, p: nat)
    requires 2 * half <= bufLen <= sig.Length <= PTRDIFF_MAX
    modifies sig
    ensures Framed(old(sig[..]), sig[..], 0, bufLen)
    ensures SigWritten(BeNat(old(sig[..half])), BeNat(old(sig[half..half + half])), half, bufLen, ret, p, sig[..])
    ensures ret >= 0 ==> ret == bufLen - p
  {
    hide Integer, Length, Tlv, BeNat;
    ghost var s0 := sig[..];
    ghost var r, s := BeNat(sig[..half]), BeNat(sig[half..half + half]);
    var len;
    len, p := WriteBoth(sig, half, bufLen);
    if len < 0 { return len, p; }
    ghost var s1, mid, content := sig[..], p, Integer(r) + Integer(s);
    ret, p := WriteHeader(sig, p, 0, len, TAG_SEQUENCE, content);
    FramedTwice(s0, s1, sig[..], 0, mid, bufLen);
    if ret >= 0 { ret := ret + len; }
  }

  /** What a conversion must come to: the status, and on success the exact DER at the front. */
  ghost predicate Converted(r: nat, s: nat, half: nat, bufLen: nat, ret: int, newLen: nat, after: seq<byte>) {
    var e := EcdsaSig(r, s);
    ret == Outcome(r, s, half, bufLen) && (ret == 0 ==> newLen == |e| <= bufLen && newLen <= |after| && after[..newLen] == e)
  }

  lemma WrittenThenMoved(r: nat, s: nat, half: nat, bufLen: nat, ret: int, p: nat, built: seq<byte>,
                         moved: seq<byte>, sigLen: nat)
    requires bufLen <= |built| == |moved| && SigWritten(r, s, half, bufLen, ret, p, built)
    requires 0 <= ret <= bufLen - p ==> moved[..ret] == built[p..p + ret]
    ensures ret < 0 ==> Converted(r, s, half, bufLen, ret, sigLen, moved)
    ensures ret >= 0 ==> Converted(r, s, half, bufLen, 0, ret, moved)
  {
  }

  /** pk_ecdsa_sig_asn1_from_psa: the signature's first sigLen octets become DER in place. */
  method SigAsn1FromPsa(sig: array<byte>, sigLen: nat, bufLen: nat) returns (ret: int, newLen: nat)
    requires sigLen <= bufLen <= sig.Length <= PTRDIFF_MAX
    modifies sig
    ensures var half := sigLen / 2;
            Converted(BeNat(old(sig[..half])), BeNat(old(sig[half..half + half])), half, bufLen, ret, newLen, sig[..])
    ensures ret != 0 ==> newLen == sigLen
    ensures sig[bufLen..] == old(sig[bufLen..])
  {
    hide Converted, SigWritten;
    var half := sigLen / 2;
    var p;
    newLen := sigLen;
    ret, p := WriteSig(sig, half, bufLen);
    ghost var r, s, s2 := BeNat(old(sig[..half])), BeNat(old(sig[half..half + half])), sig[..];
    if ret < 0 {
      WrittenThenMoved(r, s, half, bufLen, ret, p, s2, s2, sigLen);
      return;
    }
    newLen := ret;
    MemMove(sig, 0, p, newLen);
    assert sig[..newLen] == s2[p..p + newLen];
    assert sig[bufLen..] == s2[bufLen..];
    WrittenThenMoved(r, s, half, bufLen, ret, p, s2, sig[..], sigLen);
    ret := 0;
  }

  // ---------------------------------------------------------------- consequences

  lemma IntegerSize(raw: seq<byte>)
    requires |raw| < 0x7F
    ensures |Integer(BeNat(raw))| <= |raw| + 3 || raw == []
  {
    StripZerosIsCanonical(raw);
    LengthSize(|IntegerContent(BeNat(raw))|);
  }

  lemma P256Size(r: seq<byte>, s: seq<byte>)
    requires |r| == |s| == 32
    ensures |Integer(BeNat(s))| <= 35 && |EcdsaSig(BeNat(r), BeNat(s))| <= 72
  {
    IntegerSize(r);
    IntegerSize(s);
    LengthSize(|Integer(BeNat(r)) + Integer(BeNat(s))|);
  }

  /**
   A successful conversion reads back, by a parser that knows nothing of the encoder, as
   exactly the two numbers of the raw signature, and no other octet string does.
   */
  lemma ConversionReadsBack(r: nat, s: nat, half: nat, bufLen: nat, out: seq<byte>)
    requires bufLen <= PTRDIFF_MAX && Outcome(r, s, half, bufLen) == 0
    ensures out == EcdsaSig(r, s) <==> ParseEcdsaSig(true, out) == Some((r, s))
  {
    EcdsaSigIsCanonical(out, r, s);
  }

  /** For 32-octet components, 72 octets is exactly the space that no signature can outgrow. */
  lemma P256SpaceIsExact(bufLen: nat)
    ensures bufLen >= 72 <==>
            forall r: seq<byte>, s: seq<byte> | |r| == |s| == 32 && BeNat(r) != 0 && BeNat(s) != 0
              :: Outcome(BeNat(r), BeNat(s), 32, bufLen) == 0
  {
    forall r: seq<byte>, s: seq<byte> | bufLen >= 72 && |r| == |s| == 32 && BeNat(r) != 0 && BeNat(s) != 0
      ensures Outcome(BeNat(r), BeNat(s), 32, bufLen) == 0
    {
      P256Size(r, s);
    }
    var top: seq<byte> := seq(32, _ => 0xFF);
    BeBytesOfBeNat(top);
    var v := BeNat(top);
    assert |Integer(v)| == 35;
    assert |EcdsaSig(v, v)| == 72;
    if bufLen < 72 {
      assert Outcome(v, v, 32, bufLen) != 0;
    }
  }
}
