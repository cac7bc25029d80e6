/**
 Bounded backward writes into a buffer, as mbedTLS's asn1write.c offers them: a position
 moves from the end of the buffer towards `start`, and a write that would cross `start`
 is refused with nothing changed.
 */
module DerWriter {
  import opened Bytes
  import opened Der

  const BUF_TOO_SMALL: int := -0x6C
  const OUT_OF_DATA: int := -0x60
  const INVALID_LENGTH: int := -0x64

  /** `after` is `before` with `bytes` put in place of positions q up to p. */
  ghost predicate Wrote(before: seq<byte>, after: seq<byte>, q: nat, p: nat, bytes: seq<byte>) {
    q + |bytes| == p <= |before| && after == before[..q] + bytes + before[p..]
  }

  /** Successive backward writes build one block. */
  lemma WroteTwice(s0: seq<byte>, s1: seq<byte>, s2: seq<byte>, r: nat, q: nat, p: nat, b1: seq<byte>, b2: seq<byte>)
    requires Wrote(s0, s1, q, p, b1) && Wrote(s1, s2, r, q, b2)
    ensures Wrote(s0, s2, r, p, b2 + b1)
  {
  }

  /** Nothing below `start` and nothing from p on has changed. */
  ghost predicate Framed(before: seq<byte>, after: seq<byte>, start: nat, p: nat) {
    start <= p <= |before| == |after| && after[..start] == before[..start] && after[p..] == before[p..]
  }

  lemma WroteIsFramed(before: seq<byte>, after: seq<byte>, start: nat, q: nat, p: nat, bytes: seq<byte>)
    requires Wrote(before, after, q, p, bytes) && start <= q
    ensures Framed(before, after, start, p)
  {
  }

  lemma FramedTwice(s0: seq<byte>, s1: seq<byte>, s2: seq<byte>, start: nat, q: nat, p: nat)
    requires Framed(s0, s1, start, p) && Framed(s1, s2, start, q) && q <= p
    ensures Framed(s0, s2, start, p)
  {
  }

  /** Tag and length written in front of content make a complete value. */
  lemma WroteHeader(before: seq<byte>, after: seq<byte>, q: nat, p: nat, tag: byte, content: seq<byte>)
    requires Wrote(before, after, q, p, [tag] + Length(|content|))
    requires p + |content| <= |before| && before[p..p + |content|] == content
    ensures after[q..p + |content|] == Tlv(tag, content)
  {
  }

  /** The C library's memmove on one buffer: source and destination may overlap. */
  method MemMove(a: array<byte>, dst: nat, src: nat, n: nat)
    requires dst + n <= a.Length && src + n <= a.Length
    modifies a
    ensures Wrote(old(a[..]), a[..], dst, dst + n, old(a[src..src + n]))
  {
    forall i | 0 <= i < n { a[dst + i] := a[src + i]; }
    assert a[..dst] == old(a[..dst]);
    assert a[dst..dst + n] == old(a[src..src + n]);
    assert a[dst + n..] == old(a[dst + n..]);
  }

  /** A block of octets in front of position p. */
  method WriteBytes(a: array<byte>, p: nat, start: nat, bytes: seq<byte>) returns (ret: int, q: nat)
    requires start <= p <= a.Length
    modifies a
    ensures ret == if p - start < |bytes| then BUF_TOO_SMALL else |bytes|
    ensures Wrote(old(a[..]), a[..], q, p, if p - start < |bytes| then [] else bytes)
  {
    if p - start < |bytes| {
      assert a[..] == a[..p] + [] + a[p..];
      return BUF_TOO_SMALL, p;
    }
    ret, q := |bytes|, p - |bytes|;
    forall i | 0 <= i < |bytes| { a[q + i] := bytes[i]; }
    assert a[..q] == old(a[..q]) && a[q..p] == bytes && a[p..] == old(a[p..]);
  }

  method WriteTag(a: array<byte>, p: nat, start: nat, tag: byte) returns (ret: int, q: nat)
    requires start <= p <= a.Length
    modifies a
    ensures ret == if p - start < 1 then BUF_TOO_SMALL else 1
    ensures Wrote(old(a[..]), a[..], q, p, if p - start < 1 then [] else [tag])
  {
    ret, q := WriteBytes(a, p, start, [tag]);
  }

  /** Length octets in front of position p, refused beyond 32 bits. */
  method WriteLen(a: array<byte>, p: nat, start: nat, len: nat) returns (ret: int, q: nat)
    requires start <= p <= a.Length
    modifies a
    ensures ret == if len >= LENGTH_LIMIT then INVALID_LENGTH
                   else if p - start < |Length(len)| then BUF_TOO_SMALL else |Length(len)|
    ensures Wrote(old(a[..]), a[..], q, p, if ret < 0 then [] else Length(len))
  {
    if len >= LENGTH_LIMIT {
      assert a[..] == a[..p] + [] + a[p..];
      return INVALID_LENGTH, p;
    }
    ret, q := WriteBytes(a, p, start, Length(len));
  }

  /**
   Length octets and tag in front of the `len` octets at position p, as every caller
   closes a value: the header fits exactly when both writes succeed.
   */
  method WriteHeader(a: array<byte>, p: nat, start: nat, len: nat, tag: byte, ghost content: seq<byte>)
    returns (ret: int, q: nat)
    requires start <= p <= p + len <= a.Length && len < LENGTH_LIMIT
    requires len == |content| && a[p..p + len] == content
    modifies a
    ensures start <= q && Framed(old(a[..]), a[..], start, p)
    ensures if p - start < 1 + |Length(len)| then ret == BUF_TOO_SMALL
            else ret == 1 + |Length(len)| == p - q && a[q..p + len] == Tlv(tag, content)
  {
    ghost var s0 := a[..];
    var k;
    k, q := WriteLen(a, p, start, len);
    ghost var s1, mid := a[..], q;
    if k < 0 {
      WroteIsFramed(s0, s1, start, q, p, []);
      return k, q;
    }
    WroteIsFramed(s0, s1, start, q, p, Length(len));
    ret, q := WriteTag(a, q, start, tag);
    if ret < 0 {
      WroteIsFramed(s1, a[..], start, q, mid, []);
      FramedTwice(s0, s1, a[..], start, mid, p);
      return;
    }
    WroteTwice(s0, s1, a[..], q, mid, p, Length(len), [tag]);
    WroteIsFramed(s0, a[..], start, q, p, [tag] + Length(len));
    WroteHeader(s0, a[..], q, p, tag, content);
    ret := ret + k;
  }
}
