/** Octets, and natural numbers as octet strings in both byte orders. */
module Bytes {

  type byte = x: int | 0 <= x < 256

  datatype Option<+T> = None | Some(value: T)

  /** The number an octet string denotes, most significant octet first. */
  function BeNat(s: seq<byte>): nat {
    if s == [] then 0 else BeNat(s[..|s| - 1]) * 256 + s[|s| - 1]
  }

  /** The shortest octet string that denotes n; the empty string for 0. */
  function BeBytes(n: nat): seq<byte> {
    if n == 0 then [] else BeBytes(n / 256) + [n % 256]
  }

  /** An octet string without its leading zero octets. */
  function StripZeros(s: seq<byte>): seq<byte> {
    if s != [] && s[0] == 0 then StripZeros(s[1..]) else s
  }

  lemma {:induction false} BeNatOfBeBytes(n: nat)
    ensures BeNat(BeBytes(n)) == n
    ensures if n == 0 then BeBytes(n) == [] else BeBytes(n) != [] && BeBytes(n)[0] != 0
  {
    if n != 0 {
      var b := BeBytes(n);
      assert b[..|b| - 1] == BeBytes(n / 256);
      BeNatOfBeBytes(n / 256);
    }
  }

  lemma {:induction false} BeBytesOfBeNat(s: seq<byte>)
    requires s != [] ==> s[0] != 0
    ensures BeBytes(BeNat(s)) == s
    ensures s != [] ==> BeNat(s) != 0
  {
    if s != [] {
      var t := s[..|s| - 1];
      BeBytesOfBeNat(t);
      var n := BeNat(s);
      assert n / 256 == BeNat(t) && n % 256 == s[|s| - 1];
      assert s == t + [s[|s| - 1]];
      assert n != 0 by {
        if t == [] { assert s[|s| - 1] == s[0]; }
      }
    }
  }

  lemma {:induction false} BeNatLeadingZero(s: seq<byte>)
    requires s != [] && s[0] == 0
    ensures BeNat(s) == BeNat(s[1..])
  {
    if |s| > 1 {
      BeNatLeadingZero(s[..|s| - 1]);
      assert s[1..][..|s| - 2] == s[..|s| - 1][1..];
    }
  }

  /** Stripping zeros gives the one canonical spelling of the number. */
  lemma {:induction false} StripZerosIsCanonical(s: seq<byte>)
    ensures StripZeros(s) == BeBytes(BeNat(s))
    ensures |StripZeros(s)| <= |s|
    ensures StripZeros(s) == s[|s| - |StripZeros(s)|..]
    ensures StripZeros(s) == [] <==> BeNat(s) == 0
    ensures StripZeros(s) != [] ==> StripZeros(s)[0] != 0
    decreases |s|
  {
    if s != [] && s[0] == 0 {
      BeNatLeadingZero(s);
      StripZerosIsCanonical(s[1..]);
    } else {
      BeBytesOfBeNat(s);
    }
  }

  /** Numbers of up to four octets, spelled out. */
  lemma BeBytesSmall(n: nat)
    ensures 0 < n < 0x100 ==> BeBytes(n) == [n]
    ensures 0x100 <= n < 0x1_0000 ==> BeBytes(n) == [n / 0x100, n % 0x100]
    ensures 0x1_0000 <= n < 0x100_0000 ==> BeBytes(n) == [n / 0x1_0000, n / 0x100 % 0x100, n % 0x100]
    ensures 0x100_0000 <= n < 0x1_0000_0000
            ==> BeBytes(n) == [n / 0x100_0000, n / 0x1_0000 % 0x100, n / 0x100 % 0x100, n % 0x100]
  {
    assert n / 256 / 256 == n / 0x1_0000 && n / 256 / 256 / 256 == n / 0x100_0000;
    if 0 < n < 0x1_0000_0000 {
      var a, b, c := n / 256, n / 256 / 256, n / 256 / 256 / 256;
      assert BeBytes(n) == BeBytes(a) + [n % 256];
      if a != 0 {
        assert BeBytes(a) == BeBytes(b) + [a % 256];
        if b != 0 {
          assert BeBytes(b) == BeBytes(c) + [b % 256];
          if c != 0 { assert BeBytes(c) == BeBytes(0) + [c]; }
        }
      }
    }
  }

  /** A prefix without NUL ends before the first NUL does. */
  lemma PrefixBeforeNul(s: seq<byte>, prefix: seq<byte>, nul: nat)
    requires prefix <= s && nul < |s| && s[nul] == 0
    ensures |prefix| <= nul || 0 in prefix
  {
  }

  /** A 32-bit word in memory, least significant octet first. */
  function Le32(n: nat): (b: seq<byte>)
    requires n < 0x1_0000_0000
    ensures |b| == 4
  {
    [n % 0x100, n / 0x100 % 0x100, n / 0x1_0000 % 0x100, n / 0x100_0000]
  }

  function FromLe32(b: seq<byte>): (n: nat)
    requires |b| == 4
    ensures n < 0x1_0000_0000
  {
    b[0] as int + b[1] as int * 0x100 + b[2] as int * 0x1_0000 + b[3] as int * 0x100_0000
  }

  lemma Le32RoundTrip(n: nat)
    requires n < 0x1_0000_0000
    ensures FromLe32(Le32(n)) == n
  {
    assert n / 0x100 / 0x100 == n / 0x1_0000 && n / 0x1_0000 / 0x100 == n / 0x100_0000;
  }

  /** Octets copied into a buffer at an offset. */
  method CopyInto(buf: array<byte>, off: nat, data: seq<byte>)
    requires off + |data| <= buf.Length
    modifies buf
    ensures buf[off..off + |data|] == data
    ensures buf[..off] == old(buf[..off]) && buf[off + |data|..] == old(buf[off + |data|..])
  {
    forall i | 0 <= i < |data| { buf[off + i] := data[i]; }
  }
}
