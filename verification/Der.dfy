/**
 The part of the Distinguished Encoding Rules (ITU-T X.690, sections 8.1, 8.3 and 10.1)
 that the firmware writes: definite lengths, tagged values and non-negative INTEGERs,
 together with a parser that is defined without reference to the encoder, tag octets included.
 */
module Der {
  import opened Bytes

  const TAG_INTEGER: byte := 0x02
  const TAG_BIT_STRING: byte := 0x03
  const TAG_OID: byte := 0x06
  const TAG_SEQUENCE: byte := 0x30

  const LENGTH_LIMIT: nat := 0x1_0000_0000

  /** Length octets in the shortest form. */
  function Length(n: nat): (b: seq<byte>)
    ensures b != []
  {
    if n < 0x80 then [n] else [(0x80 + |BeBytes(n)|) % 256] + BeBytes(n)
  }

  function Tlv(tag: byte, content: seq<byte>): (b: seq<byte>)
    ensures |b| == 1 + |Length(|content|)| + |content|
  {
    [tag] + Length(|content|) + content
  }

  /** A leading zero octet where the number would otherwise read as negative. */
  function SignPad(s: seq<byte>): seq<byte> {
    if s != [] && s[0] >= 0x80 then [0] + s else s
  }

  function IntegerContent(n: nat): (b: seq<byte>)
    ensures b != []
  {
    BeNatOfBeBytes(n);
    if n == 0 then [0] else SignPad(BeBytes(n))
  }

  function Integer(n: nat): seq<byte> {
    Tlv(TAG_INTEGER, IntegerContent(n))
  }

  /** Ecdsa-Sig-Value of section 2.2.3 of RFC 3279: SEQUENCE { r INTEGER, s INTEGER }. */
  function EcdsaSig(r: nat, s: nat): seq<byte> {
    Tlv(TAG_SEQUENCE, Integer(r) + Integer(s))
  }

  // ---------------------------------------------------------------- parsing

  /** The length at the front of b, and how many octets spell it; shortest form only. */
  function ParseLength(b: seq<byte>): (r: Option<(nat, nat)>)
    ensures r.Some? ==> 0 < r.value.1 <= |b|
  {
    if b == [] then None
    else if b[0] < 0x80 then Some((b[0], 1))
    else
      var k := b[0] - 0x80;
      if k == 0 || k > 4 || |b| < 1 + k || b[1] == 0 then None
      else
        var n := BeNat(b[1..1 + k]);
        if n < 0x80 then None else Some((n, 1 + k))
  }

  /** The content of the value with the given tag at the front of b, and what follows it. */
  function ParseTlv(tag: byte, b: seq<byte>): (r: Option<(seq<byte>, seq<byte>)>)
  {
    if b == [] || b[0] != tag then None
    else match ParseLength(b[1..])
      case None => None
      case Some((n, k)) =>
        var rest := b[1 + k..];
        if |rest| < n then None else Some((rest[..n], rest[n..]))
  }

  /**
   The number in an INTEGER's content octets, negative numbers refused. Strict parsing also
   refuses a first octet that section 8.3.2 of X.690 calls redundant.
   */
  function ParseIntegerContent(strict: bool, c: seq<byte>): Option<nat> {
    if c == [] || c[0] >= 0x80 then None
    else if strict && |c| > 1 && c[0] == 0 && c[1] < 0x80 then None
    else Some(BeNat(c))
  }

  function ParseInteger(strict: bool, b: seq<byte>): Option<(nat, seq<byte>)> {
    match ParseTlv(0x02, b)
    case None => None
    case Some((c, rest)) =>
      match ParseIntegerContent(strict, c)
      case None => None
      case Some(n) => Some((n, rest))
  }

  function ParseEcdsaSig(strict: bool, b: seq<byte>): Option<(nat, nat)> {
    match ParseTlv(0x30, b)
    case None => None
    case Some((c, rest)) =>
      if rest != [] then None
      else match ParseInteger(strict, c)
        case None => None
        case Some((r, c')) =>
          match ParseInteger(strict, c')
          case None => None
          case Some((s, c'')) => if c'' == [] then Some((r, s)) else None
  }

  // ---------------------------------------------------------------- encoder and parser agree

  lemma LengthSize(n: nat)
    requires n < LENGTH_LIMIT
    ensures |Length(n)| == if n < 0x80 then 1 else if n < 0x100 then 2 else if n < 0x1_0000 then 3
                           else if n < 0x100_0000 then 4 else 5
  {
    BeBytesSmall(n);
  }

  lemma ParseLongForm(d: seq<byte>, rest: seq<byte>)
    requires 1 <= |d| <= 4 && d[0] != 0 && BeNat(d) >= 0x80
    ensures ParseLength([0x80 + |d|] + d + rest) == Some((BeNat(d), 1 + |d|))
  {
  }

  lemma ParseLengthOfLength(n: nat, rest: seq<byte>)
    requires n < LENGTH_LIMIT
    ensures ParseLength(Length(n) + rest) == Some((n, |Length(n)|))
  {
    hide BeBytes, BeNat;
    if n < 0x80 {
      assert Length(n) + rest == [n] + rest;
    } else {
      var d := BeBytes(n);
      LengthSize(n);
      BeNatOfBeBytes(n);
      ParseLongForm(d, rest);
    }
  }

  lemma LengthOfParseLength(b: seq<byte>)
    requires ParseLength(b).Some?
    ensures var (n, k) := ParseLength(b).value; n < LENGTH_LIMIT && b[..k] == Length(n)
  {
    hide BeBytes, BeNat;
    var (n, k) := ParseLength(b).value;
    if b[0] >= 0x80 {
      var d := b[1..k];
      BeBytesOfBeNat(d);
      assert b[..k] == [b[0]] + d;
      BeNatBound(d);
    }
  }

  lemma {:induction false} BeNatBound(d: seq<byte>)
    requires |d| <= 4
    ensures BeNat(d) < [1, 0x100, 0x1_0000, 0x100_0000, LENGTH_LIMIT][|d|] <= LENGTH_LIMIT
  {
    if d != [] { BeNatBound(d[..|d| - 1]); }
  }

  lemma ParseTlvOfTlv(tag: byte, content: seq<byte>, rest: seq<byte>)
    requires |content| < LENGTH_LIMIT
    ensures ParseTlv(tag, Tlv(tag, content) + rest) == Some((content, rest))
  {
    hide BeBytes, Length, ParseLength;
    var b, l, tail := Tlv(tag, content) + rest, Length(|content|), content + rest;
    assert b[1..] == l + tail;
    ParseLengthOfLength(|content|, tail);
    assert b[1 + |l|..] == tail;
    assert tail[..|content|] == content && tail[|content|..] == rest;
  }

  lemma TlvOfParseTlv(tag: byte, b: seq<byte>)
    requires ParseTlv(tag, b).Some?
    ensures var (c, rest) := ParseTlv(tag, b).value; |c| < LENGTH_LIMIT && b == Tlv(tag, c) + rest
  {
    hide BeBytes, BeNat, Length, ParseLength;
    var b1 := b[1..];
    var (n, k) := ParseLength(b1).value;
    LengthOfParseLength(b1);
    var b2 := b1[k..];
    assert b2 == b[1 + k..];
    calc {
      b;
      [tag] + b1;
      { assert b1 == b1[..k] + b2; }
      [tag] + (Length(n) + b2);
      { assert b2 == b2[..n] + b2[n..]; }
      [tag] + (Length(n) + (b2[..n] + b2[n..]));
      Tlv(tag, b2[..n]) + b2[n..];
    }
  }

  lemma ParseIntegerOfInteger(strict: bool, n: nat, rest: seq<byte>)
    requires |IntegerContent(n)| < LENGTH_LIMIT
    ensures ParseInteger(strict, Integer(n) + rest) == Some((n, rest))
  {
    hide Tlv, ParseTlv, IntegerContent, BeNat;
    ParseTlvOfTlv(TAG_INTEGER, IntegerContent(n), rest);
    IntegerOctets(n);
  }

  lemma IntegerOfParseInteger(b: seq<byte>)
    requires ParseInteger(true, b).Some?
    ensures var (n, rest) := ParseInteger(true, b).value;
            |IntegerContent(n)| < LENGTH_LIMIT && b == Integer(n) + rest
  {
    TlvOfParseTlv(TAG_INTEGER, b);
    var (c, rest) := ParseTlv(TAG_INTEGER, b).value;
    if c[0] == 0 {
      BeNatLeadingZero(c);
      if |c| > 1 { BeBytesOfBeNat(c[1..]); assert c == [0] + c[1..]; } else { assert c == [0]; }
    } else {
      BeBytesOfBeNat(c);
    }
  }

  /**
   EcdsaSig(r, s) is the one octet string a strict parser reads as (r, s): the encoding is
   readable, unambiguous and canonical.
   */
  lemma EcdsaSigIsCanonical(b: seq<byte>, r: nat, s: nat)
    requires |Integer(r) + Integer(s)| < LENGTH_LIMIT
    ensures ParseEcdsaSig(true, b) == Some((r, s)) <==> b == EcdsaSig(r, s)
  {
    if b == EcdsaSig(r, s) {
      var c := Integer(r) + Integer(s);
      assert b == Tlv(TAG_SEQUENCE, c) + [];
      ParseTlvOfTlv(TAG_SEQUENCE, c, []);
      ParseIntegerOfInteger(true, r, Integer(s));
      assert Integer(s) == Integer(s) + [];
      ParseIntegerOfInteger(true, s, []);
    }
    if ParseEcdsaSig(true, b) == Some((r, s)) {
      TlvOfParseTlv(TAG_SEQUENCE, b);
      var (c, _) := ParseTlv(TAG_SEQUENCE, b).value;
      IntegerOfParseInteger(c);
      var (_, c') := ParseInteger(true, c).value;
      IntegerOfParseInteger(c');
      assert c' == Integer(s) + [] == Integer(s);
    }
  }

  // ---------------------------------------------------------------- octet by octet

  /** Length octets, spelled out: one up to 127, else their number and the length itself. */
  lemma LengthOctets(n: nat)
    ensures n < 0x80 ==> Length(n) == [n]
    ensures 0x80 <= n < 0x100 ==> Length(n) == [0x81, n]
    ensures 0x100 <= n < 0x1_0000 ==> Length(n) == [0x82, n / 0x100, n % 0x100]
    ensures 0x1_0000 <= n < 0x100_0000 ==> Length(n) == [0x83, n / 0x1_0000, n / 0x100 % 0x100, n % 0x100]
    ensures 0x100_0000 <= n < LENGTH_LIMIT
            ==> Length(n) == [0x84, n / 0x100_0000, n / 0x1_0000 % 0x100, n / 0x100 % 0x100, n % 0x100]
  {
    BeBytesSmall(n);
  }

  lemma ShortTlv(tag: byte, content: seq<byte>)
    requires |content| < 0x80
    ensures Tlv(tag, content) == [tag, |content|] + content
  {
  }

  /** An INTEGER's content: the number, first octet below 0x80, and no shorter spelling. */
  lemma IntegerOctets(n: nat)
    ensures var c := IntegerContent(n);
            && BeNat(c) == n && c[0] < 0x80 && (|c| > 1 && c[0] == 0 ==> c[1] >= 0x80)
  {
    BeNatOfBeBytes(n);
    var c := IntegerContent(n);
    if n == 0 {
      assert c[..0] == [];
    } else if BeBytes(n)[0] >= 0x80 {
      BeNatLeadingZero(c);
      assert c[1..] == BeBytes(n);
    }
  }

  /** A signature of fewer than 128 octets of content, as P-256 signatures are, in plain octets. */
  lemma EcdsaSigOctets(r: nat, s: nat)
    requires |IntegerContent(r)| + |IntegerContent(s)| < 0x7C
    ensures var cr, cs := IntegerContent(r), IntegerContent(s);
            EcdsaSig(r, s) == [0x30, |cr| + |cs| + 4] + [0x02, |cr|] + cr + [0x02, |cs|] + cs
  {
    hide Tlv, IntegerContent;
    var cr, cs := IntegerContent(r), IntegerContent(s);
    ShortTlv(TAG_INTEGER, cr);
    ShortTlv(TAG_INTEGER, cs);
    ShortTlv(TAG_SEQUENCE, Integer(r) + Integer(s));
  }

  /** And in general: the three tag octets, wherever the lengths before them put them. */
  lemma EcdsaSigTags(r: nat, s: nat)
    ensures var e, cr := EcdsaSig(r, s), IntegerContent(r);
            var at := 1 + |Length(|Integer(r)| + |Integer(s)|)|;
            var at' := at + 1 + |Length(|cr|)| + |cr|;
            e[0] == 0x30 && at < at' < |e| && e[at] == 0x02 && e[at'] == 0x02
  {
    hide Length, IntegerContent;
    var e, i, j := EcdsaSig(r, s), Integer(r), Integer(s);
    var l := Length(|i + j|);
    assert e == [0x30] + l + (i + j);
    assert e[1 + |l|] == i[0] && e[1 + |l| + |i|] == j[0];
  }
}
