/** Base 64 of section 4 of RFC 4648, over octets. */
module Base64 {
  import opened Bytes

  const PAD: byte := 0x3D

  type sextet = v: int | 0 <= v < 64

  function Digit(v: sextet): (c: byte) {
    if v < 26 then 0x41 + v
    else if v < 52 then 0x61 + (v - 26)
    else if v < 62 then 0x30 + (v - 52)
    else if v == 62 then 0x2B
    else 0x2F
  }

  function Value(c: byte): Option<sextet> {
    if 0x41 <= c <= 0x5A then Some(c - 0x41)
    else if 0x61 <= c <= 0x7A then Some(c - 0x61 + 26)
    else if 0x30 <= c <= 0x39 then Some(c - 0x30 + 52)
    else if c == 0x2B then Some(62)
    else if c == 0x2F then Some(63)
    else None
  }

  datatype Group = Group(a: sextet, b: sextet, c: sextet, d: sextet)

  /** The four digits of three octets. */
  function Split(x: byte, y: byte, z: byte): Group {
    Group(x / 4, x % 4 * 16 + y / 16, y % 16 * 4 + z / 64, z % 64)
  }

  /** The three octets of four digits. */
  function Join(g: Group): (s: seq<byte>)
    ensures |s| == 3
  {
    [g.a as int * 4 + g.b / 16, g.b % 16 * 16 + g.c / 4, g.c % 4 * 64 + g.d]
  }

  lemma JoinOfSplit(x: byte, y: byte, z: byte)
    ensures Join(Split(x, y, z)) == [x, y, z]
    ensures z == 0 ==> Split(x, y, z).d == 0
    ensures y == z == 0 ==> Split(x, y, z).c == 0
  {
  }

  /** Four characters for every three octets begun. */
  function EncodedLen(n: nat): (l: nat)
    ensures n == 0 ==> l == 0
  {
    if n <= 3 then (if n == 0 then 0 else 4) else 4 + EncodedLen(n - 3)
  }

  lemma {:induction false} EncodedLenAtMost(n: nat, groups: nat)
    requires n <= 3 * groups
    ensures EncodedLen(n) <= 4 * groups
  {
    if n > 3 { EncodedLenAtMost(n - 3, groups - 1); }
  }

  function Encode(s: seq<byte>): (t: seq<byte>)
    ensures |t| == EncodedLen(|s|)
  {
    if s == [] then []
    else if |s| == 1 then
      var g := Split(s[0], 0, 0);
      [Digit(g.a), Digit(g.b), PAD, PAD]
    else if |s| == 2 then
      var g := Split(s[0], s[1], 0);
      [Digit(g.a), Digit(g.b), Digit(g.c), PAD]
    else
      var g := Split(s[0], s[1], s[2]);
      [Digit(g.a), Digit(g.b), Digit(g.c), Digit(g.d)] + Encode(s[3..])
  }

  /** Every character of an encoding is a digit or padding, and the first is a digit. */
  lemma {:induction false} EncodeAlphabet(s: seq<byte>, i: nat)
    requires i < |Encode(s)|
    ensures Encode(s)[i] == PAD || Value(Encode(s)[i]).Some?
    ensures i == 0 ==> Value(Encode(s)[i]).Some?
  {
    hide Split, Digit, Value;
    var g := if |s| == 1 then Split(s[0], 0, 0) else if |s| == 2 then Split(s[0], s[1], 0) else Split(s[0], s[1], s[2]);
    DigitValues(g);
    if |s| > 3 && i >= 4 {
      EncodeAlphabet(s[3..], i - 4);
      assert Encode(s)[i] == Encode(s[3..])[i - 4];
    }
  }

  /** Padding is accepted in the last group only. */
  function DecodeGroup(w: byte, x: byte, y: byte, z: byte, last: bool): (r: Option<seq<byte>>)
    ensures r.Some? ==> |r.value| <= 3 && Value(w).Some?
  {
    var a, b, c, d := Value(w), Value(x), Value(y), Value(z);
    if a.None? || b.None? then None
    else if c.Some? && d.Some? then Some(Join(Group(a.value, b.value, c.value, d.value)))
    else if !last || z != PAD then None
    else if c.Some? then Some(Join(Group(a.value, b.value, c.value, 0))[..2])
    else if y == PAD then Some(Join(Group(a.value, b.value, 0, 0))[..1])
    else None
  }

  function Decode(t: seq<byte>): (r: Option<seq<byte>>)
    ensures r.Some? ==> 4 * |r.value| <= 3 * |t|
    ensures r.Some? && t != [] ==> Value(t[0]).Some?
  {
    if t == [] then Some([])
    else if |t| < 4 then None
    else match DecodeGroup(t[0], t[1], t[2], t[3], |t| == 4)
      case None => None
      case Some(group) =>
        match Decode(t[4..])
        case None => None
        case Some(rest) => Some(group + rest)
  }

  lemma Decode1(x: byte)
    ensures Decode(Encode([x])) == Some([x])
  {
    hide Digit, Value, Split, Join;
    var g := Split(x, 0, 0);
    JoinOfSplit(x, 0, 0);
    DigitValues(g);
    assert Encode([x]) == [Digit(g.a), Digit(g.b), PAD, PAD];
    assert Group(g.a, g.b, 0, 0) == g && [x, 0, 0][..1] + [] == [x];
  }

  lemma Decode2(x: byte, y: byte)
    ensures Decode(Encode([x, y])) == Some([x, y])
  {
    hide Digit, Value, Split, Join;
    var g := Split(x, y, 0);
    JoinOfSplit(x, y, 0);
    DigitValues(g);
    assert Encode([x, y]) == [Digit(g.a), Digit(g.b), Digit(g.c), PAD];
    assert Group(g.a, g.b, g.c, 0) == g && [x, y, 0][..2] + [] == [x, y];
  }

  lemma DigitValues(g: Group)
    ensures Value(Digit(g.a)) == Some(g.a) && Value(Digit(g.b)) == Some(g.b)
    ensures Value(Digit(g.c)) == Some(g.c) && Value(Digit(g.d)) == Some(g.d)
    ensures Value(PAD) == None
  {
  }

  lemma Decode3(x: byte, y: byte, z: byte, t: seq<byte>, rest: seq<byte>)
    requires Decode(t) == Some(rest)
    ensures var g := Split(x, y, z);
            Decode([Digit(g.a), Digit(g.b), Digit(g.c), Digit(g.d)] + t) == Some([x, y, z] + rest)
  {
    hide Digit, Value, Split, Join;
    var g := Split(x, y, z);
    JoinOfSplit(x, y, z);
    DigitValues(g);
    var u := [Digit(g.a), Digit(g.b), Digit(g.c), Digit(g.d)] + t;
    assert u[4..] == t;
    assert Group(g.a, g.b, g.c, g.d) == g;
  }

  /** Decoding undoes encoding, for every octet string. */
  lemma {:induction false} DecodeOfEncode(s: seq<byte>)
    ensures Decode(Encode(s)) == Some(s)
  {
    hide Digit, Value, Decode, Split;
    if |s| == 0 {
      DecodeEmpty();
    } else if |s| == 1 {
      assert s == [s[0]];
      Decode1(s[0]);
    } else if |s| == 2 {
      assert s == [s[0], s[1]];
      Decode2(s[0], s[1]);
    } else {
      DecodeOfEncode(s[3..]);
      Decode3(s[0], s[1], s[2], Encode(s[3..]), s[3..]);
      assert s == [s[0], s[1], s[2]] + s[3..];
    }
  }

  lemma DecodeEmpty()
    ensures Decode([]) == Some([])
  {
  }
}
