/**
 Section 4 of RFC 4648 on bits: what base 64 text says, without reference to how Base64.dfy
 encodes or decodes.
 */
module Rfc4648 {
  import opened Bytes
  import opened Base64

  /** Table 1, and the padding character. */
  const ALPHABET: string :=
    "ABCDEFGHIJKLM" + "NOPQRSTUVWXYZ" + "abcdefghijklm" + "nopqrstuvwxyz" + "0123456789+/"

  /** Bit j of one octet, from the highest. */
  function BitOf(x: byte, j: nat): (b: nat)
    requires j < 8
    ensures b < 2
  {
    x / [128, 64, 32, 16, 8, 4, 2, 1][j] % 2
  }

  /** Bit j of an octet string; 0 beyond its end. */
  function Bit(s: seq<byte>, j: nat): (b: nat)
    ensures b < 2
  {
    if j / 8 < |s| then BitOf(s[j / 8], j % 8) else 0
  }

  /** The i-th group of six bits as a number. */
  function Field(s: seq<byte>, i: nat): (v: nat)
    ensures v < 64
  {
    var j := 6 * i;
    32 * Bit(s, j) + 16 * Bit(s, j + 1) + 8 * Bit(s, j + 2) + 4 * Bit(s, j + 3) + 2 * Bit(s, j + 4) + Bit(s, j + 5)
  }

  /** c is the table's character for v. */
  predicate Spells(c: byte, v: nat) {
    v < |ALPHABET| && ALPHABET[v] as int == c
  }

  lemma TableIsDigits(v: sextet)
    ensures Spells(Digit(v), v)
  {
    var a, b, c, d, e := "ABCDEFGHIJKLM", "NOPQRSTUVWXYZ", "abcdefghijklm", "nopqrstuvwxyz", "0123456789+/";
    assert ALPHABET == a + b + c + d + e;
    if v < 13 { assert ALPHABET[v] == a[v]; }
    else if v < 26 { assert ALPHABET[v] == b[v - 13]; }
    else if v < 39 { assert ALPHABET[v] == c[v - 26]; }
    else if v < 52 { assert ALPHABET[v] == d[v - 39]; }
    else { assert ALPHABET[v] == e[v - 52]; }
  }

  lemma TableSize()
    ensures |ALPHABET| == 64
  {
  }

  /** Each character of the alphabet stands for one number, and Value finds it. */
  lemma ValueIsIndex(c: byte, v: nat)
    ensures Value(c) == Some(v) <==> Spells(c, v)
  {
    TableSize();
    if v < 64 { TableIsDigits(v); }
  }

  lemma TwoBits(y: nat)
    ensures y == 4 * (y / 4) + 2 * (y / 2 % 2) + y % 2
  {
    var half := y / 2;
    assert y == 2 * half + y % 2 && half / 2 == y / 4;
  }

  lemma OctetBits(x: byte)
    ensures x / 64 == 2 * BitOf(x, 0) + BitOf(x, 1)
    ensures x / 16 == 4 * (x / 64) + 2 * BitOf(x, 2) + BitOf(x, 3)
    ensures x / 4 == 4 * (x / 16) + 2 * BitOf(x, 4) + BitOf(x, 5)
    ensures x == 4 * (x / 4) + 2 * BitOf(x, 6) + BitOf(x, 7)
  {
    TwoBits(x / 64);
    TwoBits(x / 16);
    TwoBits(x / 4);
    TwoBits(x);
    BitsAreQuotients(x);
    hide BitOf;
    assert x / 64 / 2 == x / 128 && x / 64 / 4 == 0;
    assert x / 16 / 2 == x / 32 && x / 16 / 4 == x / 64;
    assert x / 4 / 2 == x / 8 && x / 4 / 4 == x / 16;
  }

  lemma BitsAreQuotients(x: byte)
    ensures BitOf(x, 0) == x / 128 % 2 && BitOf(x, 1) == x / 64 % 2 && BitOf(x, 2) == x / 32 % 2 && BitOf(x, 3) == x / 16 % 2
    ensures BitOf(x, 4) == x / 8 % 2 && BitOf(x, 5) == x / 4 % 2 && BitOf(x, 6) == x / 2 % 2 && BitOf(x, 7) == x % 2
  {
  }

  lemma SplitBits(x: byte, y: byte, z: byte)
    ensures var g := Split(x, y, z);
            && g.a == 32 * BitOf(x, 0) + 16 * BitOf(x, 1) + 8 * BitOf(x, 2) + 4 * BitOf(x, 3) + 2 * BitOf(x, 4) + BitOf(x, 5)
            && g.b == 32 * BitOf(x, 6) + 16 * BitOf(x, 7) + 8 * BitOf(y, 0) + 4 * BitOf(y, 1) + 2 * BitOf(y, 2) + BitOf(y, 3)
            && g.c == 32 * BitOf(y, 4) + 16 * BitOf(y, 5) + 8 * BitOf(y, 6) + 4 * BitOf(y, 7) + 2 * BitOf(z, 0) + BitOf(z, 1)
            && g.d == 32 * BitOf(z, 2) + 16 * BitOf(z, 3) + 8 * BitOf(z, 4) + 4 * BitOf(z, 5) + 2 * BitOf(z, 6) + BitOf(z, 7)
  {
    OctetBits(x);
    OctetBits(y);
    OctetBits(z);
    hide BitOf;
  }

  /** The bits of the first three octets, six at a time. */
  lemma FieldsOfGroup(s: seq<byte>)
    requires s != []
    ensures var x, y, z := s[0], if |s| > 1 then s[1] else 0, if |s| > 2 then s[2] else 0;
            Split(x, y, z) == Group(Field(s, 0), Field(s, 1), Field(s, 2), Field(s, 3))
  {
    hide Bit, BitOf, Split;
    var x, y, z := s[0], if |s| > 1 then s[1] else 0, if |s| > 2 then s[2] else 0;
    SplitBits(x, y, z);
    forall j | 0 <= j < 8 ensures Bit(s, j) == BitOf(x, j) { BitInOctet(s, 0, j); }
    forall j | 8 <= j < 16 ensures Bit(s, j) == BitOf(y, j - 8) { BitInOctet(s, 1, j - 8); }
    forall j | 16 <= j < 24 ensures Bit(s, j) == BitOf(z, j - 16) { BitInOctet(s, 2, j - 16); }
  }

  lemma BitInOctet(s: seq<byte>, i: nat, j: nat)
    requires j < 8
    ensures Bit(s, 8 * i + j) == BitOf(if i < |s| then s[i] else 0, j)
  {
  }

  lemma BitOfRest(s: seq<byte>, j: nat)
    requires |s| >= 3
    ensures Bit(s, j + 24) == Bit(s[3..], j)
  {
    hide BitOf;
    assert (j + 24) / 8 == j / 8 + 3 && (j + 24) % 8 == j % 8;
  }

  /** Three octets on, the bits are those of the rest. */
  lemma FieldOfRest(s: seq<byte>, i: nat)
    requires |s| >= 3
    ensures Field(s, i + 4) == Field(s[3..], i)
  {
    hide Bit;
    var j := 6 * i;
    assert 6 * (i + 4) == j + 24;
    BitOfRest(s, j);
    BitOfRest(s, j + 1);
    BitOfRest(s, j + 2);
    BitOfRest(s, j + 3);
    BitOfRest(s, j + 4);
    BitOfRest(s, j + 5);
  }

  // ---------------------------------------------------------------- encoding

  /** Character i of the encoding of s. */
  predicate IsCharacter(c: byte, s: seq<byte>, i: nat) {
    if 6 * i < 8 * |s| then Spells(c, Field(s, i)) else c == 0x3D
  }

  /** The first group's characters; after three octets the encoding goes on with the rest. */
  lemma FirstGroupSpells(s: seq<byte>)
    requires s != []
    ensures |Encode(s)| >= 4 && forall i | 0 <= i < 4 :: IsCharacter(Encode(s)[i], s, i)
    ensures |s| <= 3 ==> |Encode(s)| == 4
    ensures |s| > 3 ==> Encode(s)[4..] == Encode(s[3..])
  {
    hide Split, Digit, Field, Spells;
    FieldsOfGroup(s);
    var g := Group(Field(s, 0), Field(s, 1), Field(s, 2), Field(s, 3));
    TableIsDigits(g.a);
    TableIsDigits(g.b);
    TableIsDigits(g.c);
    TableIsDigits(g.d);
  }

  /**
   The encoding has four characters for every three octets begun: the table's character for
   each six bits begun, in order, and then "=".
   */
  lemma {:induction false} EncodeSpells(s: seq<byte>)
    ensures |Encode(s)| == (|s| + 2) / 3 * 4
    ensures forall i | 0 <= i < |Encode(s)| :: IsCharacter(Encode(s)[i], s, i)
  {
    hide Encode, IsCharacter;
    if s == [] {
      EmptyEncodes();
    } else {
      FirstGroupSpells(s);
      if |s| > 3 {
        var e, rest := Encode(s), s[3..];
        EncodeSpells(rest);
        forall i | 4 <= i < |e| ensures IsCharacter(e[i], s, i) {
          assert e[i] == e[4..][i - 4] && IsCharacter(Encode(rest)[i - 4], rest, i - 4);
          CharacterOfRest(e[i], s, i - 4);
        }
      }
    }
  }

  lemma EmptyEncodes()
    ensures Encode([]) == []
  {
  }

  lemma CharacterOfRest(c: byte, s: seq<byte>, i: nat)
    requires |s| > 3 && IsCharacter(c, s[3..], i)
    ensures IsCharacter(c, s, i + 4)
  {
    hide Field, Spells;
    FieldOfRest(s, i);
  }

  // ---------------------------------------------------------------- decoding

  ghost predicate InTable(c: byte) {
    exists v: nat :: Spells(c, v)
  }

  /** Whole groups of four characters of the table, the last `pads` of them "=" instead. */
  ghost predicate IsText(t: seq<byte>, pads: nat) {
    && |t| % 4 == 0 && pads <= 2 && (pads > 0 ==> t != [])
    && (forall i | 0 <= i < |t| - pads :: InTable(t[i]))
    && (forall i | |t| - pads <= i < |t| :: 0 <= i && t[i] == 0x3D)
  }

  /** Six bits of which the last two or four may lie beyond the last octet, and are dropped. */
  function Kept(v: nat, bits: int): nat {
    if bits >= 6 then v else if bits == 4 then v / 4 * 4 else v / 16 * 16
  }

  /** What s must be for the text t: character i is the i-th six bits of s. */
  ghost predicate Says(t: seq<byte>, pads: nat, s: seq<byte>) {
    && |s| == |t| / 4 * 3 - pads
    && forall i, v: nat | 0 <= i < |t| - pads && Spells(t[i], v) :: Field(s, i) == Kept(v, 8 * |s| - 6 * i)
  }

  lemma PadIsNoDigit()
    ensures Value(0x3D) == None
  {
  }

  lemma InTableMeans(c: byte)
    ensures InTable(c) <==> Value(c).Some?
    ensures InTable(c) ==> c != 0x3D
    ensures forall v: nat | Spells(c, v) :: Value(c) == Some(v)
  {
    hide Spells, Value;
    PadIsNoDigit();
    forall v: nat ensures Spells(c, v) <==> Value(c) == Some(v) { ValueIsIndex(c, v); }
  }

  /** What four characters say, as a text of their own. */
  lemma GroupText(t: seq<byte>, pads: nat)
    requires |t| == 4 && pads <= 2
    ensures IsText(t, pads)
            <==> && Value(t[0]).Some? && Value(t[1]).Some? && (if pads < 2 then Value(t[2]).Some? else t[2] == 0x3D)
                 && (if pads < 1 then Value(t[3]).Some? else t[3] == 0x3D)
  {
    hide Value, InTable;
    forall i | 0 <= i < 4 ensures InTable(t[i]) <==> Value(t[i]).Some? { InTableMeans(t[i]); }
  }

  /** The fields of one, two or three octets joined from four digits. */
  lemma FieldsOfJoin(g: Group, n: nat)
    requires 1 <= n <= 3
    ensures var s := Join(g)[..n];
            && Field(s, 0) == g.a && Field(s, 1) == Kept(g.b, 8 * n - 6)
            && (n > 1 ==> Field(s, 2) == Kept(g.c, 8 * n - 12)) && (n > 2 ==> Field(s, 3) == g.d)
  {
    hide Field;
    FieldsOfGroup(Join(g)[..n]);
  }

  /** The group decodes exactly if it is a text; with more to come, exactly if it is one without padding. */
  lemma GroupDecodes(t: seq<byte>, last: bool)
    requires |t| == 4
    ensures DecodeGroup(t[0], t[1], t[2], t[3], last).Some? <==> IsText(t, 0) || (last && (IsText(t, 1) || IsText(t, 2)))
  {
    hide Value, IsText, Join;
    PadIsNoDigit();
    GroupText(t, 0);
    GroupText(t, 1);
    GroupText(t, 2);
  }

  lemma GroupSays(t: seq<byte>, pads: nat, last: bool)
    requires |t| == 4 && pads <= 2 && IsText(t, pads) && (pads > 0 ==> last)
    ensures var r := DecodeGroup(t[0], t[1], t[2], t[3], last); r.Some? && Says(t, pads, r.value)
  {
    hide Value, IsText, Field, Spells, Join;
    GroupText(t, pads);
    PadIsNoDigit();
    var a, b := Value(t[0]).value, Value(t[1]).value;
    var c := if pads < 2 then Value(t[2]).value else 0;
    var d := if pads < 1 then Value(t[3]).value else 0;
    var g := Group(a, b, c, d);
    FieldsOfJoin(g, 3 - pads);
    var s := Join(g)[..3 - pads];
    assert DecodeGroup(t[0], t[1], t[2], t[3], last) == Some(s) by { assert Join(g)[..3] == Join(g); }
    forall i, v: nat | 0 <= i < 4 - pads && Spells(t[i], v)
      ensures Field(s, i) == Kept(v, 8 * |s| - 6 * i)
    {
      InTableMeans(t[i]);
    }
  }

  lemma FieldOfFirst(s: seq<byte>, i: nat)
    requires |s| >= 3 && i < 4
    ensures Field(s, i) == Field(s[..3], i)
  {
    forall j: nat | j < 24 ensures Bit(s, j) == Bit(s[..3], j) { }
  }

  lemma TextOfRest(t: seq<byte>, pads: nat)
    requires |t| > 4 && pads <= 2
    ensures IsText(t, pads) <==> IsText(t[..4], 0) && IsText(t[4..], pads)
  {
    hide InTable;
    if IsText(t[..4], 0) && IsText(t[4..], pads) {
      forall i | 0 <= i < |t| - pads ensures InTable(t[i]) { assert t[i] == if i < 4 then t[..4][i] else t[4..][i - 4]; }
      forall i | |t| - pads <= i < |t| ensures 0 <= i && t[i] == 0x3D { assert t[i] == t[4..][i - 4]; }
    }
  }

  lemma SaysMore(t: seq<byte>, pads: nat, first: seq<byte>, rest: seq<byte>)
    requires |t| > 4 && Says(t[..4], 0, first) && Says(t[4..], pads, rest)
    ensures Says(t, pads, first + rest)
  {
    hide Field, Spells;
    var s := first + rest;
    assert s[..3] == first && s[3..] == rest;
    forall i, v: nat | 0 <= i < |t| - pads && Spells(t[i], v)
      ensures Field(s, i) == Kept(v, 8 * |s| - 6 * i)
    {
      if i < 4 {
        FieldOfFirst(s, i);
        assert Spells(t[..4][i], v);
      } else {
        FieldOfRest(s, i - 4);
        assert Spells(t[4..][i - 4], v);
      }
    }
  }

  lemma WholeGroups(t: seq<byte>, pads: nat)
    requires IsText(t, pads)
    ensures |t| % 4 == 0 && pads <= 2 && (pads > 0 ==> t != [])
  {
  }

  lemma OneGroupReads(t: seq<byte>)
    requires |t| == 4
    ensures Decode(t).Some? <==> IsText(t, 0) || IsText(t, 1) || IsText(t, 2)
    ensures forall pads: nat | pads <= 2 && IsText(t, pads) :: Decode(t).Some? && Says(t, pads, Decode(t).value)
  {
    hide IsText, Says, DecodeGroup;
    GroupDecodes(t, true);
    assert t[4..] == [];
    var g := DecodeGroup(t[0], t[1], t[2], t[3], true);
    assert g.Some? ==> g.value + [] == g.value;
    forall pads: nat | pads <= 2 && IsText(t, pads) ensures g.Some? && Says(t, pads, g.value) { GroupSays(t, pads, true); }
  }

  lemma MoreGroupsRead(t: seq<byte>, pads: nat)
    requires |t| > 4 && pads <= 2
    requires IsText(t[4..], pads) ==> Decode(t[4..]).Some? && Says(t[4..], pads, Decode(t[4..]).value)
    ensures IsText(t, pads) ==> Decode(t).Some? && Says(t, pads, Decode(t).value)
  {
    hide IsText, Says, DecodeGroup;
    TextOfRest(t, pads);
    if IsText(t, pads) {
      GroupSays(t[..4], 0, false);
      SaysMore(t, pads, DecodeGroup(t[0], t[1], t[2], t[3], false).value, Decode(t[4..]).value);
    }
  }

  /**
   Decoding accepts exactly the texts of section 4, and gives the octets whose bits the
   characters spell.
   */
  lemma {:induction false} DecodeReads(t: seq<byte>)
    ensures Decode(t).Some? <==> exists pads: nat :: IsText(t, pads)
    ensures forall pads: nat | IsText(t, pads) :: Decode(t).Some? && Says(t, pads, Decode(t).value)
  {
    hide IsText, Says, DecodeGroup;
    forall pads: nat | IsText(t, pads) ensures |t| % 4 == 0 && pads <= 2 { WholeGroups(t, pads); }
    if t == [] {
      EmptyText();
      forall pads: nat | IsText(t, pads) ensures pads == 0 { WholeGroups(t, pads); }
    } else if |t| == 4 {
      OneGroupReads(t);
    } else if |t| > 4 {
      DecodeReads(t[4..]);
      GroupDecodes(t[..4], false);
      forall pads: nat | pads <= 2
        ensures IsText(t, pads) <==> IsText(t[..4], 0) && IsText(t[4..], pads)
        ensures IsText(t, pads) ==> Decode(t).Some? && Says(t, pads, Decode(t).value)
      {
        TextOfRest(t, pads);
        MoreGroupsRead(t, pads);
      }
      forall pads: nat | IsText(t[4..], pads) ensures pads <= 2 { WholeGroups(t[4..], pads); }
    }
  }

  lemma EmptyText()
    ensures IsText([], 0) && Decode([]) == Some([]) && Says([], 0, [])
  {
  }
}
