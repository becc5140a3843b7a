/**
 The strict Ed25519 signature test: the scalar half of a signature, read as a
 little-endian number, must be below the group order (section 5.1.7 of RFC 8032).
 */
module Scalar {

  type Byte = b: nat | b < 256

  /** 2^252: a one followed by 63 hexadecimal zeros. */
  const TWO_TO_252: nat := 0x1000000000000000_0000000000000000_0000000000000000_0000000000000000

  /** The group order L. */
  const GROUP_ORDER: nat := TWO_TO_252 + 27742317777372353535851937790883648493

  /** The group order as the source lists it, least significant byte first. */
  const ED_GROUP_ORDER: seq<Byte> := [
    0xed, 0xd3, 0xf5, 0x5c, 0x1a, 0x63, 0x12, 0x58]
  + [0xd6, 0x9c, 0xf7, 0xa2, 0xde, 0xf9, 0xde, 0x14]
  + [0x00, 0x00, 0x00, 0x00, 0x00, 0x00, 0x00, 0x00]
  + [0x00, 0x00, 0x00, 0x00, 0x00, 0x00, 0x00, 0x10]

  /** The number the bytes from position `i` on denote, least significant first. */
  function LittleEndianFrom(bytes: seq<Byte>, i: nat): nat
    requires i <= |bytes|
    decreases |bytes| - i
  {
    if i == |bytes| then 0 else 256 * LittleEndianFrom(bytes, i + 1) + bytes[i]
  }

  function LittleEndian(bytes: seq<Byte>): nat {
    LittleEndianFrom(bytes, 0)
  }

  lemma OrderFrom24()
    ensures LittleEndianFrom(ED_GROUP_ORDER, 24) == 0x1000000000000000
  {
    assert LittleEndianFrom(ED_GROUP_ORDER, 31) == 0x10;
    assert LittleEndianFrom(ED_GROUP_ORDER, 30) == 0x1000;
    assert LittleEndianFrom(ED_GROUP_ORDER, 29) == 0x100000;
    assert LittleEndianFrom(ED_GROUP_ORDER, 28) == 0x10000000;
    assert LittleEndianFrom(ED_GROUP_ORDER, 27) == 0x1000000000;
    assert LittleEndianFrom(ED_GROUP_ORDER, 26) == 0x100000000000;
    assert LittleEndianFrom(ED_GROUP_ORDER, 25) == 0x10000000000000;
  }

  lemma OrderFrom16()
    ensures LittleEndianFrom(ED_GROUP_ORDER, 16) == 0x10000000000000000000000000000000
  {
    OrderFrom24();
    assert LittleEndianFrom(ED_GROUP_ORDER, 23) == 0x100000000000000000;
    assert LittleEndianFrom(ED_GROUP_ORDER, 22) == 0x10000000000000000000;
    assert LittleEndianFrom(ED_GROUP_ORDER, 21) == 0x1000000000000000000000;
    assert LittleEndianFrom(ED_GROUP_ORDER, 20) == 0x100000000000000000000000;
    assert LittleEndianFrom(ED_GROUP_ORDER, 19) == 0x10000000000000000000000000;
    assert LittleEndianFrom(ED_GROUP_ORDER, 18) == 0x1000000000000000000000000000;
    assert LittleEndianFrom(ED_GROUP_ORDER, 17) == 0x100000000000000000000000000000;
  }

  lemma OrderFrom8()
    ensures LittleEndianFrom(ED_GROUP_ORDER, 8) == 0x1000000000000000000000000000000014def9dea2f79cd6
  {
    OrderFrom16();
    assert LittleEndianFrom(ED_GROUP_ORDER, 15) == 0x1000000000000000000000000000000014;
    assert LittleEndianFrom(ED_GROUP_ORDER, 14) == 0x1000000000000000000000000000000014de;
    assert LittleEndianFrom(ED_GROUP_ORDER, 13) == 0x1000000000000000000000000000000014def9;
    assert LittleEndianFrom(ED_GROUP_ORDER, 12) == 0x1000000000000000000000000000000014def9de;
    assert LittleEndianFrom(ED_GROUP_ORDER, 11) == 0x1000000000000000000000000000000014def9dea2;
    assert LittleEndianFrom(ED_GROUP_ORDER, 10) == 0x1000000000000000000000000000000014def9dea2f7;
    assert LittleEndianFrom(ED_GROUP_ORDER, 9) == 0x1000000000000000000000000000000014def9dea2f79c;
  }

  lemma OrderFrom0()
    ensures LittleEndianFrom(ED_GROUP_ORDER, 0) == 0x1000000000000000000000000000000014def9dea2f79cd65812631a5cf5d3ed
  {
    OrderFrom8();
    assert LittleEndianFrom(ED_GROUP_ORDER, 7) == 0x1000000000000000000000000000000014def9dea2f79cd658;
    assert LittleEndianFrom(ED_GROUP_ORDER, 6) == 0x1000000000000000000000000000000014def9dea2f79cd65812;
    assert LittleEndianFrom(ED_GROUP_ORDER, 5) == 0x1000000000000000000000000000000014def9dea2f79cd6581263;
    assert LittleEndianFrom(ED_GROUP_ORDER, 4) == 0x1000000000000000000000000000000014def9dea2f79cd65812631a;
    assert LittleEndianFrom(ED_GROUP_ORDER, 3) == 0x1000000000000000000000000000000014def9dea2f79cd65812631a5c;
    assert LittleEndianFrom(ED_GROUP_ORDER, 2) == 0x1000000000000000000000000000000014def9dea2f79cd65812631a5cf5;
    assert LittleEndianFrom(ED_GROUP_ORDER, 1) == 0x1000000000000000000000000000000014def9dea2f79cd65812631a5cf5d3;
  }

  /** The listed bytes are the group order. */
  lemma GroupOrderBytes()
    ensures |ED_GROUP_ORDER| == 32 && LittleEndian(ED_GROUP_ORDER) == GROUP_ORDER
  {
    OrderFrom0();
  }

  lemma {:induction false} SameFrom(a: seq<Byte>, b: seq<Byte>, i: nat)
    requires i <= |a| == |b|
    requires a[i..] == b[i..]
    ensures LittleEndianFrom(a, i) == LittleEndianFrom(b, i)
    decreases |a| - i
  {
    if i < |a| {
      assert a[i] == a[i..][0] && b[i] == b[i..][0];
      assert a[i + 1..] == a[i..][1..] && b[i + 1..] == b[i..][1..];
      SameFrom(a, b, i + 1);
    }
  }

  /** The topmost byte in which two scalars differ decides which one is larger,
      whatever the bytes below it are. */
  lemma {:induction false} TopByteDecides(a: seq<Byte>, b: seq<Byte>, i: nat, j: nat)
    requires j <= i < |a| == |b|
    requires a[i + 1..] == b[i + 1..] && a[i] < b[i]
    ensures LittleEndianFrom(a, j) < LittleEndianFrom(b, j)
    decreases i - j
  {
    if j == i {
      SameFrom(a, b, i + 1);
    } else {
      TopByteDecides(a, b, i, j + 1);
    }
  }

  datatype Verdict = Canonical | InvalidLength(length: nat) | Malleable

  /** Accepts exactly the 64-byte signatures whose scalar half is below the group
      order; a wrong length and a large scalar are told apart. */
  method StrictVerifyEd25519(sig: seq<Byte>) returns (v: Verdict)
    ensures v.InvalidLength? <==> |sig| != 64
    ensures v.InvalidLength? ==> v.length == |sig|
    ensures v.Canonical? <==> |sig| == 64 && LittleEndian(sig[32..]) < GROUP_ORDER
  {
    if |sig| != 64 {
      return InvalidLength(|sig|);
    }
    GroupOrderBytes();
    ghost var s := sig[32..];
    for i := 32 downto 0
      invariant s[i..] == ED_GROUP_ORDER[i..]
    {
      if sig[32 + i] > ED_GROUP_ORDER[i] {
        TopByteDecides(ED_GROUP_ORDER, s, i, 0);
        return Malleable;
      }
      if sig[32 + i] < ED_GROUP_ORDER[i] {
        TopByteDecides(s, ED_GROUP_ORDER, i, 0);
        return Canonical;
      }
    }
    assert s[0..] == s && ED_GROUP_ORDER[0..] == ED_GROUP_ORDER;
    return Malleable;
  }
}
