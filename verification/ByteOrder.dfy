/**
 The byte-order functions of the MySQL client headers: the shift-and-add versions
 for any architecture, the direct x86 loads they stand in for, and the stores.
 */
module ByteOrder {
  import opened Modular
  import opened LittleEndian

  function At(a: seq<byte>, i: nat): nat requires i < |a| { a[i] }

  /** `(uint32) x << k` for the three shifts used; the cast keeps 32 bits. */
  function Shl8(x: nat): nat { x * 0x100 % TWO32 }

  function Shl16(x: nat): nat { x * TWO16 % TWO32 }

  function Shl24(x: nat): nat { x * TWO24 % TWO32 }

  function Int16(u: nat): int { if u % TWO16 < 0x8000 then u % TWO16 else u % TWO16 - TWO16 }

  function Int32(u: nat): int { if u % TWO32 < 0x8000_0000 then u % TWO32 else u % TWO32 - TWO32 }

  function Int64(u: nat): int { if u % TWO64 < 0x8000_0000_0000_0000 then u % TWO64 else u % TWO64 - TWO64 }

  // Shift-and-add readers.

  function Uint2korr(a: seq<byte>): nat requires |a| == 2 { (At(a, 0) + At(a, 1) * 0x100 % TWO16) % TWO16 }

  function Sint2korr(a: seq<byte>): int requires |a| == 2 { Int16(At(a, 0) + At(a, 1) * 0x100) }

  function Uint3korr(a: seq<byte>): nat
    requires |a| == 3
  {
    (At(a, 0) + Shl8(a[1]) + Shl16(a[2])) % TWO32
  }

  /** The source joins these disjoint bit fields with `|`; see Sint3OfBits. */
  function Sint3korr(a: seq<byte>): int
    requires |a| == 3
  {
    Int32((if a[2] >= 128 then Shl24(255) else 0) + Shl16(a[2]) + Shl8(a[1]) + At(a, 0))
  }

  function Uint4korr(a: seq<byte>): nat
    requires |a| == 4
  {
    (At(a, 0) + Shl8(a[1]) + Shl16(a[2]) + Shl24(a[3])) % TWO32
  }

  function Sint4korr(a: seq<byte>): int
    requires |a| == 4
  {
    Int32(At(a, 0) + Shl8(a[1]) + Shl16(a[2]) + Shl24(a[3]))
  }

  function Uint5korr(a: seq<byte>): nat requires |a| == 5 { (Uint4korr(a[..4]) + At(a, 4) * TWO32) % TWO64 }

  function Uint6korr(a: seq<byte>): nat
    requires |a| == 6
  {
    (Uint4korr(a[..4]) + At(a, 4) * TWO32 + At(a, 5) * TWO40) % TWO64
  }

  function Uint8korr(a: seq<byte>): nat
    requires |a| == 8
  {
    (Uint4korr(a[..4]) + Uint4korr(a[4..]) * TWO32) % TWO64
  }

  function Sint8korr(a: seq<byte>): int requires |a| == 8 { Int64(Uint8korr(a)) }

  /** The source's expression for sint3korr, on the bits of the three bytes, before the cast to int32. */
  function Sint3Word(a0: bv8, a1: bv8, a2: bv8): bv32 {
    if a2 & 128 != 0
    then ((255 as bv32) << 24) | (((a2 as bv32) << 16) | ((a1 as bv32) << 8) | (a0 as bv32))
    else ((a2 as bv32) << 16) | ((a1 as bv32) << 8) | (a0 as bv32)
  }

  /** Or-ing the disjoint byte fields is adding them. */
  lemma OrIsSum(a0: bv8, a1: bv8, a2: bv8)
    ensures ((a2 as bv32) << 16) | ((a1 as bv32) << 8) | (a0 as bv32) < 0x100_0000
    ensures (((a2 as bv32) << 16) | ((a1 as bv32) << 8) | (a0 as bv32)) as int
            == a2 as int * TWO16 + a1 as int * 0x100 + a0 as int
  {
  }

  lemma OrWithSignIsSum(w: bv32)
    requires w < 0x100_0000
    ensures (((255 as bv32) << 24) | w) as int == 255 * TWO24 + w as int
  {
  }

  lemma SignBit(a2: bv8)
    ensures a2 & 128 != 0 <==> a2 as int >= 128
  {
  }

  lemma WordIsSum(a0: bv8, a1: bv8, a2: bv8)
    ensures Sint3Word(a0, a1, a2) as int
            == (if a2 as int >= 128 then 255 * TWO24 else 0) + a2 as int * TWO16 + a1 as int * 0x100 + a0 as int
  {
    OrIsSum(a0, a1, a2);
    OrWithSignIsSum(((a2 as bv32) << 16) | ((a1 as bv32) << 8) | (a0 as bv32));
    SignBit(a2);
  }

  /** No shift of a byte by at most 24 leaves the 32 bits. */
  lemma ShiftsFit(x: byte)
    ensures Shl8(x) == x * 0x100 && Shl16(x) == x * TWO16 && Shl24(x) == x * TWO24
  {
  }

  /** The reader above is the source's expression on bits, for the bytes with these bits. */
  lemma Sint3OfBits(a: seq<byte>, a0: bv8, a1: bv8, a2: bv8)
    requires a == [a0 as int, a1 as int, a2 as int]
    ensures Sint3korr(a) == Int32(Sint3Word(a0, a1, a2) as int)
  {
    WordIsSum(a0, a1, a2);
    ShiftsFit(a[1]);
    ShiftsFit(a[2]);
  }

  /** Every byte has its bits. */
  lemma {:induction false} BitsOf(x: byte) returns (b: bv8)
    ensures b as int == x
  {
    b := 0;
    if x > 0 {
      b := BitsOf(x - 1);
      b := b + 1;
    }
  }

  lemma FewBytes(a: seq<byte>)
    ensures |a| == 1 ==> FromBytes(a) == At(a, 0)
    ensures |a| == 2 ==> FromBytes(a) == At(a, 0) + At(a, 1) * 0x100
    ensures |a| == 3 ==> FromBytes(a) == At(a, 0) + At(a, 1) * 0x100 + At(a, 2) * TWO16
    ensures |a| == 4 ==> FromBytes(a) == At(a, 0) + At(a, 1) * 0x100 + At(a, 2) * TWO16 + At(a, 3) * TWO24
  {
    if 2 <= |a| <= 4 { FewBytes(a[1..]); }
  }

  lemma Assoc(p: int, f: int)
    ensures (256 * p) * f == 256 * (p * f)
  {
  }

  lemma {:induction false} FromBytesSplit(a: seq<byte>, b: seq<byte>)
    ensures FromBytes(a + b) == FromBytes(a) + Pow256(|a|) * FromBytes(b)
  {
    if a == [] {
      assert a + b == b;
    } else {
      assert (a + b)[1..] == a[1..] + b;
      var p, f := Pow256(|a| - 1), FromBytes(b);
      FromBytesSplit(a[1..], b);
      calc {
        FromBytes(a + b);
        a[0] + 256 * (FromBytes(a[1..]) + p * f);
        FromBytes(a) + 256 * (p * f);
        { Assoc(p, f); }
        FromBytes(a) + (256 * p) * f;
      }
    }
  }

  lemma DirectLoad2(a: seq<byte>)
    requires |a| == 2
    ensures Uint2korr(a) == FromBytes(a) && Sint2korr(a) == Signed(FromBytes(a), 2)
  {
    Powers();
    FewBytes(a);
  }

  lemma DirectLoad3(a: seq<byte>)
    requires |a| == 3
    ensures Uint3korr(a) == FromBytes(a) && Sint3korr(a) == Signed(FromBytes(a), 3)
  {
    Powers();
    FewBytes(a);
    ShiftsFit(a[1]);
    ShiftsFit(a[2]);
  }

  lemma DirectLoad4(a: seq<byte>)
    requires |a| == 4
    ensures Uint4korr(a) == FromBytes(a) && Sint4korr(a) == Signed(FromBytes(a), 4)
  {
    Powers();
    FewBytes(a);
    ShiftsFit(a[1]);
    ShiftsFit(a[2]);
    ShiftsFit(a[3]);
  }

  /** The wider readers put a second part on top of the first four bytes. */
  lemma TopPart(a: seq<byte>)
    requires |a| > 4
    ensures FromBytes(a) == Uint4korr(a[..4]) + TWO32 * FromBytes(a[4..])
  {
    Powers();
    assert a == a[..4] + a[4..];
    FromBytesSplit(a[..4], a[4..]);
    DirectLoad4(a[..4]);
  }

  lemma DirectLoad8(a: seq<byte>)
    requires |a| == 8
    ensures Uint8korr(a) == FromBytes(a) && Sint8korr(a) == Signed(FromBytes(a), 8)
  {
    Powers();
    TopPart(a);
    DirectLoad4(a[4..]);
  }

  lemma DirectLoad5(a: seq<byte>)
    requires |a| == 5
    ensures Uint5korr(a) == FromBytes(a)
  {
    Powers();
    TopPart(a);
    FewBytes(a[4..]);
  }

  lemma DirectLoad6(a: seq<byte>)
    requires |a| == 6
    ensures Uint6korr(a) == FromBytes(a)
  {
    Powers();
    TopPart(a);
    FewBytes(a[4..]);
    assert At(a[4..], 1) == At(a, 5);
  }

  /** On every byte string, each reader is the direct little-endian load of its width. */
  lemma ReadersAreDirectLoads(a: seq<byte>)
    ensures |a| == 2 ==> Uint2korr(a) == FromBytes(a) && Sint2korr(a) == Signed(FromBytes(a), 2)
    ensures |a| == 3 ==> Uint3korr(a) == FromBytes(a) && Sint3korr(a) == Signed(FromBytes(a), 3)
    ensures |a| == 4 ==> Uint4korr(a) == FromBytes(a) && Sint4korr(a) == Signed(FromBytes(a), 4)
    ensures |a| == 5 ==> Uint5korr(a) == FromBytes(a)
    ensures |a| == 6 ==> Uint6korr(a) == FromBytes(a)
    ensures |a| == 8 ==> Uint8korr(a) == FromBytes(a) && Sint8korr(a) == Signed(FromBytes(a), 8)
  {
    match |a|
    case 2 => DirectLoad2(a);
    case 3 => DirectLoad3(a);
    case 4 => DirectLoad4(a);
    case 5 => DirectLoad5(a);
    case 6 => DirectLoad6(a);
    case 8 => DirectLoad8(a);
    case _ =>
  }

  /** Storing and then loading gives back the stored value, cut to the width. */
  lemma LoadOfStore(v: nat)
    ensures Uint2korr(ToBytes(v, 2)) == v % TWO16 && Uint3korr(ToBytes(v, 3)) == v % TWO24
    ensures Uint4korr(ToBytes(v, 4)) == v % TWO32 && Uint5korr(ToBytes(v, 5)) == v % TWO40
    ensures Uint6korr(ToBytes(v, 6)) == v % TWO48 && Uint8korr(ToBytes(v, 8)) == v % TWO64
  {
    Powers();
    ReadersAreDirectLoads(ToBytes(v, 2)); LoadAfterStore(v, 2);
    ReadersAreDirectLoads(ToBytes(v, 3)); LoadAfterStore(v, 3);
    ReadersAreDirectLoads(ToBytes(v, 4)); LoadAfterStore(v, 4);
    ReadersAreDirectLoads(ToBytes(v, 5)); LoadAfterStore(v, 5);
    ReadersAreDirectLoads(ToBytes(v, 6)); LoadAfterStore(v, 6);
    ReadersAreDirectLoads(ToBytes(v, 8)); LoadAfterStore(v, 8);
  }

  lemma SignedTrip(x: int, w: nat)
    requires w > 0
    ensures Signed(FromBytes(ToBytes(Pattern(x, w), w)), w) == x <==> InSignedRange(x, w)
  {
    LoadAfterStore(Pattern(x, w), w);
    ModUnique(Pattern(x, w), Pow256(w), 0, Pattern(x, w));
    SignedAfterPattern(x, w);
  }

  /** Signed values of the other types come back exactly when they fit. */
  lemma SignedLoadOfStore(x: int)
    ensures Sint2korr(ToBytes(Pattern(x, 2), 2)) == x <==> InSignedRange(x, 2)
    ensures Sint4korr(ToBytes(Pattern(x, 4), 4)) == x <==> InSignedRange(x, 4)
    ensures Sint8korr(ToBytes(Pattern(x, 8), 8)) == x <==> InSignedRange(x, 8)
  {
    SignedTrip(x, 2);
    SignedTrip(x, 4);
    SignedTrip(x, 8);
    DirectLoad2(ToBytes(Pattern(x, 2), 2));
    DirectLoad4(ToBytes(Pattern(x, 4), 4));
    DirectLoad8(ToBytes(Pattern(x, 8), 8));
  }

  lemma StoreCuts(v: nat, w: nat)
    ensures ToBytes(v % Pow256(w), w) == ToBytes(v, w)
  {
    LoadAfterStore(v, w);
    StoreAfterLoad(ToBytes(v, w));
  }

  /** Three bytes of a 32-bit pattern are the three bytes of the 24-bit pattern. */
  lemma LowThree(x: int)
    ensures ToBytes(Pattern(x, 4), 3) == ToBytes(Pattern(x, 3), 3)
  {
    Powers();
    StoreCuts(Pattern(x, 4), 3);
    ModUnique(x, TWO24, x / TWO32 * 256 + x % TWO32 / TWO24, x % TWO32 % TWO24);
  }

  /** `sint3korr` recovers a stored `int` exactly when it lies between INT_MIN24 and INT_MAX24. */
  lemma Sint3Exactly(x: int)
    requires InSignedRange(x, 4)
    ensures Sint3korr(ToBytes(Pattern(x, 4), 3)) == x <==> -0x80_0000 <= x <= 0x7F_FFFF
  {
    LowThree(x);
    SignedTrip(x, 3);
    DirectLoad3(ToBytes(Pattern(x, 3), 3));
    Powers();
  }

  /** Every byte string is the store of what is loaded from it, signed or unsigned. */
  lemma StoreOfLoad(a: seq<byte>)
    ensures |a| == 2 ==> ToBytes(Uint2korr(a), 2) == a == ToBytes(Pattern(Sint2korr(a), 2), 2)
    ensures |a| == 3 ==> ToBytes(Uint3korr(a), 3) == a == ToBytes(Pattern(Sint3korr(a), 4), 3)
    ensures |a| == 4 ==> ToBytes(Uint4korr(a), 4) == a == ToBytes(Pattern(Sint4korr(a), 4), 4)
    ensures |a| == 5 ==> ToBytes(Uint5korr(a), 5) == a
    ensures |a| == 6 ==> ToBytes(Uint6korr(a), 6) == a
    ensures |a| == 8 ==> ToBytes(Uint8korr(a), 8) == a == ToBytes(Pattern(Sint8korr(a), 8), 8)
  {
    ReadersAreDirectLoads(a);
    StoreAfterLoad(a);
    PatternAfterSigned(FromBytes(a), |a|);
    if |a| == 3 { LowThree(Sint3korr(a)); }
  }

  // Stores: bytes written one after the other through the pointer, here an offset into `t`.

  /** The bytes that the shifts of the store functions select. */
  lemma StoredBytes(a: nat, w: nat)
    requires w <= 6
    ensures w > 0 ==> ToBytes(a, w)[0] == a % 0x100
    ensures w > 1 ==> ToBytes(a, w)[1] == a / 0x100 % 0x100
    ensures w > 2 ==> ToBytes(a, w)[2] == a / TWO16 % 0x100
    ensures w > 3 ==> ToBytes(a, w)[3] == a / TWO24 % 0x100
    ensures w > 4 ==> ToBytes(a, w)[4] == a / TWO32 % 0x100
    ensures w > 5 ==> ToBytes(a, w)[5] == a / TWO40 % 0x100
  {
    AboveIsShift(a);
    forall i | 0 <= i < w ensures ToBytes(a, w)[i] == Above(a, i) % 0x100 { ByteAt(a, w, i); }
  }

  method Int2store(t: array<byte>, off: nat, a: nat)
    requires off + 2 <= t.Length && a < TWO16
    modifies t
    ensures t[..] == old(t[..off]) + ToBytes(a, 2) + old(t[off + 2..])
  {
    StoredBytes(a, 2);
    t[off] := a % 0x100;
    t[off + 1] := a / 0x100 % 0x100;
    assert t[off..off + 2] == ToBytes(a, 2);
  }

  method Int3store(t: array<byte>, off: nat, a: nat)
    requires off + 3 <= t.Length && a < TWO32
    modifies t
    ensures t[..] == old(t[..off]) + ToBytes(a, 3) + old(t[off + 3..])
  {
    StoredBytes(a, 3);
    t[off] := a % 0x100;
    t[off + 1] := a / 0x100 % 0x100;
    t[off + 2] := a / TWO16 % 0x100;
    assert t[off..off + 3] == ToBytes(a, 3);
  }

  method Int4store(t: array<byte>, off: nat, a: nat)
    requires off + 4 <= t.Length && a < TWO32
    modifies t
    ensures t[..] == old(t[..off]) + ToBytes(a, 4) + old(t[off + 4..])
  {
    StoredBytes(a, 4);
    t[off] := a % 0x100;
    t[off + 1] := a / 0x100 % 0x100;
    t[off + 2] := a / TWO16 % 0x100;
    t[off + 3] := a / TWO24 % 0x100;
    assert forall i :: 0 <= i < 4 ==> t[off + i] == ToBytes(a, 4)[i];
    assert t[off..off + 4] == ToBytes(a, 4);
  }

  method Int5store(t: array<byte>, off: nat, a: nat)
    requires off + 5 <= t.Length && a < TWO64
    modifies t
    ensures t[..] == old(t[..off]) + ToBytes(a, 5) + old(t[off + 5..])
  {
    StoredBytes(a, 5);
    t[off] := a % 0x100;
    t[off + 1] := a / 0x100 % 0x100;
    t[off + 2] := a / TWO16 % 0x100;
    t[off + 3] := a / TWO24 % 0x100;
    t[off + 4] := a / TWO32 % 0x100;
    assert forall i :: 0 <= i < 5 ==> t[off + i] == ToBytes(a, 5)[i];
    assert t[off..off + 5] == ToBytes(a, 5);
  }

  method Int6store(t: array<byte>, off: nat, a: nat)
    requires off + 6 <= t.Length && a < TWO64
    modifies t
    ensures t[..] == old(t[..off]) + ToBytes(a, 6) + old(t[off + 6..])
  {
    StoredBytes(a, 6);
    t[off] := a % 0x100;
    t[off + 1] := a / 0x100 % 0x100;
    t[off + 2] := a / TWO16 % 0x100;
    t[off + 3] := a / TWO24 % 0x100;
    t[off + 4] := a / TWO32 % 0x100;
    t[off + 5] := a / TWO40 % 0x100;
    assert forall i :: 0 <= i < 6 ==> t[off + i] == ToBytes(a, 6)[i];
    assert t[off..off + 6] == ToBytes(a, 6);
  }

  /** The source stores the two 32-bit halves with int4store. */
  method Int8store(t: array<byte>, off: nat, a: nat)
    requires off + 8 <= t.Length && a < TWO64
    modifies t
    ensures t[..] == old(t[..off]) + ToBytes(a, 8) + old(t[off + 8..])
  {
    ghost var before := t[..];
    Int4store(t, off, a % TWO32);
    ghost var mid := t[..];
    Int4store(t, off + 4, a / TWO32);
    Halves(a);
    JoinStores(before, mid, t[..], off, ToBytes(a % TWO32, 4), ToBytes(a / TWO32, 4));
  }

  /** Two adjacent overwrites are one. */
  lemma JoinStores(s0: seq<byte>, s1: seq<byte>, s2: seq<byte>, off: nat, x: seq<byte>, y: seq<byte>)
    requires off + |x| + |y| <= |s0|
    requires s1 == s0[..off] + x + s0[off + |x|..]
    requires s2 == s1[..off + |x|] + y + s1[off + |x| + |y|..]
    ensures s2 == s0[..off] + (x + y) + s0[off + |x| + |y|..]
  {
    assert s1[..off + |x|] == s0[..off] + x;
    assert s1[off + |x| + |y|..] == s0[off + |x| + |y|..];
  }

  lemma Halves(a: nat)
    ensures ToBytes(a, 8) == ToBytes(a % TWO32, 4) + ToBytes(a / TWO32, 4)
  {
    Powers();
    AboveIsShift(a);
    SplitBytes(a, 8, 4);
    StoreCuts(a, 4);
  }
}
