/**
 Little-endian byte strings and two's complement: how the machine stores an
 integer of `w` bytes, and the two directions of the correspondence.
 */
module LittleEndian {
  import opened Modular

  type byte = b: int | 0 <= b < 256

  function Pow256(w: nat): (p: nat)
    ensures p > 0
  {
    if w == 0 then 1 else 256 * Pow256(w - 1)
  }

  /** The low `w` bytes of `n`, lowest first. */
  function ToBytes(n: nat, w: nat): (b: seq<byte>)
    ensures |b| == w
  {
    if w == 0 then [] else [n % 256] + ToBytes(n / 256, w - 1)
  }

  function FromBytes(b: seq<byte>): (n: nat)
    ensures n < Pow256(|b|)
  {
    if b == [] then 0 else b[0] + 256 * FromBytes(b[1..])
  }

  /** Two's complement reading of a `w`-byte pattern, and the pattern of an integer. */
  function Signed(u: nat, w: nat): int { if 2 * u < Pow256(w) then u else u - Pow256(w) }

  function Pattern(x: int, w: nat): (u: nat)
    ensures u < Pow256(w)
  {
    x % Pow256(w)
  }

  predicate InSignedRange(x: int, w: nat) { -(Pow256(w) as int) <= 2 * x < Pow256(w) }

  lemma {:induction false} LoadAfterStore(n: nat, w: nat)
    ensures FromBytes(ToBytes(n, w)) == n % Pow256(w)
  {
    if w != 0 {
      LoadAfterStore(n / 256, w - 1);
      ModInParts(n, Pow256(w - 1));
    }
  }

  /** What is left of `n` without its low `k` bytes. */
  function Above(n: nat, k: nat): nat { if k == 0 then n else Above(n / 256, k - 1) }

  lemma {:induction false} ByteAt(n: nat, w: nat, i: nat)
    requires i < w
    ensures ToBytes(n, w)[i] == Above(n, i) % 256
  {
    if i > 0 { ByteAt(n / 256, w - 1, i - 1); }
  }

  /** The low `k` bytes, then the bytes of the rest. */
  lemma {:induction false} SplitBytes(n: nat, w: nat, k: nat)
    requires k <= w
    ensures ToBytes(n, w) == ToBytes(n, k) + ToBytes(Above(n, k), w - k)
  {
    if k > 0 { SplitBytes(n / 256, w - 1, k - 1); }
  }

  /** The shifts by whole bytes. */
  lemma AboveIsShift(n: nat)
    ensures Above(n, 0) == n && Above(n, 1) == n / 0x100 && Above(n, 2) == n / 0x1_0000 && Above(n, 3) == n / 0x100_0000
    ensures Above(n, 4) == n / 0x1_0000_0000 && Above(n, 5) == n / 0x100_0000_0000
  {
    var n1 := n / 256;
    var n2 := n1 / 256;
    var n3 := n2 / 256;
    var n4 := n3 / 256;
    assert n2 == n / 0x1_0000;
    assert n3 == n / 0x100_0000;
    assert n4 == n / 0x1_0000_0000;
    assert n4 / 256 == n / 0x100_0000_0000;
    assert Above(n, 5) == Above(n1, 4) == Above(n2, 3) == Above(n3, 2) == Above(n4, 1);
    assert Above(n, 4) == Above(n1, 3) == Above(n2, 2) == Above(n3, 1);
  }

  lemma LowByte(b: byte, f: nat)
    ensures (b + 256 * f) % 256 == b && (b + 256 * f) / 256 == f
  {
  }

  lemma {:induction false} StoreAfterLoad(b: seq<byte>)
    ensures ToBytes(FromBytes(b), |b|) == b
  {
    if b != [] {
      var f := FromBytes(b[1..]);
      StoreAfterLoad(b[1..]);
      LowByte(b[0], f);
      assert ToBytes(b[0] + 256 * f, |b|) == [b[0]] + ToBytes(f, |b| - 1);
    }
  }

  /** A signed value survives the trip through its pattern exactly when it fits. */
  lemma SignedAfterPattern(x: int, w: nat)
    requires w > 0
    ensures Signed(Pattern(x, w), w) == x <==> InSignedRange(x, w)
  {
    var m := Pow256(w);
    if 0 <= 2 * x < m { ModUnique(x, m, 0, x); }
    if -m <= 2 * x < 0 { ModUnique(x, m, -1, x + m); }
  }

  lemma PatternAfterSigned(u: nat, w: nat)
    requires u < Pow256(w)
    ensures Pattern(Signed(u, w), w) == u
  {
    if 2 * u < Pow256(w) { ModUnique(u, Pow256(w), 0, u); } else { ModUnique(u - Pow256(w), Pow256(w), -1, u); }
  }

  lemma Powers()
    ensures Pow256(1) == 0x100 && Pow256(2) == 0x1_0000 && Pow256(3) == 0x100_0000 && Pow256(4) == 0x1_0000_0000
    ensures Pow256(5) == 0x100_0000_0000 && Pow256(6) == 0x1_0000_0000_0000 && Pow256(8) == 0x1_0000_0000_0000_0000
  {
    assert Pow256(4) == 256 * Pow256(3);
    assert Pow256(6) == 256 * Pow256(5);
    assert Pow256(8) == 256 * Pow256(7);
  }
}
