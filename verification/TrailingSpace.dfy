/**
 The two word-at-a-time versions of `skip_trailing_space`, against the byte scan
 they replace. The array is exactly the `len` bytes the caller passed, so that a
 read outside the string would be an index error; pointers are offsets into it.
 */
module TrailingSpace {
  import opened Modular
  import opened LittleEndian
  import opened ByteOrder

  const SPACE: byte := 0x20

  /** Number of bytes left when trailing spaces are dropped one by one. */
  function TrimmedLen(s: seq<byte>): (n: nat)
    ensures n <= |s|
  {
    if s == [] || s[|s| - 1] != SPACE then |s| else TrimmedLen(s[..|s| - 1])
  }

  predicate AllSpaces(s: seq<byte>) { forall k :: 0 <= k < |s| ==> s[k] == SPACE }

  /** The byte scan stops behind the last byte that is not a space, and nowhere else. */
  lemma {:induction false} TrimmedLenIsUnique(s: seq<byte>, n: nat)
    requires n <= |s|
    ensures n == TrimmedLen(s) <==> AllSpaces(s[n..]) && (n > 0 ==> s[n - 1] != SPACE)
  {
    if s != [] && s[|s| - 1] == SPACE {
      var front := s[..|s| - 1];
      if n < |s| {
        TrimmedLenIsUnique(front, n);
        assert s[n..] == front[n..] + [SPACE];
        assert AllSpaces(front[n..]) ==> AllSpaces(s[n..]);
        assert AllSpaces(s[n..]) ==> forall k :: 0 <= k < |front[n..]| ==> front[n..][k] == s[n..][k];
      }
    } else if s != [] && n < |s| {
      assert s[n..][|s| - 1 - n] == s[|s| - 1];
    }
  }

  /** A word of `w` bytes, in the byte order of the machine. */
  function LoadWord(s: seq<byte>, bigEndian: bool): nat { if bigEndian then FromBytes(Reversed(s)) else FromBytes(s) }

  function Reversed(s: seq<byte>): (r: seq<byte>)
    ensures |r| == |s|
    ensures forall k :: 0 <= k < |s| ==> r[k] == s[|s| - 1 - k]
  {
    if s == [] then [] else Reversed(s[1..]) + [s[0]]
  }

  /** SPACE_INT for a word of four or eight bytes. */
  const SPACE4 := 0x2020_2020
  const SPACE8 := 0x2020_2020_2020_2020

  function SpaceWord(w: nat): nat { if w == 0 then 0 else 0x20 + 256 * SpaceWord(w - 1) }

  lemma SpaceConstants()
    ensures SpaceWord(4) == SPACE4 && SpaceWord(8) == SPACE8
  {
    assert SpaceWord(5) == 0x20_2020_2020 && SpaceWord(7) == 0x20_2020_2020_2020;
  }

  /** A word equals the constant exactly when each of its bytes is a space, on either kind of machine. */
  lemma {:induction false} WordOfSpaces(s: seq<byte>)
    ensures FromBytes(s) == SpaceWord(|s|) <==> AllSpaces(s)
  {
    if s != [] {
      WordOfSpaces(s[1..]);
      assert AllSpaces(s) <==> s[0] == SPACE && AllSpaces(s[1..]);
    }
  }

  lemma ReversedSpaces(s: seq<byte>)
    ensures AllSpaces(Reversed(s)) <==> AllSpaces(s)
  {
    if AllSpaces(Reversed(s)) {
      forall k | 0 <= k < |s| ensures s[k] == SPACE { assert s[k] == Reversed(s)[|s| - 1 - k]; }
    }
  }

  lemma LoadedWordOfSpaces(s: seq<byte>, bigEndian: bool)
    ensures LoadWord(s, bigEndian) == SpaceWord(|s|) <==> AllSpaces(s)
  {
    WordOfSpaces(if bigEndian then Reversed(s) else s);
    ReversedSpaces(s);
  }

  /** Dropping a block of spaces from the end does not change what is left in the end. */
  lemma {:induction false} DropSpaces(s: seq<byte>, n: nat)
    requires n <= |s| && AllSpaces(s[n..])
    ensures TrimmedLen(s) == TrimmedLen(s[..n])
  {
    if n < |s| {
      assert s[n..][|s| - 1 - n] == s[|s| - 1];
      var front := s[..|s| - 1];
      assert front[n..] == s[n..][..|s| - 1 - n];
      DropSpaces(front, n);
      assert front[..n] == s[..n];
    } else {
      assert s[..n] == s;
    }
  }

  /** The last loop of both versions: one byte at a time. */
  method ScanBytes(a: array<byte>, from: nat) returns (end: nat)
    requires from <= a.Length
    ensures end == TrimmedLen(a[..from])
  {
    end := from;
    while end > 0 && a[end - 1] == SPACE
      invariant 0 <= end <= from
      invariant TrimmedLen(a[..end]) == TrimmedLen(a[..from])
    {
      assert a[..end][..end - 1] == a[..end - 1];
      end := end - 1;
    }
  }

  /** One word back: if it is the space constant, it belongs to the trailing spaces. */
  lemma DropWord(s: seq<byte>, end: nat, w: nat, bigEndian: bool)
    requires w <= end <= |s| && LoadWord(s[end - w..end], bigEndian) == SpaceWord(w)
    ensures TrimmedLen(s[..end]) == TrimmedLen(s[..end - w])
  {
    LoadedWordOfSpaces(s[end - w..end], bigEndian);
    assert s[..end][end - w..] == s[end - w..end];
    assert s[..end][..end - w] == s[..end - w];
    DropSpaces(s[..end], end - w);
  }

  /** Divisible by the word size, which is 4 or 8. */
  predicate Aligned(x: nat, w: nat) { if w == 4 then x % 4 == 0 else x % 8 == 0 }

  lemma MultipleAligned(q: nat, w: nat)
    requires w == 4 || w == 8
    ensures q * w >= 0 && Aligned(q * w, w)
  {
    if w == 4 { ModUnique(q * 4, 4, q, 0); } else { ModUnique(q * 8, 8, q, 0); }
  }

  /** `x / w * w`, the largest multiple of the word size not above `x`. */
  function RoundDown(x: nat, w: nat): (r: nat)
    requires w == 4 || w == 8
    ensures r <= x < r + w && Aligned(r, w)
  {
    if w == 4 then MultipleAligned(x / 4, 4); x / 4 * 4 else MultipleAligned(x / 8, 8); x / 8 * 8
  }

  lemma NextMultiple(x: nat, y: nat, w: nat)
    requires w == 4 || w == 8
    requires x < y && Aligned(x, w) && Aligned(y, w)
    ensures x <= y - w && Aligned(y - w, w)
  {
    if w == 4 { Back(x / 4, y / 4, 4); } else { Back(x / 8, y / 8, 8); }
  }

  lemma Back(i: nat, j: nat, w: nat)
    requires (w == 4 || w == 8) && i < j
    ensures i * w <= j * w - w && Aligned(j * w - w, w)
  {
    MultipleAligned(j - 1, w);
    assert (j - 1) * w == j * w - w;
  }

  /** Eight bytes at a time, ignoring alignment. */
  method SkipTrailingSpace(a: array<byte>) returns (end: nat)
    ensures end == TrimmedLen(a[..])
  {
    end := a.Length;
    assert a[..end] == a[..];
    SpaceConstants();
    while end >= 8
      invariant 0 <= end <= a.Length
      invariant TrimmedLen(a[..end]) == TrimmedLen(a[..])
    {
      var word := Uint8korr(a[end - 8..end]);
      if word != SPACE8 { break; }
      ReadersAreDirectLoads(a[end - 8..end]);
      assert a[..][end - 8..end] == a[end - 8..end];
      DropWord(a[..], end, 8, false);
      assert a[..][..end] == a[..end] && a[..][..end - 8] == a[..end - 8];
      end := end - 8;
    }
    end := ScanBytes(a, end);
  }

  /** Aligned words of `w` bytes for strings over 20 bytes; `addr` is the address of the first byte. */
  method SkipTrailingSpaceAligned(a: array<byte>, addr: nat, w: nat, bigEndian: bool) returns (end: nat)
    requires w == 4 || w == 8
    ensures end == TrimmedLen(a[..])
  {
    var len := a.Length;
    end := len;
    assert a[..len] == a[..];
    if len > 20 {
      var endWords := RoundDown(addr + end, w) - addr;
      var startWords := RoundDown(addr + w - 1, w) - addr;
      assert endWords > 0;  // the source's DBUG_ASSERT
      while end > endWords && a[end - 1] == SPACE
        invariant endWords <= end <= len
        invariant TrimmedLen(a[..end]) == TrimmedLen(a[..])
      {
        assert a[..end][..end - 1] == a[..end - 1];
        end := end - 1;
      }
      if a[end - 1] == SPACE && startWords < endWords {
        end := ScanWords(a, addr, w, bigEndian, startWords, end);
      }
    }
    end := ScanBytes(a, end);
  }

  /** The word loop of the aligned version, every word read at an aligned address. */
  method ScanWords(a: array<byte>, addr: nat, w: nat, bigEndian: bool, startWords: nat, from: nat) returns (end: nat)
    requires w == 4 || w == 8
    requires startWords <= from <= a.Length && Aligned(addr + startWords, w) && Aligned(addr + from, w)
    ensures end <= from && TrimmedLen(a[..end]) == TrimmedLen(a[..from])
  {
    end := from;
    SpaceConstants();
    while end > startWords
      invariant startWords <= end <= from && Aligned(addr + end, w)
      invariant TrimmedLen(a[..end]) == TrimmedLen(a[..from])
    {
      NextMultiple(addr + startWords, addr + end, w);
      if LoadWord(a[end - w..end], bigEndian) != (if w == 4 then SPACE4 else SPACE8) { break; }
      assert a[..][end - w..end] == a[end - w..end];
      DropWord(a[..], end, w, bigEndian);
      assert a[..][..end] == a[..end] && a[..][..end - w] == a[..end - w];
      end := end - w;
    }
  }
}
