/** The Internet checksum (RFC 1071, section 1) as a little-endian machine
    computes it. */
module Checksum {
  import opened Bytes

  function Word(high: byte, low: byte): u16 {
    var h: int := high;
    h * 0x100 + low
  }

  /** The sum of the 16-bit words, high byte first, padded with a zero byte. */
  function BigSum(d: seq<byte>): nat {
    if d == [] then 0
    else if |d| == 1 then Word(d[0], 0)
    else Word(d[0], d[1]) + BigSum(d[2..])
  }

  /** The same with the low byte first. */
  function LittleSum(d: seq<byte>): nat {
    if d == [] then 0
    else if |d| == 1 then Word(0, d[0])
    else Word(d[1], d[0]) + LittleSum(d[2..])
  }

  /** Adds the carries back in, twice. */
  function Fold(x: nat): nat {
    var y := x / 0x1_0000 + x % 0x1_0000;
    y / 0x1_0000 + y % 0x1_0000
  }

  /** `LWIP_CHKSUM`: the folded sum of the words as the machine reads them. */
  function Chksum(d: seq<byte>): (r: u16)
    requires |d| <= 0x1_0000
  {
    LittleBound(d);
    FoldIs(LittleSum(d));
    Fold(LittleSum(d))
  }

  /** `lwip_ntohs` and `lwip_htons`. */
  function Swap(x: u16): u16 {
    x % 0x100 * 0x100 + x / 0x100
  }

  /** Does this data, checksum included, pass the check at the receiver? */
  predicate Verifies(d: seq<byte>) {
    Fold(BigSum(d)) == 0xFFFF
  }

  /** The same remainder modulo 2^16 - 1. */
  predicate Same(x: int, y: int) {
    x % 0xFFFF == y % 0xFFFF
  }

  lemma FoldIs(x: nat)
    requires x < 0x1_0000_0000
    ensures Fold(x) <= 0xFFFF && Same(Fold(x), x) && (Fold(x) == 0 <==> x == 0)
  {
    var y := x / 0x1_0000 + x % 0x1_0000;
    assert x == y + 0xFFFF * (x / 0x1_0000);
    assert y == Fold(x) + 0xFFFF * (y / 0x1_0000);
    SameUp(y, x, x / 0x1_0000);
    SameUp(Fold(x), y, y / 0x1_0000);
  }

  lemma SameUp(x: int, y: int, k: int)
    requires y == x + 0xFFFF * k
    ensures Same(x, y)
  {
  }

  lemma SameSum(x: int, y: int, a: int, b: int)
    requires Same(x, y) && Same(a, b)
    ensures Same(x + a, y + b)
  {
    SameUp(x + a, y + b, y / 0xFFFF - x / 0xFFFF + b / 0xFFFF - a / 0xFFFF);
  }

  lemma SameShift(x: int, y: int)
    requires Same(x, y)
    ensures Same(0x100 * x, 0x100 * y)
  {
    SameUp(0x100 * x, 0x100 * y, 0x100 * (y / 0xFFFF - x / 0xFFFF));
  }

  lemma {:induction false} LittleBound(d: seq<byte>)
    ensures LittleSum(d) <= 0xFFFF * ((|d| + 1) / 2)
  {
    if |d| > 1 {
      LittleBound(d[2..]);
    }
  }

  lemma {:induction false} BigBound(d: seq<byte>)
    ensures BigSum(d) <= 0xFFFF * ((|d| + 1) / 2)
  {
    if |d| > 1 {
      BigBound(d[2..]);
    }
  }

  /** Byte order does not matter: swapping the bytes of all words swaps those of
      the sum. */
  lemma {:induction false} ByteOrder(d: seq<byte>)
    ensures Same(0x100 * LittleSum(d), BigSum(d))
  {
    hide Same, Word;
    if d == [] {
      SameUp(0, 0, 0);
    } else if |d| == 1 {
      WordOrder(d[0], 0);
    } else {
      ByteOrder(d[2..]);
      WordOrder(d[0], d[1]);
      SameSum(0x100 * Word(d[1], d[0]), Word(d[0], d[1]), 0x100 * LittleSum(d[2..]), BigSum(d[2..]));
    }
  }

  lemma WordOrder(a: byte, b: byte)
    ensures Same(0x100 * Word(b, a), Word(a, b))
  {
    hide Same;
    var big: int, little: int := Word(a, b), Word(b, a);
    SameUp(big, 0x100 * little, b);
    SameTurned(big, 0x100 * little);
  }

  lemma SameTurned(x: int, y: int)
    requires Same(x, y)
    ensures Same(y, x)
  {
  }

  lemma SameZero(x: int, y: int)
    requires Same(x, y)
    ensures Same(x, 0) <==> Same(y, 0)
  {
  }

  lemma SwapShifts(x: u16)
    ensures Same(Swap(x), 0x100 * x)
  {
    SameUp(Swap(x), 0x100 * x, x / 0x100);
  }

  /** `lwip_ntohs(LWIP_CHKSUM(d))` is the sum of the words in network order. */
  lemma NetworkSum(d: seq<byte>)
    requires |d| <= 0x1_0000
    ensures Same(Swap(Chksum(d)), BigSum(d))
  {
    hide Fold, Swap;
    LittleBound(d);
    FoldIs(LittleSum(d));
    SwapShifts(Chksum(d));
    SameShift(Chksum(d), LittleSum(d));
    ByteOrder(d);
  }

  /** Folding a 32-bit sum by taking the checksum of its four bytes. */
  lemma ChksumOfSum(x: u32)
    ensures Same(Chksum(ToLe32(x)), x) && (x > 0 ==> Chksum(ToLe32(x)) > 0)
  {
    var b := ToLe32(x);
    var lo: int, hi: int := Word(b[1], b[0]), Word(b[3], b[2]);
    assert b[2..][0] == b[2] && b[2..][1] == b[3] && b[2..][2..] == [];
    assert LittleSum(b[2..]) == hi;
    assert LittleSum(b) == lo + hi && x == lo + 0x1_0000 * hi;
    SameUp(lo + hi, x, hi);
    FoldIs(lo + hi);
  }

  lemma {:induction false} BigSumAppend(a: seq<byte>, b: seq<byte>)
    requires |a| % 2 == 0
    ensures BigSum(a + b) == BigSum(a) + BigSum(b)
  {
    if a == [] {
      assert a + b == b;
    } else {
      assert (a + b)[2..] == a[2..] + b;
      BigSumAppend(a[2..], b);
    }
  }

  /** Storing a word at an even place where there were zeros adds that word. */
  lemma BigSumStore(d: seq<byte>, at: nat, w: seq<byte>)
    requires at % 2 == 0 && |w| == 2 && at + 2 <= |d| && d[at] == 0 && d[at + 1] == 0
    ensures BigSum(Splice(d, at, w)) == BigSum(d) + Word(w[0], w[1])
  {
    hide BigSum;
    var a, z, c := d[..at], d[at..at + 2], d[at + 2..];
    SplitAround(d, at, w);
    BigSumAppend(a, z + c);
    BigSumAppend(a, w + c);
    BigSumAppend(z, c);
    BigSumAppend(w, c);
    BigSumWord(z);
    BigSumWord(w);
  }

  lemma SplitAround(d: seq<byte>, at: nat, w: seq<byte>)
    requires at + 2 <= |d| && |w| == 2
    ensures d == d[..at] + (d[at..at + 2] + d[at + 2..]) && Splice(d, at, w) == d[..at] + (w + d[at + 2..])
  {
  }

  lemma BigSumWord(w: seq<byte>)
    requires |w| == 2
    ensures BigSum(w) == Word(w[0], w[1])
  {
    assert w[2..] == [];
  }

  /** A checksum verifies exactly if the sum vanishes modulo 2^16 - 1. */
  lemma VerifiesIf(d: seq<byte>)
    requires 0 < BigSum(d) < 0x1_0000_0000
    ensures Verifies(d) <==> Same(BigSum(d), 0)
  {
    hide BigSum;
    FoldIs(BigSum(d));
  }
}
