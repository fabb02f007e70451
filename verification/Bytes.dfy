/** Bytes, the two bitwise operations the firmware needs on them, and the
    little-endian 32-bit words of the microcontroller. */
module Bytes {

  type byte = x: int | 0 <= x < 0x100

  type u16 = x: int | 0 <= x < 0x1_0000

  type u32 = x: int | 0 <= x < 0x1_0000_0000

  /** Bitwise conjunction, bit by bit from the least significant one. */
  function And(x: nat, y: nat): (r: nat)
    ensures r <= x && r <= y
  {
    if x == 0 || y == 0 then 0 else (if x % 2 == 1 then y % 2 else 0) + 2 * And(x / 2, y / 2)
  }

  /** Bitwise exclusive or, bit by bit from the least significant one. */
  function Xor(x: nat, y: nat): nat {
    if x == 0 then y else if y == 0 then x else (x + y) % 2 + 2 * Xor(x / 2, y / 2)
  }

  /** The two arguments and the result determine each other bit by bit. */
  lemma XorStep(x: nat, y: nat)
    ensures Xor(x, y) == (x + y) % 2 + 2 * Xor(x / 2, y / 2)
  {
  }

  lemma {:induction false} XorCancels(x: nat, y: nat, z: nat)
    requires Xor(x, y) == Xor(x, z)
    ensures y == z
    decreases x + y + z
  {
    hide Xor;
    if x > 0 || y > 0 || z > 0 {
      XorStep(x, y);
      XorStep(x, z);
      assert (x + y) % 2 == (x + z) % 2;
      XorCancels(x / 2, y / 2, z / 2);
    }
  }

  lemma {:induction false} XorSymmetric(x: nat, y: nat)
    ensures Xor(x, y) == Xor(y, x)
  {
    if x > 0 && y > 0 {
      XorSymmetric(x / 2, y / 2);
    }
  }

  lemma {:induction false} XorBound(n: nat, x: nat, y: nat)
    requires x < Pow2(n) && y < Pow2(n)
    ensures Xor(x, y) < Pow2(n)
  {
    if n > 0 && x > 0 && y > 0 {
      XorBound(n - 1, x / 2, y / 2);
    }
  }

  /** Folds the bytes of `d` into `x`. */
  function XorOn(x: nat, d: seq<byte>): nat {
    if d == [] then x else Xor(XorOn(x, d[..|d| - 1]), d[|d| - 1])
  }

  function XorAll(d: seq<byte>): nat {
    XorOn(0, d)
  }

  /** Bit `k` of `x`, from the least significant one on. */
  function Bit(x: nat, k: nat): nat {
    if k == 0 then x % 2 else Bit(x / 2, k - 1)
  }

  /** Both operations work on each bit by itself. */
  lemma {:induction false} BitsOf(x: nat, y: nat, k: nat)
    ensures Bit(And(x, y), k) == (if Bit(x, k) == 1 then Bit(y, k) else 0) && Bit(Xor(x, y), k) == (Bit(x, k) + Bit(y, k)) % 2
  {
    hide And, Xor;
    AndHalves(x, y);
    XorHalves(x, y);
    if k > 0 {
      BitsOf(x / 2, y / 2, k - 1);
    }
  }

  lemma AndHalves(x: nat, y: nat)
    ensures And(x, y) % 2 == (if x % 2 == 1 then y % 2 else 0) && And(x, y) / 2 == And(x / 2, y / 2)
  {
    hide And;
    AndStep(x, y);
    LowBit(if x % 2 == 1 then y % 2 else 0, And(x / 2, y / 2));
  }

  lemma AndStep(x: nat, y: nat)
    ensures And(x, y) == (if x % 2 == 1 then y % 2 else 0) + 2 * And(x / 2, y / 2)
  {
  }

  lemma XorHalves(x: nat, y: nat)
    ensures Xor(x, y) % 2 == (x % 2 + y % 2) % 2 && Xor(x, y) / 2 == Xor(x / 2, y / 2)
  {
    hide Xor;
    XorStep(x, y);
    LowBit((x + y) % 2, Xor(x / 2, y / 2));
    SumParity(x, y);
  }

  lemma SumParity(x: nat, y: nat)
    ensures (x + y) % 2 == (x % 2 + y % 2) % 2
  {
  }

  lemma LowBit(b: nat, r: nat)
    requires b < 2
    ensures (b + 2 * r) % 2 == b && (b + 2 * r) / 2 == r
  {
  }

  /** How many of the bytes have bit `k` set? */
  function Ones(d: seq<byte>, k: nat): nat {
    if d == [] then 0 else Ones(d[..|d| - 1], k) + Bit(d[|d| - 1], k)
  }

  /** Each bit of the checksum is the parity of that bit in the bytes. */
  lemma {:induction false} XorAllParity(d: seq<byte>, k: nat)
    ensures Bit(XorAll(d), k) == Ones(d, k) % 2
  {
    hide Xor, Bit;
    if d == [] {
      ZeroBits(k);
    } else {
      var n := |d| - 1;
      XorAllParity(d[..n], k);
      BitsOf(XorAll(d[..n]), d[n], k);
    }
  }

  lemma {:induction false} ZeroBits(k: nat)
    ensures Bit(0, k) == 0
  {
    if k > 0 {
      ZeroBits(k - 1);
    }
  }

  lemma {:induction false} XorAllBound(d: seq<byte>)
    ensures XorAll(d) < 0x100
  {
    hide Xor;
    if d != [] {
      XorAllBound(d[..|d| - 1]);
      assert Pow2(8) == 0x100 by {
        assert Pow2(4) == 16;
      }
      XorBound(8, XorAll(d[..|d| - 1]), d[|d| - 1]);
    }
  }

  /** Changing one byte changes the checksum. */
  lemma {:induction false} XorDetects(x: nat, d: seq<byte>, k: nat, c: byte)
    requires k < |d| && c != d[k]
    ensures XorOn(x, d[k := c]) != XorOn(x, d)
  {
    hide Xor;
    var n := |d| - 1;
    var front := XorOn(x, d[..n]);
    if k == n {
      assert d[k := c][..n] == d[..n];
      if Xor(front, c) == Xor(front, d[n]) {
        XorCancels(front, c, d[n]);
      }
    } else {
      assert d[k := c][..n] == d[..n][k := c];
      XorDetects(x, d[..n], k, c);
      var other := XorOn(x, d[..n][k := c]);
      if Xor(front, d[n]) == Xor(other, d[n]) {
        XorSymmetric(front, d[n]);
        XorSymmetric(other, d[n]);
        XorCancels(d[n], front, other);
      }
    }
  }

  lemma {:induction false} XorAppend(x: nat, a: seq<byte>, d: seq<byte>)
    ensures XorOn(XorOn(x, a), d) == XorOn(x, a + d)
  {
    hide Xor;
    if d == [] {
      assert a + d == a;
    } else {
      assert (a + d)[..|a + d| - 1] == a + d[..|d| - 1];
      XorAppend(x, a, d[..|d| - 1]);
    }
  }

  /** Characters without a NUL. */
  type Chars = s: seq<byte> | forall i | 0 <= i < |s| :: s[i] != 0

  /** The characters before the terminating NUL. */
  function CString(s: seq<byte>): seq<byte> {
    if s == [] || s[0] == 0 then [] else [s[0]] + CString(s[1..])
  }

  /** They are a prefix without a NUL that ends at the first NUL, if there is one. */
  lemma {:induction false} CStringIs(s: seq<byte>)
    ensures var t := CString(s);
            && |t| <= |s| && t == s[..|t|] && (forall i | 0 <= i < |t| :: t[i] != 0) && (|t| < |s| ==> s[|t|] == 0)
  {
    if s != [] && s[0] != 0 {
      CStringIs(s[1..]);
    }
  }

  lemma {:induction false} CStringEnds(s: seq<byte>, k: nat)
    requires k <= |s| && (forall i | 0 <= i < k :: s[i] != 0) && (k < |s| ==> s[k] == 0)
    ensures CString(s) == s[..k]
  {
    if k > 0 {
      CStringEnds(s[1..], k - 1);
    }
  }

  function Pow2(n: nat): (r: nat)
    ensures r >= 1
  {
    if n == 0 then 1 else 2 * Pow2(n - 1)
  }

  /** A word of `n` ones is the unit of `And` on `n`-bit words. */
  lemma {:induction false} AndOnes(n: nat, y: nat)
    requires y < Pow2(n)
    ensures And(Pow2(n) - 1, y) == y
  {
    if n > 0 && y > 0 {
      assert (Pow2(n) - 1) % 2 == 1 && (Pow2(n) - 1) / 2 == Pow2(n - 1) - 1;
      AndOnes(n - 1, y / 2);
    }
  }

  lemma {:induction false} AndSymmetric(x: nat, y: nat)
    ensures And(x, y) == And(y, x)
  {
    if x > 0 && y > 0 {
      AndSymmetric(x / 2, y / 2);
    }
  }

  lemma AndErased(y: byte)
    ensures And(0xFF, y) == y
  {
    assert Pow2(8) == 0x100 by {
      assert Pow2(4) == 16;
    }
    AndOnes(8, y);
  }

  /** `n` erased cells. */
  function Blank(n: nat): (s: seq<byte>)
    ensures |s| == n
  {
    seq(n, _ => 0xFF)
  }

  /** `s` with the bytes from `a` on replaced by `d`. */
  function Splice(s: seq<byte>, a: nat, d: seq<byte>): (r: seq<byte>)
    requires a + |d| <= |s|
    ensures |r| == |s|
  {
    s[..a] + d + s[a + |d|..]
  }

  lemma SpliceAt(f: seq<byte>, a: nat, d: seq<byte>, i: nat)
    requires a + |d| <= |f| && i < |f|
    ensures Splice(f, a, d)[i] == if a <= i < a + |d| then d[i - a] else f[i]
  {
  }

  lemma SpliceSlice(v: seq<byte>, a: nat, d: seq<byte>, lo: nat, hi: nat)
    requires a + |d| <= |v| && lo <= hi <= |v|
    requires hi <= a || a + |d| <= lo || (a <= lo && hi <= a + |d|)
    ensures Splice(v, a, d)[lo..hi] == if a <= lo && hi <= a + |d| then d[lo - a..hi - a] else v[lo..hi]
  {
    hide Splice;
    var w := Splice(v, a, d);
    if a <= lo && hi <= a + |d| {
      forall i | lo <= i < hi
        ensures w[i] == d[i - a]
      {
        SpliceAt(v, a, d, i);
      }
      assert forall i | 0 <= i < hi - lo :: w[lo..hi][i] == w[lo + i] == d[lo + i - a] == d[lo - a..hi - a][i];
    } else {
      forall i | lo <= i < hi
        ensures w[i] == v[i]
      {
        SpliceAt(v, a, d, i);
      }
    }
  }

  lemma SplicePrefix(v: seq<byte>, at: nat, d: seq<byte>)
    requires at + |d| <= |v|
    ensures Splice(v, at, d)[..at + |d|] == v[..at] + d
  {
  }

  lemma SliceJoin(v: seq<byte>, lo: nat, mid: nat, hi: nat)
    requires lo <= mid <= hi <= |v|
    ensures v[lo..hi] == v[lo..mid] + v[mid..hi]
  {
  }

  lemma SpliceOwn(v: seq<byte>, a: nat, d: seq<byte>)
    requires a + |d| <= |v| && v[a..a + |d|] == d
    ensures Splice(v, a, d) == v
  {
  }

  /** Patching a piece is patching the whole. */
  lemma SpliceInside(v: seq<byte>, a: nat, c: seq<byte>, x: nat, d: seq<byte>)
    requires a + |c| <= |v| && x + |d| <= |c|
    ensures Splice(Splice(v, a, c), a + x, d) == Splice(v, a, Splice(c, x, d))
  {
  }

  lemma SameSlices(v: seq<byte>, w: seq<byte>, n: nat, lo: nat, hi: nat)
    requires n <= |v| && n <= |w| && v[..n] == w[..n] && lo <= hi <= n
    ensures v[lo..hi] == w[lo..hi]
  {
    assert forall i | lo <= i < hi :: v[i] == v[..n][i] == w[..n][i] == w[i];
  }

  /** A piece of a buffer whose start holds `d`. */
  lemma ArrayPiece(data: array<byte>, d: seq<byte>, lo: nat, hi: nat)
    requires |d| <= data.Length && data[..|d|] == d && lo <= hi <= |d|
    ensures data[lo..hi] == d[lo..hi]
  {
    assert forall i | lo <= i < hi :: data[i] == data[..|d|][i] == d[i];
  }

  function Le32(b: seq<byte>): u32
    requires |b| == 4
  {
    var b0: int, b1: int, b2: int, b3: int := b[0], b[1], b[2], b[3];
    b0 + 0x100 * (b1 + 0x100 * (b2 + 0x100 * b3))
  }

  function ToLe32(x: u32): (b: seq<byte>)
    ensures |b| == 4 && Le32(b) == x
  {
    var y1: int := x / 0x100;
    var y2: int := y1 / 0x100;
    [x % 0x100, y1 % 0x100, y2 % 0x100, y2 / 0x100]
  }

  /** Copies `size` bytes between two different buffers. */
  method Memcpy(dst: array<byte>, to: nat, src: array<byte>, from: nat, size: nat)
    requires to + size <= dst.Length && from + size <= src.Length
    requires dst != src
    modifies dst
    ensures dst[..] == Splice(old(dst[..]), to, old(src[from..from + size]))
  {
    forall i | 0 <= i < size {
      dst[to + i] := src[from + i];
    }
  }
}
