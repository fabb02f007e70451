/** UTF-8 as RFC 3629 defines it, read independently of how it is written. */
module Utf8 {
  import opened Bytes
  import opened Options

  /** A code point that is not a surrogate. */
  predicate Scalar(u: nat) {
    u < 0xD800 || 0xE000 <= u < 0x11_0000
  }

  /** How the parser writes a code point. */
  function Encode(u: nat): seq<byte>
    requires u < 0x11_0000
  {
    if u < 0x80 then [u]
    else if u < 0x800 then [0xC0 + u / 0x40, 0x80 + u % 0x40]
    else if u < 0x1_0000 then [0xE0 + u / 0x1000, 0x80 + u / 0x40 % 0x40, 0x80 + u % 0x40]
    else [0xF0 + u / 0x4_0000, 0x80 + u / 0x1000 % 0x40, 0x80 + u / 0x40 % 0x40, 0x80 + u % 0x40]
  }

  predicate Tail(b: byte) {
    0x80 <= b <= 0xBF
  }

  /** The six low bits of a continuation byte. */
  function Bits(b: byte): int
    requires Tail(b)
  {
    b - 0x80
  }

  /** Section 3 of RFC 3629: the code point of a whole character, by the table of
      octet sequences in section 4, which excludes overlong forms, surrogates
      and everything above U+10FFFF. */
  function Decode(d: seq<byte>): Option<int> {
    if |d| == 1 && d[0] <= 0x7F then Some(d[0])
    else if |d| == 2 && 0xC2 <= d[0] <= 0xDF && Tail(d[1]) then
      Some((d[0] - 0xC0) * 0x40 + Bits(d[1]))
    else if |d| == 3 && 0xE0 <= d[0] <= 0xEF && Tail(d[1]) && Tail(d[2])
         && (d[0] == 0xE0 ==> d[1] >= 0xA0) && (d[0] == 0xED ==> d[1] <= 0x9F) then
      Some((d[0] - 0xE0) * 0x1000 + Bits(d[1]) * 0x40 + Bits(d[2]))
    else if |d| == 4 && 0xF0 <= d[0] <= 0xF4 && Tail(d[1]) && Tail(d[2]) && Tail(d[3])
         && (d[0] == 0xF0 ==> d[1] >= 0x90) && (d[0] == 0xF4 ==> d[1] <= 0x8F) then
      Some((d[0] - 0xF0) * 0x4_0000 + Bits(d[1]) * 0x1000 + Bits(d[2]) * 0x40 + Bits(d[3]))
    else None
  }

  /** What the parser writes is the one encoding of the code point; only for
      surrogates it would be none. */
  lemma EncodeDecodes(u: nat, d: seq<byte>)
    requires u < 0x11_0000
    ensures Scalar(u) ==> (Decode(d) == Some(u) <==> d == Encode(u))
    ensures !Scalar(u) ==> Decode(Encode(u)) == None
  {
    EncodeReads(u);
    if Decode(d) == Some(u) {
      DecodeWrites(d, u);
    }
  }

  lemma EncodeReads(u: nat)
    requires u < 0x11_0000
    ensures Decode(Encode(u)) == if Scalar(u) then Some(u) else None
  {
    var a, b, c := u / 0x40, u / 0x40 / 0x40, u / 0x40 / 0x40 / 0x40;
    Quotients(u);
    Recombined(u, a, b, c);
    if u < 0x80 {
    } else if u < 0x800 {
      assert Encode(u) == [0xC0 + a, 0x80 + u % 0x40];
    } else if u < 0x1_0000 {
      ThreeRead(u, a, b);
    } else {
      FourRead(u, a, b, c);
    }
  }

  lemma Quotients(u: nat)
    ensures u / 0x1000 == u / 0x40 / 0x40 && u / 0x4_0000 == u / 0x40 / 0x40 / 0x40
  {
  }

  lemma ThreeRead(u: nat, a: nat, b: nat)
    requires 0x800 <= u < 0x1_0000 && a == u / 0x40 && b == a / 0x40 == u / 0x1000
    requires u == b * 0x1000 + a % 0x40 * 0x40 + u % 0x40
    ensures Decode(Encode(u)) == if Scalar(u) then Some(u) else None
  {
    assert Encode(u) == [0xE0 + b, 0x80 + a % 0x40, 0x80 + u % 0x40];
  }

  lemma FourRead(u: nat, a: nat, b: nat, c: nat)
    requires 0x1_0000 <= u < 0x11_0000 && a == u / 0x40 && b == a / 0x40 == u / 0x1000 && c == b / 0x40 == u / 0x4_0000
    requires u == c * 0x4_0000 + b % 0x40 * 0x1000 + a % 0x40 * 0x40 + u % 0x40
    ensures Decode(Encode(u)) == Some(u)
  {
    assert Encode(u) == [0xF0 + c, 0x80 + b % 0x40, 0x80 + a % 0x40, 0x80 + u % 0x40];
  }

  lemma Recombined(u: nat, a: nat, b: nat, c: nat)
    requires a == u / 0x40 && b == a / 0x40 && c == b / 0x40
    ensures u == a * 0x40 + u % 0x40 == b * 0x1000 + a % 0x40 * 0x40 + u % 0x40
    ensures u == c * 0x4_0000 + b % 0x40 * 0x1000 + a % 0x40 * 0x40 + u % 0x40
  {
  }

  lemma DecodeWrites(d: seq<byte>, u: nat)
    requires Decode(d) == Some(u)
    ensures u < 0x11_0000 && Scalar(u) && d == Encode(u)
  {
    if |d| == 2 {
      Decoded2(d, u);
    } else if |d| == 3 {
      Decoded3(d, u);
    } else if |d| == 4 {
      Decoded4(d, u);
    }
  }

  lemma Decoded2(d: seq<byte>, u: nat)
    requires |d| == 2 && Decode(d) == Some(u)
    ensures 0x80 <= u < 0x800 && d == Encode(u)
  {
    assert u / 0x40 == d[0] - 0xC0;
  }

  lemma Decoded3(d: seq<byte>, u: nat)
    requires |d| == 3 && Decode(d) == Some(u)
    ensures 0x800 <= u < 0x1_0000 && Scalar(u) && d == Encode(u)
  {
    assert u / 0x40 == (d[0] - 0xE0) * 0x40 + Bits(d[1]);
    assert u / 0x1000 == d[0] - 0xE0;
  }

  lemma Decoded4(d: seq<byte>, u: nat)
    requires |d| == 4 && Decode(d) == Some(u)
    ensures 0x1_0000 <= u < 0x11_0000 && d == Encode(u)
  {
    assert u / 0x40 == (d[0] - 0xF0) * 0x1000 + Bits(d[1]) * 0x40 + Bits(d[2]);
    assert u / 0x1000 == (d[0] - 0xF0) * 0x40 + Bits(d[1]);
    assert u / 0x4_0000 == d[0] - 0xF0;
  }
}
